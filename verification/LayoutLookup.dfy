/**
  Path lookup on layouts: what MMDB_aget_value does on every section that holds a layout, conforming or not.  One
  pointer is followed at each step, and the keys of skipped maps are not skipped themselves.
 */
module LayoutLookup {
  import opened Bytes
  import opened Decode
  import opened Layout
  import opened ArrayIndex
  import opened Paths
  import opened Lookup

  /** Where a lookup ends: with an error, or at a field. */
  datatype Landing = Fails(status: Status) | Lands(d: Layout)

  predicate IsString(d: Layout) {
    d.Field? && d.typ == TYPE_UTF8_STRING
  }

  /** The value of the first key that equals `key`, in a stream that begins with so many pairs. */
  function LayFind(stream: seq<Layout>, pairs: nat, key: seq<byte>): (r: Landing)
    requires 2 * pairs <= |stream|
    ensures r.Fails? ==> r.status in {LookupPathDoesNotMatchData, InvalidData}
    decreases pairs
  {
    if pairs == 0 then Fails(LookupPathDoesNotMatchData)
    else
      var k := Target(stream[0]);
      if !IsString(k) then Fails(InvalidData)
      else if k.payload == key then Lands(stream[1])
      else LayFind(SkipOne(stream[1..]), pairs - 1, key)
  }

  /** One path element in the field `c`. */
  function LayMember(c: Layout, elem: seq<byte>): (r: Landing)
    ensures r.Fails? ==> r.status in {LookupPathDoesNotMatchData, InvalidData, InvalidLookupPath}
  {
    match c
    case ArrayOf(items) =>
      (match ReadIndex(elem)
       case Rejected(status) => Fails(status)
       case Index(n) => if n < |items| then Lands(SkipMany(items, n)[0]) else Fails(LookupPathDoesNotMatchData))
    case MapOf(items) => LayFind(items, |items| / 2, elem)
    case _ => Fails(LookupPathDoesNotMatchData)
  }

  function LayGet(d: Layout, path: Path): (r: Landing)
    ensures r.Fails? ==> r.status in {LookupPathDoesNotMatchData, InvalidData, InvalidLookupPath}
    decreases |path|
  {
    if path == [] then Lands(d)
    else
      match LayMember(Target(d), path[0])
      case Fails(status) => Fails(status)
      case Lands(next) => LayGet(next, path[1..])
  }

  // ----- streams whose pointers lead to layouts -----

  ghost predicate Readable(mem: seq<byte>, at: nat, stream: seq<Layout>) {
    InStream(mem, at, stream) && TargetsHoldAll(mem, stream)
  }

  lemma {:induction false} TargetsOf(mem: seq<byte>, at: nat, d: Layout)
    requires WellFormed(mem, at, d)
    ensures TargetsHold(mem, d)
    decreases d
  {
    hide Head, Holds;
    if IsNode(d) {
      TargetsOfAll(mem, at + |Head(d)|, d.items);
    }
  }

  lemma {:induction false} TargetsOfAll(mem: seq<byte>, at: nat, items: seq<Layout>)
    requires WellFormedItems(mem, at, items)
    ensures TargetsHoldAll(mem, items)
    decreases items
  {
    hide Encode;
    if items != [] {
      TargetsOf(mem, at, items[0]);
      TargetsOfAll(mem, at + |Encode(items[0])|, items[1..]);
    }
  }

  lemma ReadableItems(mem: seq<byte>, at: nat, d: Layout)
    requires IsNode(d) && WellFormed(mem, at, d)
    ensures HeadFits(d) && Readable(mem, at + |Head(d)|, d.items)
  {
    hide Head;
    WellFormedEncodesAll(mem, at + |Head(d)|, d.items);
    TargetsOfAll(mem, at + |Head(d)|, d.items);
  }

  lemma ReadableFirst(mem: seq<byte>, at: nat, stream: seq<Layout>)
    requires stream != [] && Readable(mem, at, stream)
    ensures WellFormed(mem, at, stream[0]) && Fits(stream[0])
    ensures Readable(mem, at + |Encode(stream[0])|, stream[1..])
  {
    hide Encode, Holds;
    HoldsParts(mem, at, Encode(stream[0]), EncodeAll(stream[1..]));
    EncodingIsWellFormed(mem, at, stream[0]);
  }

  lemma {:induction false} TargetsAdd(mem: seq<byte>, stream: seq<Layout>, more: seq<Layout>)
    requires TargetsHoldAll(mem, stream) && TargetsHoldAll(mem, more)
    ensures TargetsHoldAll(mem, stream + more)
    decreases |stream|
  {
    if stream == [] {
      assert stream + more == more;
    } else {
      assert (stream + more)[1..] == stream[1..] + more;
      TargetsAdd(mem, stream[1..], more);
    }
  }

  lemma TargetsOpen(mem: seq<byte>, stream: seq<Layout>)
    requires stream != [] && TargetsHoldAll(mem, stream)
    ensures TargetsHoldAll(mem, Opened(stream))
  {
    TargetsAdd(mem, Children(stream[0]), stream[1..]);
  }

  lemma {:induction false} TargetsAfterOne(mem: seq<byte>, stream: seq<Layout>)
    requires stream != [] && TargetsHoldAll(mem, stream)
    ensures TargetsHoldAll(mem, SkipOne(stream))
    decreases Mass(stream), 0, 0
  {
    hide TargetsHold, TargetsHoldAll, Opened;
    TargetsOpen(mem, stream);
    match stream[0]
    case ArrayOf(items) => TargetsAfterMany(mem, Opened(stream), |items|);
    case MapOf(items) => TargetsAfterPairs(mem, Opened(stream), |items| / 2);
    case _ =>
  }

  lemma {:induction false} TargetsAfterMany(mem: seq<byte>, stream: seq<Layout>, count: nat)
    requires count <= |stream| && TargetsHoldAll(mem, stream)
    ensures TargetsHoldAll(mem, SkipMany(stream, count))
    decreases Mass(stream), 1, count
  {
    hide TargetsHold, TargetsHoldAll, SkipOne;
    if count > 0 {
      TargetsAfterOne(mem, stream);
      TargetsAfterMany(mem, SkipOne(stream), count - 1);
    }
  }

  lemma {:induction false} TargetsAfterPairs(mem: seq<byte>, stream: seq<Layout>, pairs: nat)
    requires 2 * pairs <= |stream| && TargetsHoldAll(mem, stream)
    ensures TargetsHoldAll(mem, SkipPairs(stream, pairs))
    decreases Mass(stream), 1, pairs
  {
    hide TargetsHold, TargetsHoldAll, SkipOne, Opened;
    if pairs > 0 {
      TargetsOpen(mem, stream);
      TargetsAfterOne(mem, Opened(stream));
      TargetsAfterPairs(mem, SkipOne(Opened(stream)), pairs - 1);
    }
  }

  // ----- lookup on bytes is lookup on layouts -----

  /** decode_one_follow: the entry describes the target of a pointer, one hop on; the next offset is past the pointer
      unless the target is a container, where it is past the target's header. */
  lemma FollowLayout(mem: seq<byte>, at: nat, d: Layout)
    requires |mem| < U32_RANGE && WellFormed(mem, at, d)
    ensures FollowSpec(mem, at, ZERO_ENTRY).0 == Success
    ensures var e := FollowSpec(mem, at, ZERO_ENTRY).1;
            && e.offset == TargetAt(at, d) && e.typ == TypeOf(Target(d)) && WellFormed(mem, e.offset, Target(d))
            && (Target(d).Ref? || Meaning(mem, e) == HeadItem(Target(d)))
            && e.offsetToNext ==
               if IsNode(Target(d)) then TargetAt(at, d) + |Head(Target(d))| else at + |Encode(d)|
  {
    hide DecodeSpec, Head, Holds, Meaning;
    DecodeLayout(mem, at, d, ZERO_ENTRY);
    if d.Ref? {
      var e := DecodeSpec(mem, at, ZERO_ENTRY).1;
      DecodeLayout(mem, d.base + SEPARATOR, d.target, e);
      MeaningIgnoresNext(mem, DecodeSpec(mem, d.base + SEPARATOR, e).1, e.offsetToNext);
    }
  }

  /** What the loop of lookup_path_in_map sees of a string key. */
  lemma ReadsKey(mem: seq<byte>, at: nat, k: Layout)
    requires |mem| < U32_RANGE && WellFormed(mem, at, k) && IsString(Target(k))
    ensures var e := FollowSpec(mem, at, ZERO_ENTRY).1;
            && HasText(mem, e) && TextOf(mem, e) == Target(k).payload && e.dataSize == |Target(k).payload|
  {
    hide DecodeSpec, FollowSpec, Head, Holds;
    FollowLayout(mem, at, k);
  }

  lemma {:induction false} FindOnLayouts(mem: seq<byte>, at: nat, stream: seq<Layout>, pairs: nat, key: seq<byte>)
    returns (at': nat)
    requires |mem| < U32_RANGE && 2 * pairs <= |stream| && Readable(mem, at, stream)
    ensures match LayFind(stream, pairs, key)
            case Fails(status) => FindKey(mem, at, pairs, key).0 == status
            case Lands(d) => FindKey(mem, at, pairs, key) == (Success, at') && 0 < at' && WellFormed(mem, at', d)
    decreases pairs
  {
    hide FollowSpec, Head, Holds, WellFormed, HasText, TextOf, SkipField, SkipOne, Encode, EncodeAll, TargetsHoldAll;
    at' := at;
    if pairs > 0 {
      var k, rest := stream[0], stream[1..];
      ReadableFirst(mem, at, stream);
      FollowLayout(mem, at, k);
      if IsString(Target(k)) {
        ReadsKey(mem, at, k);
        at' := at + |Encode(k)|;
        ReadableFirst(mem, at', rest);
        EncodeNotEmpty(k);
        if Target(k).payload != key {
          var next := SkipsOne(mem, at', rest);
          TargetsAfterOne(mem, rest);
          at' := FindOnLayouts(mem, next, SkipOne(rest), pairs - 1, key);
        }
      }
    }
  }

  lemma EncodeNotEmpty(d: Layout)
    requires Fits(d)
    ensures |Encode(d)| > 0
  {
    HeadNotEmpty(d);
  }

  lemma MemberOnLayouts(mem: seq<byte>, at: nat, c: Layout, e: Entry, elem: seq<byte>) returns (at': nat)
    requires |mem| < U32_RANGE && WellFormed(mem, at, c)
    requires e.typ == TypeOf(c) && (c.Ref? || Meaning(mem, e) == HeadItem(c))
    requires IsNode(c) ==> e.offsetToNext == at + |Head(c)|
    ensures match LayMember(c, elem)
            case Fails(status) => Member(mem, e, elem).0 == status
            case Lands(d) => Member(mem, e, elem) == (Success, at') && 0 < at' && WellFormed(mem, at', d)
  {
    hide Head, Holds, Readable, Meaning, SkipItems, FindKey, LayFind, SkipMany, TypeOf;
    at' := at;
    NodeType(mem, e, c);
    match c {
      case ArrayOf(items) =>
        ReadableItems(mem, at, c);
        var index := ReadIndex(elem);
        if index.Index? && index.n < |items| {
          at' := ElementOnLayouts(mem, e.offsetToNext, items, index.n);
          HeadNotEmpty(c);
        }
      case MapOf(items) =>
        ReadableItems(mem, at, c);
        at' := FindOnLayouts(mem, e.offsetToNext, items, |items| / 2, elem);
      case _ =>
    }
  }

  lemma NodeType(mem: seq<byte>, e: Entry, c: Layout)
    requires HeadFits(c) && e.typ == TypeOf(c) && (c.Ref? || Meaning(mem, e) == HeadItem(c))
    ensures c.MapOf? <==> e.typ == TYPE_MAP
    ensures c.ArrayOf? <==> e.typ == TYPE_ARRAY
    ensures c.MapOf? ==> e.dataSize == |c.items| / 2
    ensures c.ArrayOf? ==> e.dataSize == |c.items|
  {
  }

  lemma ElementOnLayouts(mem: seq<byte>, at: nat, items: seq<Layout>, n: nat) returns (at': nat)
    requires |mem| < U32_RANGE && Readable(mem, at, items) && n < |items|
    ensures SkipItems(mem, at, n, false) == (Success, at') && at <= at' && WellFormed(mem, at', SkipMany(items, n)[0])
  {
    hide Head, Holds, WellFormed, SkipItems, SkipMany, Encode, EncodeAll, FitsAll, TargetsHoldAll;
    at' := SkipsMany(mem, at, items, n);
    TargetsAfterMany(mem, items, n);
    ReadableFirst(mem, at', SkipMany(items, n));
  }

  /** The main result on lookup in bytes: on every section that holds a layout, MMDB_aget_value ends with the status, or
      at the field, that lookup on the layout ends with. */
  lemma {:induction false} LookupOnLayouts(mem: seq<byte>, at: nat, d: Layout, path: Path) returns (at': nat)
    requires |mem| < U32_RANGE && WellFormed(mem, at, d)
    ensures match LayGet(d, path)
            case Fails(status) => GetSpec(mem, at, path).0 == status
            case Lands(d') =>
              GetSpec(mem, at, path) == (Success, at') && (0 < at ==> 0 < at') && WellFormed(mem, at', d')
    decreases |path|
  {
    hide FollowSpec, Head, Holds, WellFormed, Member, Meaning, LayMember;
    at' := at;
    FollowLayout(mem, at, d);
    if path != [] {
      var c, e := Target(d), FollowSpec(mem, at, ZERO_ENTRY).1;
      var next := MemberOnLayouts(mem, e.offset, c, e, path[0]);
      var member := LayMember(c, path[0]);
      if member.Lands? {
        at' := LookupOnLayouts(mem, next, member.d, path[1..]);
      }
    }
  }
}
