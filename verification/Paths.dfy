/**
  Skipping: skip_map_or_array, and what it leaves in front of the cursor.
 */
module Paths {
  import opened Bytes
  import opened Decode
  import opened Layout

  function Rest(mem: seq<byte>, at: nat): nat {
    if at <= |mem| then |mem| - at else 0
  }

  // ----- skip_map_or_array -----

  /** decode_one as skipping calls it, which goes on from the next offset.  A next offset that has wrapped around 32
      bits may lead back to where skipping came from; the model stops there. */
  function Forward(mem: seq<byte>, at: nat, before: Entry): (r: (Status, Entry))
    requires |mem| < U32_RANGE
    ensures r.0 == Success ==> at < |mem| && at < r.1.offsetToNext
  {
    var (status, e) := DecodeSpec(mem, at, before);
    if status == Success && e.offsetToNext <= at then (Wrapped, e) else (status, e)
  }

  method DecodeForward(mem: seq<byte>, at: nat, ed: EntryData) returns (status: Status)
    requires |mem| < U32_RANGE
    modifies ed
    ensures (status, ed.View()) == Forward(mem, at, old(ed.View()))
  {
    hide DecodeSpec;
    status := DecodeOne(mem, at, ed);
    if status == Success && ed.offsetToNext <= at {
      return Wrapped;
    }
  }

  /** A decode at `at`, then skip_map_or_array: the status and the offset reached. */
  function SkipField(mem: seq<byte>, at: nat): (r: (Status, nat))
    requires |mem| < U32_RANGE
    ensures r.0 == Success ==> at < r.1 && at < |mem|
    decreases Rest(mem, at), 0, 0
  {
    var (status, e) := Forward(mem, at, ZERO_ENTRY);
    if status != Success then (status, at) else SkipRest(mem, e)
  }

  function SkipRest(mem: seq<byte>, e: Entry): (r: (Status, nat))
    requires |mem| < U32_RANGE
    ensures r.0 == Success ==> e.offsetToNext <= r.1
    decreases Rest(mem, e.offsetToNext), 2, 0
  {
    if IsContainer(e.typ) then SkipItems(mem, e.offsetToNext, e.dataSize, e.typ == TYPE_MAP)
    else (Success, e.offsetToNext)
  }

  /** `count` elements, or `count` pairs of a key that is only decoded and a value that is skipped. */
  function SkipItems(mem: seq<byte>, at: nat, count: nat, isMap: bool): (r: (Status, nat))
    requires |mem| < U32_RANGE
    ensures r.0 == Success ==> at <= r.1
    decreases Rest(mem, at), 1, count
  {
    if count == 0 then (Success, at)
    else
      var (keyStatus, valueAt) := if isMap then SkipKey(mem, at) else (Success, at);
      if keyStatus != Success then (keyStatus, at)
      else
        var (status, next) := SkipField(mem, valueAt);
        if status != Success then (status, at) else SkipItems(mem, next, count - 1, isMap)
  }

  function SkipKey(mem: seq<byte>, at: nat): (r: (Status, nat))
    requires |mem| < U32_RANGE
    ensures r.0 == Success ==> at < r.1
  {
    var (status, e) := Forward(mem, at, ZERO_ENTRY);
    if status == Success then (status, e.offsetToNext) else (status, at)
  }

  /** Decoding into a used struct and into a zeroed one agree on everything skipping looks at. */
  lemma ForwardAgrees(mem: seq<byte>, at: nat, before: Entry)
    requires |mem| < U32_RANGE
    ensures var (status, e) := Forward(mem, at, before);
            var (status', e') := Forward(mem, at, ZERO_ENTRY);
            && status == status'
            && (status == Success ==> Settled(e) == Settled(e') && SkipRest(mem, e) == SkipRest(mem, e'))
  {
    DecodeIgnoresOldContents(mem, at, before, ZERO_ENTRY);
    if DecodeSpec(mem, at, before).0 == Success {
      hide DecodeSpec;
      var e, e' := DecodeSpec(mem, at, before).1, DecodeSpec(mem, at, ZERO_ENTRY).1;
      SettledParts(e, e');
    }
  }

  /** A section that leaves room for one maximal payload below 4 GiB never makes skipping stop at a wrapped offset. */
  lemma NeverWraps(mem: seq<byte>, at: nat, before: Entry)
    requires |mem| + MAX_SIZE < U32_RANGE
    ensures Forward(mem, at, before) == DecodeSpec(mem, at, before)
  {
    hide DecodeSpec;
    if DecodeSpec(mem, at, before).0 == Success {
      DecodeAdvances(mem, at, before);
    }
  }

  method SkipMapOrArray(mem: seq<byte>, ed: EntryData) returns (status: Status)
    requires |mem| < U32_RANGE
    modifies ed
    ensures status == SkipRest(mem, old(ed.View())).0
    ensures status == Success ==> ed.offsetToNext == SkipRest(mem, old(ed.View())).1
    decreases Rest(mem, ed.offsetToNext)
  {
    hide Forward;
    ghost var first := ed.View();
    if ed.typ == TYPE_MAP {
      var size := ed.dataSize;
      while size > 0
        invariant SkipItems(mem, ed.offsetToNext, size, true) == SkipRest(mem, first)
        invariant first.offsetToNext <= ed.offsetToNext
      {
        size := size - 1;
        ForwardAgrees(mem, ed.offsetToNext, ed.View());
        status := DecodeForward(mem, ed.offsetToNext, ed);
        if status != Success {
          return;
        }
        ForwardAgrees(mem, ed.offsetToNext, ed.View());
        status := DecodeForward(mem, ed.offsetToNext, ed);
        if status != Success {
          return;
        }
        status := SkipMapOrArray(mem, ed);
        if status != Success {
          return;
        }
      }
    } else if ed.typ == TYPE_ARRAY {
      var size := ed.dataSize;
      while size > 0
        invariant SkipItems(mem, ed.offsetToNext, size, false) == SkipRest(mem, first)
        invariant first.offsetToNext <= ed.offsetToNext
      {
        size := size - 1;
        ForwardAgrees(mem, ed.offsetToNext, ed.View());
        status := DecodeForward(mem, ed.offsetToNext, ed);
        if status != Success {
          return;
        }
        status := SkipMapOrArray(mem, ed);
        if status != Success {
          return;
        }
      }
    }
    return Success;
  }

  // ----- skipping on layouts -----

  /** The fields directly inside a field, in its own stream. */
  function Children(d: Layout): seq<Layout> {
    if IsNode(d) then d.items else []
  }

  /** How many fields a stream holds, at any depth. */
  function Mass(stream: seq<Layout>): nat
    decreases stream
  {
    if stream == [] then 0 else 1 + (if IsNode(stream[0]) then Mass(stream[0].items) else 0) + Mass(stream[1..])
  }

  lemma {:induction false} MassAdds(stream: seq<Layout>, more: seq<Layout>)
    ensures Mass(stream + more) == Mass(stream) + Mass(more)
    decreases |stream|
  {
    if stream == [] {
      assert stream + more == more;
    } else {
      assert (stream + more)[1..] == stream[1..] + more;
      MassAdds(stream[1..], more);
    }
  }

  /** The stream after the header of its first field. */
  function Opened(stream: seq<Layout>): (r: seq<Layout>)
    requires stream != []
    ensures |r| == |stream| - 1 + |Children(stream[0])| && Mass(r) + 1 == Mass(stream)
  {
    MassAdds(Children(stream[0]), stream[1..]);
    Children(stream[0]) + stream[1..]
  }

  /** What is in front of the cursor after skipping the first field of a stream.  The keys of a map are decoded but not
      skipped, so the items of a key that is a container are taken for values and keys, and as many fields of the map
      are left over. */
  function SkipOne(stream: seq<Layout>): (r: seq<Layout>)
    requires stream != []
    ensures |r| >= |stream| - 1 && Mass(r) < Mass(stream)
    decreases Mass(stream), 0, 0
  {
    match stream[0]
    case ArrayOf(items) => SkipMany(Opened(stream), |items|)
    case MapOf(items) => SkipPairs(Opened(stream), |items| / 2)
    case _ => Opened(stream)
  }

  function SkipMany(stream: seq<Layout>, count: nat): (r: seq<Layout>)
    requires count <= |stream|
    ensures |r| >= |stream| - count && Mass(r) <= Mass(stream)
    decreases Mass(stream), 1, count
  {
    if count == 0 then stream else SkipMany(SkipOne(stream), count - 1)
  }

  function SkipPairs(stream: seq<Layout>, pairs: nat): (r: seq<Layout>)
    requires 2 * pairs <= |stream|
    ensures |r| >= |stream| - 2 * pairs && Mass(r) <= Mass(stream)
    decreases Mass(stream), 1, pairs
  {
    if pairs == 0 then stream else SkipPairs(SkipOne(Opened(stream)), pairs - 1)
  }

  /** The section holds a stream of fields at `at`.  What pointers in it lead to does not matter. */
  ghost predicate InStream(mem: seq<byte>, at: nat, stream: seq<Layout>) {
    FitsAll(stream) && Holds(mem, at, EncodeAll(stream))
  }

  lemma {:induction false} EncodeAdds(stream: seq<Layout>, more: seq<Layout>)
    ensures EncodeAll(stream + more) == EncodeAll(stream) + EncodeAll(more)
    ensures FitsAll(stream) && FitsAll(more) ==> FitsAll(stream + more)
    decreases |stream|
  {
    hide Encode, Fits;
    if stream == [] {
      assert stream + more == more;
    } else {
      assert (stream + more)[1..] == stream[1..] + more;
      EncodeAdds(stream[1..], more);
    }
  }

  lemma HeadNotEmpty(d: Layout)
    requires HeadFits(d)
    ensures |Head(d)| > 0
  {
  }

  /** A stream is the header of its first field and the stream after it. */
  lemma StreamOpens(mem: seq<byte>, at: nat, stream: seq<Layout>)
    requires stream != [] && InStream(mem, at, stream)
    ensures HeadFits(stream[0]) && |Head(stream[0])| > 0 && Holds(mem, at, Head(stream[0]))
    ensures InStream(mem, at + |Head(stream[0])|, Opened(stream))
    ensures |EncodeAll(stream)| == |Head(stream[0])| + |EncodeAll(Opened(stream))|
  {
    hide Head, Holds;
    var d := stream[0];
    assert Fits(d);
    HeadNotEmpty(d);
    EncodeAdds(Children(d), stream[1..]);
    assert EncodeAll(Children(d)) == if IsNode(d) then EncodeAll(d.items) else [];
    assert EncodeAll(stream) == Head(d) + EncodeAll(Opened(stream));
    HoldsParts(mem, at, Head(d), EncodeAll(Opened(stream)));
  }

  /** On any stream, decoding and skipping a field leaves exactly `SkipOne` in front of the cursor. */
  lemma {:induction false} SkipsOne(mem: seq<byte>, at: nat, stream: seq<Layout>) returns (at': nat)
    requires |mem| < U32_RANGE && stream != [] && InStream(mem, at, stream)
    ensures SkipField(mem, at) == (Success, at') && InStream(mem, at', SkipOne(stream))
    ensures at' + |EncodeAll(SkipOne(stream))| == at + |EncodeAll(stream)|
    decreases Mass(stream), 0, 0
  {
    hide InStream, DecodeSpec, Head, Holds, HeadFits, SkipItems, SkipMany, SkipPairs, Opened, EncodeAll;
    var d := stream[0];
    StreamOpens(mem, at, stream);
    DecodeLayout(mem, at, d, ZERO_ENTRY);
    at' := at + |Head(d)|;
    HeadSize(mem, DecodeSpec(mem, at, ZERO_ENTRY).1, d);
    if d.ArrayOf? {
      at' := SkipsMany(mem, at', Opened(stream), |d.items|);
    } else if d.MapOf? {
      at' := SkipsPairs(mem, at', Opened(stream), |d.items| / 2);
    }
  }

  lemma HeadSize(mem: seq<byte>, e: Entry, d: Layout)
    requires e.typ == TypeOf(d) && (d.Ref? || Meaning(mem, e) == HeadItem(d)) && HeadFits(d)
    ensures d.MapOf? ==> e.dataSize == |d.items| / 2 && e.typ == TYPE_MAP
    ensures d.ArrayOf? ==> e.dataSize == |d.items| && e.typ == TYPE_ARRAY
    ensures !IsNode(d) ==> !IsContainer(e.typ)
  {
  }

  lemma {:induction false} SkipsMany(mem: seq<byte>, at: nat, stream: seq<Layout>, count: nat) returns (at': nat)
    requires |mem| < U32_RANGE && count <= |stream| && InStream(mem, at, stream)
    ensures SkipItems(mem, at, count, false) == (Success, at') && InStream(mem, at', SkipMany(stream, count))
    ensures at' + |EncodeAll(SkipMany(stream, count))| == at + |EncodeAll(stream)|
    decreases Mass(stream), 1, count
  {
    hide InStream, SkipField, SkipOne, EncodeAll;
    at' := at;
    if count > 0 {
      var next := SkipsOne(mem, at, stream);
      at' := SkipsMany(mem, next, SkipOne(stream), count - 1);
    }
  }

  lemma {:induction false} SkipsPairs(mem: seq<byte>, at: nat, stream: seq<Layout>, pairs: nat) returns (at': nat)
    requires |mem| < U32_RANGE && 2 * pairs <= |stream| && InStream(mem, at, stream)
    ensures SkipItems(mem, at, pairs, true) == (Success, at') && InStream(mem, at', SkipPairs(stream, pairs))
    ensures at' + |EncodeAll(SkipPairs(stream, pairs))| == at + |EncodeAll(stream)|
    decreases Mass(stream), 1, pairs
  {
    hide InStream, SkipField, SkipOne, EncodeAll, DecodeSpec, Head, Holds, HeadFits, Opened;
    at' := at;
    if pairs > 0 {
      StreamOpens(mem, at, stream);
      DecodeLayout(mem, at, stream[0], ZERO_ENTRY);
      var valueAt := at + |Head(stream[0])|;
      var next := SkipsOne(mem, valueAt, Opened(stream));
      at' := SkipsPairs(mem, next, SkipOne(Opened(stream)), pairs - 1);
    }
  }

  // ----- when skipping lands on the end -----

  /** No map in the stream of `d` has a key that is a container with items. */
  predicate KeysFlat(d: Layout)
    decreases d
  {
    IsNode(d) ==> KeysFlatAll(d.items) && (d.MapOf? ==> FlatKeys(d.items))
  }

  predicate KeysFlatAll(items: seq<Layout>)
    decreases items
  {
    items == [] || (KeysFlat(items[0]) && KeysFlatAll(items[1..]))
  }

  /** The items are pairs, and the first of each has no items of its own. */
  predicate FlatKeys(items: seq<Layout>) {
    items == [] || (|items| >= 2 && Children(items[0]) == [] && FlatKeys(items[2..]))
  }

  /** Skipping a field leaves exactly the fields after it if, and only if, no key inside is a container with items. */
  lemma {:induction false} SkipExact(stream: seq<Layout>)
    requires stream != []
    ensures KeysFlat(stream[0]) ==> SkipOne(stream) == stream[1..]
    ensures !KeysFlat(stream[0]) ==> |SkipOne(stream)| >= |stream|
    decreases stream[0], 0
  {
    match stream[0]
    case ArrayOf(items) => SkipManyExact(items, stream[1..]);
    case MapOf(items) => SkipPairsExact(items, stream[1..], |items| / 2);
    case _ =>
  }

  lemma {:induction false} SkipManyExact(items: seq<Layout>, rest: seq<Layout>)
    ensures KeysFlatAll(items) ==> SkipMany(items + rest, |items|) == rest
    ensures !KeysFlatAll(items) ==> |SkipMany(items + rest, |items|)| > |rest|
    decreases items, 1
  {
    hide KeysFlat, SkipOne;
    if items == [] {
      assert items + rest == rest;
    } else {
      SkipExact(items + rest);
      assert (items + rest)[1..] == items[1..] + rest;
      SkipManyExact(items[1..], rest);
    }
  }

  lemma PairFlat(items: seq<Layout>)
    requires |items| >= 2
    ensures Children(items[0]) == [] ==> (KeysFlatAll(items) <==> KeysFlat(items[1]) && KeysFlatAll(items[2..]))
  {
    assert items[1..][0] == items[1] && items[1..][1..] == items[2..];
    if Children(items[0]) == [] {
      assert KeysFlat(items[0]);
    }
  }

  lemma {:induction false} SkipPairsExact(items: seq<Layout>, rest: seq<Layout>, pairs: nat)
    requires |items| == 2 * pairs || |items| == 2 * pairs + 1
    ensures KeysFlatAll(items) && FlatKeys(items) ==> SkipPairs(items + rest, pairs) == rest
    ensures !(KeysFlatAll(items) && FlatKeys(items)) ==> |SkipPairs(items + rest, pairs)| > |rest|
    decreases items, 1
  {
    hide SkipOne, KeysFlat;
    var stream := items + rest;
    if |items| < 2 {
      assert items == [] ==> stream == rest;
    } else {
      PairFlat(items);
      if Children(items[0]) == [] {
        assert Opened(stream) == items[1..] + rest;
        SkipExact(Opened(stream));
        assert Opened(stream)[1..] == items[2..] + rest;
        SkipPairsExact(items[2..], rest, pairs - 1);
      }
    }
  }

  /** Skipping lands one past the encoding of a value if, and only if, no key in it is a container with items.  Only the
      value's own bytes are assumed: what pointers inside it lead to does not matter, so none is followed. */
  lemma SkipLandsExactly(mem: seq<byte>, at: nat, d: Layout)
    requires |mem| < U32_RANGE && Fits(d) && Holds(mem, at, Encode(d))
    ensures SkipField(mem, at).0 == Success && SkipField(mem, at).1 <= at + |Encode(d)|
    ensures SkipField(mem, at).1 == at + |Encode(d)| <==> KeysFlat(d)
  {
    hide SkipField, SkipOne, Encode, Head, Holds, KeysFlat;
    var stream := [d];
    assert stream[1..] == [] && EncodeAll(stream) == Encode(d) && FitsAll(stream);
    var at' := SkipsOne(mem, at, stream);
    SkipExact(stream);
    EmptyStream(SkipOne(stream));
  }

  lemma EmptyStream(stream: seq<Layout>)
    requires FitsAll(stream)
    ensures EncodeAll(stream) == [] <==> stream == []
  {
    if stream != [] {
      assert Fits(stream[0]);
      HeadNotEmpty(stream[0]);
    }
  }

  /** The keys of a conforming layout are strings or pointers to strings. */
  lemma {:induction false} ConformingKeysAreFlat(d: Layout)
    requires Conforms(d) && Fits(d)
    ensures KeysFlat(d)
    decreases d
  {
    if IsNode(d) {
      ConformingKeysAreFlatAll(d.items);
      if d.MapOf? {
        StringKeysAreFlat(d.items);
      }
    }
  }

  lemma {:induction false} ConformingKeysAreFlatAll(items: seq<Layout>)
    requires ConformsAll(items) && FitsAll(items)
    ensures KeysFlatAll(items)
    decreases items
  {
    if items != [] {
      ConformingKeysAreFlat(items[0]);
      ConformingKeysAreFlatAll(items[1..]);
    }
  }

  lemma {:induction false} StringKeysAreFlat(items: seq<Layout>)
    requires KeysAreStrings(items) && |items| % 2 == 0
    ensures FlatKeys(items)
    decreases |items|
  {
    if items != [] {
      assert KeysAreStrings(items[2..]) by {
        assert forall i | 0 <= i < |items| - 2 :: items[2..][i] == items[i + 2];
      }
      StringKeysAreFlat(items[2..]);
    }
  }

  /** Skipping lands one past the encoding of every conforming value. */
  lemma SkipLands(mem: seq<byte>, at: nat, d: Layout)
    requires |mem| < U32_RANGE && Fits(d) && Conforms(d) && Holds(mem, at, Encode(d))
    ensures SkipField(mem, at) == (Success, at + |Encode(d)|)
  {
    hide SkipField, Encode, Head, Holds, KeysFlat;
    ConformingKeysAreFlat(d);
    SkipLandsExactly(mem, at, d);
  }
}
