/**
  MMDB_aget_value and lookup in the tree of values: exactly when the two agree, and that they always do on conforming
  sections, whatever mix of inline and pointed-to keys, values and containers the section uses.
 */
module LookupRefines {
  import opened Bytes
  import opened Decode
  import opened Layout
  import opened ArrayIndex
  import opened Paths
  import opened Lookup
  import opened LayoutLookup

  /** No map of a layout, behind its pointers included, has a key that is a container with items. */
  predicate Tidy(d: Layout)
    decreases d
  {
    match d
    case MapOf(items) => TidyAll(items) && FlatKeys(items)
    case ArrayOf(items) => TidyAll(items)
    case Ref(_, _, _, target) => Tidy(target)
    case _ => true
  }

  predicate TidyAll(items: seq<Layout>)
    decreases items
  {
    items == [] || (Tidy(items[0]) && TidyAll(items[1..]))
  }

  lemma {:induction false} TidyIsFlat(d: Layout)
    requires Tidy(d)
    ensures KeysFlat(d)
    decreases d
  {
    if IsNode(d) {
      TidyIsFlatAll(d.items);
    }
  }

  lemma {:induction false} TidyIsFlatAll(items: seq<Layout>)
    requires TidyAll(items)
    ensures KeysFlatAll(items)
    decreases items
  {
    if items != [] {
      TidyIsFlat(items[0]);
      TidyIsFlatAll(items[1..]);
    }
  }

  lemma {:induction false} TidyItem(items: seq<Layout>, i: nat)
    requires TidyAll(items) && i < |items|
    ensures Tidy(items[i])
    decreases i
  {
    if i > 0 {
      TidyItem(items[1..], i - 1);
    }
  }

  // ----- what a path meets on its way -----

  /** A pointer to a pointer. */
  predicate IsChain(d: Layout) {
    d.Ref? && d.target.Ref?
  }

  /** How the search for a key goes: it ends without a match, at a key, or at a key that is no string and no pointer to
      one. */
  datatype Scan = NoKey | KeyAt(i: nat) | NoString

  function ScanKeys(items: seq<Layout>, key: seq<byte>, from: nat): (r: Scan)
    ensures r.KeyAt? ==> from <= r.i && r.i + 1 < |items|
    decreases |items| - from
  {
    if from + 1 >= |items| then NoKey
    else if !IsString(Target(items[from])) then NoString
    else if Target(items[from]).payload == key then KeyAt(from)
    else ScanKeys(items, key, from + 2)
  }

  /** The first thing on the way of a path that the tree of values does not show: a pointer to a pointer, with the
      rest of the path, or a key that is no string. */
  datatype Obstacle = Clear | PointerChain(d: Layout, rest: Path) | BadKey

  function FirstObstacle(d: Layout, path: Path): Obstacle
    decreases |path|
  {
    if IsChain(d) then PointerChain(d, path)
    else if path == [] then Clear
    else
      match Target(d)
      case ArrayOf(items) =>
        (match ReadIndex(path[0])
         case Rejected(_) => Clear
         case Index(n) => if n < |items| then FirstObstacle(items[n], path[1..]) else Clear)
      case MapOf(items) =>
        (match ScanKeys(items, path[0], 0)
         case NoKey => Clear
         case NoString => BadKey
         case KeyAt(i) => FirstObstacle(items[i + 1], path[1..]))
      case _ => Clear
  }

  lemma EraseTarget(d: Layout)
    ensures Erase(d) == Erase(Target(d))
  {
  }

  lemma FirstKeyStep(items: seq<Value>, key: seq<byte>, from: nat)
    requires from + 1 < |items|
    ensures FirstKey(items, key, from) ==
              if items[from] == Leaf(Str(key)) then from else FirstKey(items, key, from + 2)
  {
  }

  /** The scan over a map's stream and the search among its erased items follow the scan over its items. */
  lemma {:induction false} FindScans(items: seq<Layout>, from: nat, pairs: nat, key: seq<byte>)
    requires TidyAll(items) && from + 2 * pairs == |items|
    ensures match ScanKeys(items, key, from)
            case NoKey =>
              && LayFind(items[from..], pairs, key) == Fails(LookupPathDoesNotMatchData)
              && FirstKey(EraseAll(items), key, from) == |items|
            case NoString => LayFind(items[from..], pairs, key) == Fails(InvalidData)
            case KeyAt(i) =>
              LayFind(items[from..], pairs, key) == Lands(items[i + 1]) && FirstKey(EraseAll(items), key, from) == i
    decreases pairs
  {
    hide Erase, SkipOne, KeysFlat, TidyAll, FirstKey;
    if pairs == 0 {
      NothingToFind(EraseAll(items), key, from);
    } else {
      var k, stream := items[from], items[from..];
      FirstKeyStep(EraseAll(items), key, from);
      assert stream[0] == k && stream[1] == items[from + 1];
      if IsString(Target(k)) {
        EraseString(k);
        assert EraseAll(items)[from] == Erase(k);
        if Target(k).payload != key {
          TidyItem(items, from + 1);
          TidyIsFlat(items[from + 1]);
          SkipExact(stream[1..]);
          assert stream[1..][1..] == items[from + 2..];
          FindScans(items, from + 2, pairs - 1, key);
        }
      }
    }
  }

  lemma NothingToFind(items: seq<Value>, key: seq<byte>, from: nat)
    requires from + 1 >= |items|
    ensures FirstKey(items, key, from) == |items|
  {
  }

  lemma EraseString(k: Layout)
    requires IsString(Target(k))
    ensures Erase(k) == Leaf(Str(Target(k).payload))
  {
  }

  /** Skipping elements of a tidy array. */
  lemma {:induction false} SkipToElement(items: seq<Layout>, n: nat)
    requires TidyAll(items) && n <= |items|
    ensures SkipMany(items, n) == items[n..]
    decreases n
  {
    hide SkipOne, KeysFlat, Tidy;
    if n > 0 {
      TidyIsFlat(items[0]);
      SkipExact(items);
      SkipToElement(items[1..], n - 1);
      assert items[1..][n - 1..] == items[n..];
    }
  }

  lemma {:induction false} ConformingItem(items: seq<Layout>, i: nat)
    requires ConformsAll(items) && i < |items|
    ensures Conforms(items[i])
    decreases i
  {
    if i > 0 {
      ConformingItem(items[1..], i - 1);
    }
  }

  // ----- lookup on layouts and lookup on values -----

  /** What lookup on a layout says, next to what lookup on its value says. */
  ghost predicate Related(d: Layout, path: Path) {
    match FirstObstacle(d, path)
    case Clear =>
      (match Resolve(Erase(d), path)
       case Missing(status) => LayGet(d, path) == Fails(status)
       case Here(v) =>
         && LayGet(d, path).Lands? && Erase(LayGet(d, path).d) == v && !IsChain(LayGet(d, path).d)
         && (Conforms(d) ==> Conforms(LayGet(d, path).d)))
    case BadKey => LayGet(d, path) == Fails(InvalidData)
    case PointerChain(n, rest) =>
      && IsChain(n) && Resolve(Erase(d), path) == Resolve(Erase(n), rest)
      && LayGet(d, path) == if rest == [] then Lands(n) else Fails(LookupPathDoesNotMatchData)
  }

  lemma StepInto(d: Layout, path: Path, child: Layout)
    requires path != [] && LayMember(Target(d), path[0]) == Lands(child)
    requires FirstObstacle(d, path) == FirstObstacle(child, path[1..])
    requires Resolve(Erase(d), path) == Resolve(Erase(child), path[1..])
    requires (Conforms(d) ==> Conforms(child)) && Related(child, path[1..])
    ensures Related(d, path)
  {
    hide Erase, LayMember, Conforms;
    var rest := path[1..];
    assert LayGet(d, path) == LayGet(child, rest);
  }

  lemma NoStep(d: Layout, path: Path)
    requires path != [] && LayMember(Target(d), path[0]).Fails?
    requires match FirstObstacle(d, path)
             case Clear => Resolve(Erase(d), path) == Missing(LayMember(Target(d), path[0]).status)
             case BadKey => LayMember(Target(d), path[0]).status == InvalidData
             case PointerChain(_, _) => false
    ensures Related(d, path)
  {
    hide Erase, LayMember, Conforms;
  }

  lemma ConformingChild(d: Layout, i: nat)
    requires IsNode(Target(d)) && i < |Target(d).items|
    ensures Conforms(d) ==> Conforms(Target(d).items[i])
  {
    if Conforms(d) {
      assert Conforms(Target(d));
      ConformingItem(Target(d).items, i);
    }
  }

  lemma {:induction false} FlatPairs(items: seq<Layout>)
    requires FlatKeys(items)
    ensures |items| % 2 == 0
    decreases |items|
  {
    if items != [] {
      FlatPairs(items[2..]);
    }
  }

  lemma {:induction false} ThroughArray(d: Layout, path: Path)
    requires Tidy(d) && path != [] && !IsChain(d) && Target(d).ArrayOf?
    ensures Related(d, path)
    decreases |path|, 0
  {
    hide SkipMany, ReadIndex, Conforms, TidyAll, Related;
    var items := Target(d).items;
    EraseTarget(d);
    var index := ReadIndex(path[0]);
    if index.Index? && index.n < |items| {
      SkipToElement(items, index.n);
      TidyItem(items, index.n);
      LandsWhereResolved(items[index.n], path[1..]);
      ConformingChild(d, index.n);
      StepInto(d, path, items[index.n]);
    } else {
      NoStep(d, path);
    }
  }

  lemma {:induction false} ThroughMap(d: Layout, path: Path)
    requires Tidy(d) && path != [] && !IsChain(d) && Target(d).MapOf?
    ensures Related(d, path)
    decreases |path|, 0
  {
    hide LayFind, FirstKey, ScanKeys, FlatKeys, Conforms, TidyAll, Related;
    var items := Target(d).items;
    EraseTarget(d);
    FlatPairs(items);
    assert items[0..] == items;
    FindScans(items, 0, |items| / 2, path[0]);
    var scan := ScanKeys(items, path[0], 0);
    if scan.KeyAt? {
      TidyItem(items, scan.i + 1);
      LandsWhereResolved(items[scan.i + 1], path[1..]);
      ConformingChild(d, scan.i + 1);
      StepInto(d, path, items[scan.i + 1]);
    } else {
      NoStep(d, path);
    }
  }

  /** Without an obstacle lookup on a layout lands where lookup on its value does; at a pointer to a pointer the path
      ends, and a key that is no string is an error. */
  lemma {:induction false} LandsWhereResolved(d: Layout, path: Path)
    requires Tidy(d)
    ensures Related(d, path)
    decreases |path|, 1
  {
    hide Related, Tidy;
    if path == [] || IsChain(d) {
      AtOnce(d, path);
    } else if Target(d).ArrayOf? {
      ThroughArray(d, path);
    } else if Target(d).MapOf? {
      ThroughMap(d, path);
    } else {
      EraseTarget(d);
      NoStep(d, path);
    }
  }

  lemma AtOnce(d: Layout, path: Path)
    requires path == [] || IsChain(d)
    ensures Related(d, path)
  {
    hide Erase, Conforms;
  }

  // ----- lookup in bytes and lookup in values -----

  /** What the entry of a value says. */
  function ItemOf(v: Value): Item {
    match v
    case Leaf(s) => ScalarItem(s)
    case MapValue(items) => MapHead(|items| / 2)
    case ArrayValue(items) => ArrayHead(|items|)
  }

  /** The entry MMDB_aget_value hands out on success. */
  function GotEntry(mem: seq<byte>, at: nat, path: Path): Entry
    requires |mem| < U32_RANGE
  {
    FollowSpec(mem, GetSpec(mem, at, path).1, ZERO_ENTRY).1
  }

  /** MMDB_aget_value answers as lookup in the tree of values does: with its status, or with an entry that says what the
      value it finds is. */
  ghost predicate Answers(mem: seq<byte>, at: nat, path: Path, found: Found)
    requires |mem| < U32_RANGE
  {
    match found
    case Missing(status) => GetSpec(mem, at, path).0 == status
    case Here(v) => GetSpec(mem, at, path).0 == Success && Meaning(mem, GotEntry(mem, at, path)) == ItemOf(v)
  }

  /** The main result on lookup: on every section that holds a layout without container keys, MMDB_aget_value answers
      as lookup in the value exactly when the path meets neither a pointer to a pointer nor a key that is no string,
      or it does meet a pointer to a pointer, ends there in LookupPathDoesNotMatchData, and nothing behind it matches
      either. */
  lemma AnswersExactly(mem: seq<byte>, at: nat, d: Layout, path: Path)
    requires |mem| < U32_RANGE && WellFormed(mem, at, d) && Tidy(d)
    ensures Answers(mem, at, path, Resolve(Erase(d), path)) <==>
              match FirstObstacle(d, path)
              case Clear => true
              case BadKey => false
              case PointerChain(n, rest) => rest != [] && Resolve(Erase(n), rest) == Missing(LookupPathDoesNotMatchData)
  {
    hide DecodeSpec, FollowSpec, Head, Holds, WellFormed, Meaning, Erase, Tidy, GetSpec, LayGet, Conforms;
    LandsWhereResolved(d, path);
    var at' := LookupOnLayouts(mem, at, d, path);
    if LayGet(d, path).Lands? {
      LandedEntry(mem, at', LayGet(d, path).d);
    }
  }

  /** What decode_one_follow says of a field: what its value is, or that it is a pointer. */
  lemma LandedEntry(mem: seq<byte>, at: nat, d: Layout)
    requires |mem| < U32_RANGE && WellFormed(mem, at, d)
    ensures var e := FollowSpec(mem, at, ZERO_ENTRY).1;
            if IsChain(d) then e.typ == TYPE_POINTER && Meaning(mem, e) != ItemOf(Erase(d))
            else Meaning(mem, e) == ItemOf(Erase(d))
  {
    hide DecodeSpec, FollowSpec, Head, Holds;
    FollowLayout(mem, at, d);
    EraseTarget(d);
    if IsChain(d) {
      NotAPointer(mem, at, d);
    } else {
      HeadSays(Target(d));
    }
  }

  lemma HeadSays(d: Layout)
    requires !d.Ref?
    ensures HeadItem(d) == ItemOf(Erase(d))
  {
  }

  lemma {:induction false} NotAPointer(mem: seq<byte>, at: nat, d: Layout)
    requires WellFormed(mem, at, d)
    ensures ItemOf(Erase(d)) != ScalarItem(Opaque(TYPE_POINTER))
    decreases d
  {
    hide Head, Holds;
    if d.Ref? {
      NotAPointer(mem, d.base + SEPARATOR, d.target);
    }
  }

  /** Where a path meets a pointer to a pointer, lookup ends: with an entry that is a pointer, if the path ends there,
      and without a match otherwise.  At a key that is no string it reports invalid data. */
  lemma ObstaclesStopLookup(mem: seq<byte>, at: nat, d: Layout, path: Path)
    requires |mem| < U32_RANGE && WellFormed(mem, at, d) && Tidy(d)
    ensures match FirstObstacle(d, path)
            case Clear => true
            case BadKey => GetSpec(mem, at, path).0 == InvalidData
            case PointerChain(_, rest) =>
              if rest == [] then GetSpec(mem, at, path).0 == Success && GotEntry(mem, at, path).typ == TYPE_POINTER
              else GetSpec(mem, at, path).0 == LookupPathDoesNotMatchData
  {
    hide DecodeSpec, FollowSpec, Head, Holds, WellFormed, Meaning, Erase, Tidy, GetSpec, LayGet, Conforms;
    LandsWhereResolved(d, path);
    var at' := LookupOnLayouts(mem, at, d, path);
    if LayGet(d, path).Lands? {
      LandedEntry(mem, at', LayGet(d, path).d);
    }
  }

  // ----- conforming sections -----

  lemma {:induction false} ConformingIsTidy(mem: seq<byte>, at: nat, d: Layout)
    requires WellFormed(mem, at, d) && Conforms(d)
    ensures Tidy(d)
    decreases d
  {
    hide Head, Holds;
    match d
    case MapOf(items) =>
      ConformingIsTidyAll(mem, at + |Head(d)|, items);
      StringKeysAreFlat(items);
    case ArrayOf(items) =>
      ConformingIsTidyAll(mem, at + |Head(d)|, items);
    case Ref(_, _, base, target) =>
      ConformingIsTidy(mem, base + SEPARATOR, target);
    case _ =>
  }

  lemma {:induction false} ConformingIsTidyAll(mem: seq<byte>, at: nat, items: seq<Layout>)
    requires WellFormedItems(mem, at, items) && ConformsAll(items)
    ensures TidyAll(items)
    decreases items
  {
    hide Encode, Conforms;
    if items != [] {
      ConformingIsTidy(mem, at, items[0]);
      ConformingIsTidyAll(mem, at + |Encode(items[0])|, items[1..]);
    }
  }

  lemma {:induction false} StringKeysFound(items: seq<Layout>, key: seq<byte>, from: nat)
    requires KeysAreStrings(items) && from % 2 == 0
    ensures !ScanKeys(items, key, from).NoString?
    decreases |items| - from
  {
    if from + 1 < |items| {
      assert IsString(Target(items[from]));
      StringKeysFound(items, key, from + 2);
    }
  }

  /** No path meets an obstacle in a conforming layout. */
  lemma {:induction false} ConformingIsClear(d: Layout, path: Path)
    requires Conforms(d)
    ensures FirstObstacle(d, path) == Clear
    decreases |path|
  {
    hide ConformsAll, KeysAreStrings, ScanKeys, ReadIndex;
    if path != [] {
      match Target(d) {
        case ArrayOf(items) =>
          var index := ReadIndex(path[0]);
          if index.Index? && index.n < |items| {
            ConformingChild(d, index.n);
            ConformingIsClear(items[index.n], path[1..]);
          }
        case MapOf(items) =>
          ConformingKeys(d);
          StringKeysFound(items, path[0], 0);
          var scan := ScanKeys(items, path[0], 0);
          if scan.KeyAt? {
            ConformingChild(d, scan.i + 1);
            ConformingIsClear(items[scan.i + 1], path[1..]);
          }
        case _ =>
      }
    }
  }

  lemma ConformingKeys(d: Layout)
    requires Conforms(d) && Target(d).MapOf?
    ensures KeysAreStrings(Target(d).items)
  {
  }

  /** On a conforming section MMDB_aget_value succeeds exactly when the path names a node of the value, fails with that
      node's status otherwise, and reaches a layout of that very node. */
  lemma PathLookup(mem: seq<byte>, at: nat, d: Layout, path: Path) returns (at': nat, d': Layout)
    requires |mem| < U32_RANGE && WellFormed(mem, at, d) && Conforms(d)
    ensures match Resolve(Erase(d), path)
            case Missing(status) => GetSpec(mem, at, path).0 == status
            case Here(v) =>
              && GetSpec(mem, at, path) == (Success, at') && (0 < at ==> 0 < at')
              && WellFormed(mem, at', d') && Conforms(d') && Erase(d') == v
  {
    hide WellFormed, Erase, Tidy, GetSpec, LayGet;
    ConformingIsTidy(mem, at, d);
    ConformingIsClear(d, path);
    LandsWhereResolved(d, path);
    at' := LookupOnLayouts(mem, at, d, path);
    d' := if LayGet(d, path).Lands? then LayGet(d, path).d else d;
  }

  /** What a caller of MMDB_aget_value reads in the struct it gets back, whatever members its last decode left stale. */
  lemma LookupReadsValue(mem: seq<byte>, at: nat, d: Layout, path: Path, view: Entry)
    requires |mem| < U32_RANGE && WellFormed(mem, at, d) && Conforms(d)
    ensures Settled(view) == Settled(GotEntry(mem, at, path)) && Resolve(Erase(d), path).Here? ==>
              Meaning(mem, view) == ItemOf(Resolve(Erase(d), path).v)
  {
    hide WellFormed, Erase, Tidy, GetSpec, Meaning, FollowSpec;
    ConformingIsTidy(mem, at, d);
    ConformingIsClear(d, path);
    AnswersExactly(mem, at, d, path);
    if Settled(view) == Settled(GotEntry(mem, at, path)) {
      MeaningIsSettled(mem, view, GotEntry(mem, at, path));
    }
  }
}
