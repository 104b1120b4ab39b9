/**
  dump_entry_data_list consumes a list in preorder.  The printed text is modelled as structured tokens.
 */
module Dump {
  import opened Bytes
  import opened Decode
  import opened Layout
  import opened Flatten
  import opened EntryList

  datatype Token =
    | OpenMap
    | CloseMap
    | OpenArray
    | CloseArray
    | Key(text: seq<byte>)
    | Printed(s: Scalar)

  /** mmdb_strndup followed by %s: a string ends at its first NUL byte. */
  function CString(text: seq<byte>): (s: seq<byte>)
    ensures s <= text && 0 !in s && (|s| < |text| ==> text[|s|] == 0)
    ensures s == text <==> 0 !in text
  {
    if text == [] || text[0] == 0 then [] else [text[0]] + CString(text[1..])
  }

  function Shown(s: Scalar): Scalar {
    if s.Str? then Str(CString(s.text)) else s
  }

  // ----- dumping a sequence of items -----

  /** The outcome of a dump: status, tokens written, and the items not consumed. */
  datatype Dumped = Dumped(status: Status, tokens: seq<Token>, rest: seq<Item>)

  function Prefixed(tokens: seq<Token>, r: Dumped): Dumped {
    r.(tokens := tokens + r.tokens)
  }

  function Closed(token: Token, r: Dumped): Dumped {
    if r.status == Success then r.(tokens := r.tokens + [token]) else r
  }

  function DumpItems(items: seq<Item>): (r: Dumped)
    ensures r.status == Success ==> |r.rest| < |items|
    decreases |items|, 0
  {
    if items == [] then Dumped(Undefined, [], [])
    else
      match items[0]
      case MapHead(n) => Prefixed([OpenMap], Closed(CloseMap, DumpPairs(items[1..], n)))
      case ArrayHead(n) => Prefixed([OpenArray], Closed(CloseArray, DumpElements(items[1..], n)))
      case ScalarItem(s) =>
        if s.Opaque? then Dumped(InvalidData, [], []) else Dumped(Success, [Printed(Shown(s))], items[1..])
      case Unreadable => Dumped(Undefined, [], [])
  }

  /** The loops stop when the size is used up or the list ends. */
  function DumpPairs(items: seq<Item>, size: nat): (r: Dumped)
    ensures r.status == Success ==> |r.rest| <= |items|
    decreases |items|, 1
  {
    if size == 0 || items == [] then Dumped(Success, [], items)
    else if !(items[0].ScalarItem? && items[0].s.Str?) then Dumped(Undefined, [], [])
    else
      var key := [Key(CString(items[0].s.text))];
      var r := DumpItems(items[1..]);
      if r.status != Success then Prefixed(key, r)
      else Prefixed(key + r.tokens, DumpPairs(r.rest, size - 1))
  }

  function DumpElements(items: seq<Item>, size: nat): (r: Dumped)
    ensures r.status == Success ==> |r.rest| <= |items|
    decreases |items|, 1
  {
    if size == 0 || items == [] then Dumped(Success, [], items)
    else
      var r := DumpItems(items);
      if r.status != Success then r else Prefixed(r.tokens, DumpElements(r.rest, size - 1))
  }

  // ----- the tokens of a value, and the value back from its tokens -----

  /** Maps have string keys, and nothing is of a type the dump does not know. */
  predicate Printable(v: Value)
    decreases v
  {
    match v
    case Leaf(s) => !s.Opaque?
    case ArrayValue(items) => PrintableAll(items)
    case MapValue(items) => PrintablePairs(items)
  }

  predicate PrintablePairs(vs: seq<Value>)
    decreases vs
  {
    vs == [] || (|vs| >= 2 && IsText(vs[0]) && Printable(vs[1]) && PrintablePairs(vs[2..]))
  }

  predicate PrintableAll(vs: seq<Value>)
    decreases vs
  {
    vs == [] || (Printable(vs[0]) && PrintableAll(vs[1..]))
  }

  predicate IsText(v: Value) {
    v.Leaf? && v.s.Str?
  }

  function Tokens(v: Value): (ts: seq<Token>)
    requires Printable(v)
    ensures ts != [] && ts[0] != CloseArray && ts[0] != CloseMap && !ts[0].Key?
    decreases v
  {
    match v
    case Leaf(s) => [Printed(Shown(s))]
    case ArrayValue(items) => [OpenArray] + ElementTokens(items) + [CloseArray]
    case MapValue(items) => [OpenMap] + PairTokens(items) + [CloseMap]
  }

  function ElementTokens(vs: seq<Value>): seq<Token>
    requires PrintableAll(vs)
    decreases vs
  {
    if vs == [] then [] else Tokens(vs[0]) + ElementTokens(vs[1..])
  }

  function PairTokens(vs: seq<Value>): seq<Token>
    requires PrintablePairs(vs)
    decreases vs
  {
    if vs == [] then [] else [Key(CString(vs[0].s.text))] + Tokens(vs[1]) + PairTokens(vs[2..])
  }

  datatype Reading = NoValue | Reading(v: Value, rest: seq<Token>)
  datatype Readings = NoValues | Readings(vs: seq<Value>, rest: seq<Token>)

  /** Reads one value back from the front of a token sequence. */
  function Read(ts: seq<Token>): (r: Reading)
    ensures r.Reading? ==> |r.rest| < |ts|
    decreases |ts|, 0
  {
    if ts == [] then NoValue
    else
      match ts[0]
      case Printed(s) => Reading(Leaf(s), ts[1..])
      case OpenArray =>
        var r := ReadElements(ts[1..]);
        if r.NoValues? then NoValue else Reading(ArrayValue(r.vs), r.rest)
      case OpenMap =>
        var r := ReadPairs(ts[1..]);
        if r.NoValues? then NoValue else Reading(MapValue(r.vs), r.rest)
      case _ => NoValue
  }

  function ReadElements(ts: seq<Token>): (r: Readings)
    ensures r.Readings? ==> |r.rest| < |ts|
    decreases |ts|, 1
  {
    if ts == [] then NoValues
    else if ts[0] == CloseArray then Readings([], ts[1..])
    else
      var first := Read(ts);
      if first.NoValue? then NoValues
      else
        var r := ReadElements(first.rest);
        if r.NoValues? then r else Readings([first.v] + r.vs, r.rest)
  }

  function ReadPairs(ts: seq<Token>): (r: Readings)
    ensures r.Readings? ==> |r.rest| < |ts|
    decreases |ts|, 1
  {
    if ts == [] then NoValues
    else if ts[0] == CloseMap then Readings([], ts[1..])
    else if !ts[0].Key? then NoValues
    else
      var first := Read(ts[1..]);
      if first.NoValue? then NoValues
      else
        var r := ReadPairs(first.rest);
        if r.NoValues? then r else Readings([Leaf(Str(ts[0].text)), first.v] + r.vs, r.rest)
  }

  /** A value with every string cut at its first NUL byte. */
  function Cut(v: Value): Value
    decreases v
  {
    match v
    case Leaf(s) => Leaf(Shown(s))
    case ArrayValue(items) => ArrayValue(CutAll(items))
    case MapValue(items) => MapValue(CutAll(items))
  }

  function CutAll(vs: seq<Value>): (cut: seq<Value>)
    ensures |cut| == |vs|
    decreases vs
  {
    if vs == [] then [] else [Cut(vs[0])] + CutAll(vs[1..])
  }

  predicate NulFree(v: Value)
    decreases v
  {
    match v
    case Leaf(s) => s.Str? ==> 0 !in s.text
    case ArrayValue(items) => NulFreeAll(items)
    case MapValue(items) => NulFreeAll(items)
  }

  predicate NulFreeAll(vs: seq<Value>)
    decreases vs
  {
    vs == [] || (NulFree(vs[0]) && NulFreeAll(vs[1..]))
  }

  lemma {:induction false} CutIsIdentity(v: Value)
    ensures Cut(v) == v <==> NulFree(v)
    decreases v
  {
    if !v.Leaf? {
      CutAllIsIdentity(v.items);
    }
  }

  lemma {:induction false} CutAllIsIdentity(vs: seq<Value>)
    ensures CutAll(vs) == vs <==> NulFreeAll(vs)
    decreases vs
  {
    hide Shown;
    if vs != [] {
      CutIsIdentity(vs[0]);
      CutAllIsIdentity(vs[1..]);
      assert CutAll(vs)[0] == Cut(vs[0]) && CutAll(vs)[1..] == CutAll(vs[1..]);
      assert vs == [vs[0]] + vs[1..];
    }
  }

  // ----- dump consumes exactly one value -----

  /** On a list that is the preorder of `v` followed by anything, the dump writes the tokens of `v` and returns the
      first node of the rest. */
  lemma {:induction false} DumpConsumesOne(v: Value, rest: seq<Item>)
    requires Printable(v)
    ensures DumpItems(Preorder(v) + rest) == Dumped(Success, Tokens(v), rest)
    decreases v
  {
    hide DumpItems, DumpPairs, DumpElements, PreorderAll, ElementTokens, PairTokens, Shown;
    var items := Preorder(v) + rest;
    assert items[0..] == items;
    ItemAt(items, 0);
    match v
    case Leaf(s) => assert items[1..] == rest;
    case ArrayValue(vs) =>
      assert items[1..] == PreorderAll(vs) + rest;
      DumpConsumesElements(vs, rest);
    case MapValue(vs) =>
      assert items[1..] == PreorderAll(vs) + rest;
      PairsAreEven(vs);
      DumpConsumesPairs(vs, |vs| / 2, rest);
  }

  lemma {:induction false} DumpConsumesElements(vs: seq<Value>, rest: seq<Item>)
    requires PrintableAll(vs)
    ensures DumpElements(PreorderAll(vs) + rest, |vs|) == Dumped(Success, ElementTokens(vs), rest)
    decreases vs
  {
    if vs != [] {
      var more := PreorderAll(vs[1..]) + rest;
      assert PreorderAll(vs) + rest == Preorder(vs[0]) + more;
      DumpConsumesOne(vs[0], more);
      DumpConsumesElements(vs[1..], rest);
    }
  }

  lemma FirstPair(vs: seq<Value>)
    requires |vs| >= 2 && vs[0].Leaf?
    ensures PreorderAll(vs) == [ScalarItem(vs[0].s)] + (Preorder(vs[1]) + PreorderAll(vs[2..]))
  {
    assert vs[1..][0] == vs[1] && vs[1..][1..] == vs[2..];
  }

  lemma {:induction false} DumpConsumesPairs(vs: seq<Value>, pairs: nat, rest: seq<Item>)
    requires PrintablePairs(vs) && |vs| == 2 * pairs
    ensures DumpPairs(PreorderAll(vs) + rest, pairs) == Dumped(Success, PairTokens(vs), rest)
    decreases vs
  {
    hide DumpItems, DumpPairs, Preorder, PreorderAll, Tokens, CString;
    if pairs == 0 {
      NothingToDump(rest);
    } else {
      var more := PreorderAll(vs[2..]) + rest;
      DumpConsumesOne(vs[1], more);
      DumpConsumesPairs(vs[2..], pairs - 1, rest);
      FirstPair(vs);
      var tail := Preorder(vs[1]) + more;
      assert PreorderAll(vs) + rest == [ScalarItem(Str(vs[0].s.text))] + tail;
      OnePair(vs[0].s.text, tail, Tokens(vs[1]), more, pairs - 1, PairTokens(vs[2..]), rest);
    }
  }

  lemma NothingToDump(rest: seq<Item>)
    ensures DumpPairs(PreorderAll([]) + rest, 0) == Dumped(Success, [], rest)
  {
    assert PreorderAll([]) + rest == rest;
  }

  lemma {:induction false} PairsAreEven(vs: seq<Value>)
    requires PrintablePairs(vs)
    ensures |vs| % 2 == 0
    decreases vs
  {
    if vs != [] {
      PairsAreEven(vs[2..]);
    }
  }

  /** One pair in front of dumped pairs. */
  lemma OnePair(text: seq<byte>, tail: seq<Item>, ts: seq<Token>, more: seq<Item>, n: nat, ts': seq<Token>,
                rest: seq<Item>)
    requires DumpItems(tail) == Dumped(Success, ts, more)
    requires DumpPairs(more, n) == Dumped(Success, ts', rest)
    ensures DumpPairs([ScalarItem(Str(text))] + tail, n + 1) == Dumped(Success, [Key(CString(text))] + ts + ts', rest)
  {
    hide DumpItems, CString;
    var items := [ScalarItem(Str(text))] + tail;
    assert items[1..] == tail;
  }

  /** A value of a type the dump does not know is an error, and nothing is closed after it. */
  lemma DumpOfUnknown(typ: nat, rest: seq<Item>)
    ensures DumpItems([ScalarItem(Opaque(typ))] + rest) == Dumped(InvalidData, [], [])
    ensures DumpItems([ArrayHead(1), ScalarItem(Opaque(typ))] + rest) == Dumped(InvalidData, [OpenArray], [])
  {
    var item, items := ScalarItem(Opaque(typ)), [ArrayHead(1), ScalarItem(Opaque(typ))] + rest;
    assert items[1..] == [item] + rest;
    assert DumpItems([item] + rest) == Dumped(InvalidData, [], []);
    assert DumpElements([item] + rest, 1) == Dumped(InvalidData, [], []);
  }

  /** A list that ends before its containers are full is no error: they are closed where it ends. */
  lemma DumpOfShortList(size: nat, s: Scalar)
    requires size > 0 && !s.Opaque?
    ensures DumpItems([ArrayHead(size)]) == Dumped(Success, [OpenArray, CloseArray], [])
    ensures DumpItems([MapHead(size)]) == Dumped(Success, [OpenMap, CloseMap], [])
    ensures DumpItems([ArrayHead(size), ScalarItem(s)]) ==
              Dumped(Success, [OpenArray, Printed(Shown(s)), CloseArray], [])
  {
    hide Shown;
    assert [ArrayHead(size)][1..] == [] && [MapHead(size)][1..] == [];
    var item := ScalarItem(s);
    assert [ArrayHead(size), item][1..] == [item] && [item][1..] == [];
    assert DumpItems([item]) == Dumped(Success, [Printed(Shown(s))], []);
    NoElements([], size - 1);
    assert DumpElements([item], size) == Dumped(Success, [Printed(Shown(s))], []);
  }

  // ----- the tokens rebuild the value -----

  lemma {:induction false} ReadsBack(v: Value, rest: seq<Token>)
    requires Printable(v)
    ensures Read(Tokens(v) + rest) == Reading(Cut(v), rest)
    decreases v
  {
    var ts := Tokens(v) + rest;
    match v
    case Leaf(s) => assert ts[1..] == rest;
    case ArrayValue(vs) =>
      assert ts[1..] == ElementTokens(vs) + ([CloseArray] + rest);
      ReadsElementsBack(vs, rest);
    case MapValue(vs) =>
      assert ts[1..] == PairTokens(vs) + ([CloseMap] + rest);
      ReadsPairsBack(vs, rest);
  }

  lemma {:induction false} ReadsElementsBack(vs: seq<Value>, rest: seq<Token>)
    requires PrintableAll(vs)
    ensures ReadElements(ElementTokens(vs) + ([CloseArray] + rest)) == Readings(CutAll(vs), rest)
    decreases vs
  {
    var ts := ElementTokens(vs) + ([CloseArray] + rest);
    if vs == [] {
      assert ts[1..] == rest;
    } else {
      var more := ElementTokens(vs[1..]) + ([CloseArray] + rest);
      assert ts == Tokens(vs[0]) + more;
      ReadsBack(vs[0], more);
      ReadsElementsBack(vs[1..], rest);
    }
  }

  lemma {:induction false} ReadsPairsBack(vs: seq<Value>, rest: seq<Token>)
    requires PrintablePairs(vs)
    ensures ReadPairs(PairTokens(vs) + ([CloseMap] + rest)) == Readings(CutAll(vs), rest)
    decreases vs
  {
    var ts := PairTokens(vs) + ([CloseMap] + rest);
    if vs == [] {
      assert ts[1..] == rest;
    } else {
      var more := PairTokens(vs[2..]) + ([CloseMap] + rest);
      assert ts[1..] == Tokens(vs[1]) + more;
      ReadsBack(vs[1], more);
      ReadsPairsBack(vs[2..], rest);
      assert vs[1..][0] == vs[1] && vs[1..][1..] == vs[2..];
      assert CutAll(vs) == [Cut(vs[0])] + ([Cut(vs[1])] + CutAll(vs[2..]));
    }
  }

  /** Flatten and unflatten undo each other: what the dump of a flattened value writes reads back as that value exactly
      when no string in it contains a NUL byte. */
  lemma DumpRebuilds(v: Value)
    requires Printable(v)
    ensures DumpItems(Preorder(v)).status == Success && DumpItems(Preorder(v)).rest == []
    ensures Read(DumpItems(Preorder(v)).tokens) == Reading(v, []) <==> NulFree(v)
  {
    DumpConsumesOne(v, []);
    assert Preorder(v) + [] == Preorder(v) && Tokens(v) + [] == Tokens(v);
    ReadsBack(v, []);
    CutIsIdentity(v);
  }

  // ----- the method -----

  class Stream {
    var tokens: seq<Token>

    method Put(token: Token)
      modifies this
      ensures tokens == old(tokens) + [token]
    {
      tokens := tokens + [token];
    }
  }

  /** The node at position k of a list, null at its end. */
  ghost predicate IsAt(node: ListNode?, nodes: seq<ListNode>, k: nat) {
    k <= |nodes| && if k == |nodes| then node == null else node == nodes[k]
  }

  lemma NextIsAt(nodes: seq<ListNode>, k: nat)
    requires Chain(nodes) && k < |nodes|
    ensures IsAt(nodes[k].next, nodes, k + 1)
  {
  }

  /** DumpItems by its first item. */
  lemma ItemAt(items: seq<Item>, k: nat)
    requires k < |items|
    ensures DumpItems(items[k..]) ==
              match items[k]
              case MapHead(n) => Prefixed([OpenMap], Closed(CloseMap, DumpPairs(items[k + 1..], n)))
              case ArrayHead(n) => Prefixed([OpenArray], Closed(CloseArray, DumpElements(items[k + 1..], n)))
              case ScalarItem(s) =>
                if s.Opaque? then Dumped(InvalidData, [], [])
                else Dumped(Success, [Printed(Shown(s))], items[k + 1..])
              case Unreadable => Dumped(Undefined, [], [])
  {
    assert items[k..][1..] == items[k + 1..];
  }

  /** The dump of a key and its value. */
  ghost function DumpPair(items: seq<Item>): Dumped
    requires items != []
  {
    if !(items[0].ScalarItem? && items[0].s.Str?) then Dumped(Undefined, [], [])
    else Prefixed([Key(CString(items[0].s.text))], DumpItems(items[1..]))
  }

  /** DumpPairs by its first pair. */
  lemma PairAt(items: seq<Item>, size: nat)
    requires items != [] && size > 0
    ensures var r := DumpPair(items);
            DumpPairs(items, size) ==
              if r.status != Success then r else Prefixed(r.tokens, DumpPairs(r.rest, size - 1))
  {
    hide DumpItems;
  }

  /** dump_entry_data_list from position k of the list; `items` is what the nodes say. */
  method DumpEntryDataList(mem: seq<byte>, list: ListNode, out: Stream,
                           ghost nodes: seq<ListNode>, ghost entries: seq<Entry>, ghost k: nat)
    returns (status: Status, rest: ListNode?)
    requires Chain(nodes) && Shows(nodes, entries) && k < |nodes| && list == nodes[k]
    modifies out
    ensures var spec := DumpItems(Meanings(mem, entries)[k..]);
            && status == spec.status && out.tokens == old(out.tokens) + spec.tokens
            && (status == Success ==> |spec.rest| <= |nodes| && IsAt(rest, nodes, |nodes| - |spec.rest|))
    decreases |nodes| - k, 0
  {
    hide DumpItems, DumpPairs, DumpElements, Chain, Meaning, CString;
    ghost var items := Meanings(mem, entries);
    NextIsAt(nodes, k);
    ItemAt(items, k);
    var item := Meaning(mem, list.entryData.View());
    assert item == items[k];
    match item {
      case MapHead(n) =>
        out.Put(OpenMap);
        status, rest := DumpMapBody(mem, list.next, n, out, nodes, entries, k + 1);
        if status == Success {
          out.Put(CloseMap);
        }
      case ArrayHead(n) =>
        out.Put(OpenArray);
        status, rest := DumpArrayBody(mem, list.next, n, out, nodes, entries, k + 1);
        if status == Success {
          out.Put(CloseArray);
        }
      case ScalarItem(s) =>
        if s.Opaque? {
          return InvalidData, null;
        }
        out.Put(Printed(Shown(s)));
        return Success, list.next;
      case Unreadable =>
        return Undefined, null;
    }
  }

  ghost predicate IsSuffix<T>(rest: seq<T>, items: seq<T>) {
    |rest| <= |items| && rest == items[|items| - |rest|..]
  }

  lemma SuffixOfSuffix<T>(rest: seq<T>, items: seq<T>, k: nat)
    requires k <= |items| && IsSuffix(rest, items[k..])
    ensures IsSuffix(rest, items)
  {
  }

  lemma SuffixTransitive<T>(a: seq<T>, b: seq<T>, c: seq<T>)
    requires IsSuffix(a, b) && IsSuffix(b, c)
    ensures IsSuffix(a, c)
  {
  }

  /** A dump leaves a suffix of its input. */
  lemma {:induction false} DumpLeavesSuffix(items: seq<Item>)
    requires DumpItems(items).status == Success
    ensures IsSuffix(DumpItems(items).rest, items)
    decreases |items|, 0
  {
    match items[0]
    case MapHead(n) =>
      PairsLeaveSuffix(items[1..], n);
      SuffixOfSuffix(DumpItems(items).rest, items, 1);
    case ArrayHead(n) =>
      ElementsLeaveSuffix(items[1..], n);
      SuffixOfSuffix(DumpItems(items).rest, items, 1);
    case ScalarItem(s) =>
  }

  lemma {:induction false} PairsLeaveSuffix(items: seq<Item>, size: nat)
    requires DumpPairs(items, size).status == Success
    ensures IsSuffix(DumpPairs(items, size).rest, items)
    decreases |items|, 1
  {
    hide IsSuffix;
    if size == 0 || items == [] {
      AllOfIt(items);
    } else {
      var r := DumpItems(items[1..]);
      DumpLeavesSuffix(items[1..]);
      SuffixOfSuffix(r.rest, items, 1);
      PairsLeaveSuffix(r.rest, size - 1);
      SuffixTransitive(DumpPairs(r.rest, size - 1).rest, r.rest, items);
    }
  }

  lemma AllOfIt<T>(items: seq<T>)
    ensures IsSuffix(items, items)
  {
  }

  lemma {:induction false} ElementsLeaveSuffix(items: seq<Item>, size: nat)
    requires DumpElements(items, size).status == Success
    ensures IsSuffix(DumpElements(items, size).rest, items)
    decreases |items|, 1
  {
    hide IsSuffix;
    if size == 0 || items == [] {
      AllOfIt(items);
    } else {
      var r := DumpItems(items);
      DumpLeavesSuffix(items);
      ElementsLeaveSuffix(r.rest, size - 1);
      SuffixTransitive(DumpElements(r.rest, size - 1).rest, r.rest, items);
    }
  }

  /** Where the dump of the items from position j on leaves off. */
  lemma RestOf(items: seq<Item>, j: nat)
    requires j <= |items| && DumpItems(items[j..]).status == Success
    ensures var r := DumpItems(items[j..]); |r.rest| < |items| - j && r.rest == items[|items| - |r.rest|..]
  {
    hide DumpItems;
    DumpLeavesSuffix(items[j..]);
    SuffixOfSuffix(DumpItems(items[j..]).rest, items, j);
  }

  lemma RestOfPair(items: seq<Item>, j: nat)
    requires j < |items| && DumpPair(items[j..]).status == Success
    ensures var r := DumpPair(items[j..]); |r.rest| < |items| - j && r.rest == items[|items| - |r.rest|..]
  {
    hide DumpItems;
    assert items[j..][1..] == items[j + 1..];
    RestOf(items, j + 1);
  }

  lemma PrefixedTwice(a: seq<Token>, b: seq<Token>, r: Dumped)
    ensures Prefixed(a, Prefixed(b, r)) == Prefixed(a + b, r)
  {
  }

  lemma ShowsAsMany(nodes: seq<ListNode>, entries: seq<Entry>)
    requires Shows(nodes, entries)
    ensures |nodes| == |entries|
  {
  }

  /** One turn of the loop over a map: the key is printed, the next node is dumped. */
  method DumpOnePair(mem: seq<byte>, first: ListNode, out: Stream,
                     ghost nodes: seq<ListNode>, ghost entries: seq<Entry>, ghost k: nat)
    returns (status: Status, rest: ListNode?)
    requires Chain(nodes) && Shows(nodes, entries) && k < |nodes| && first == nodes[k]
    modifies out
    ensures var spec := DumpPair(Meanings(mem, entries)[k..]);
            && status == spec.status && out.tokens == old(out.tokens) + spec.tokens
            && (status == Success ==> |spec.rest| <= |nodes| && IsAt(rest, nodes, |nodes| - |spec.rest|))
    decreases |nodes| - k, 1
  {
    hide DumpItems, Chain, Meaning, CString;
    ghost var items := Meanings(mem, entries);
    NextIsAt(nodes, k);
    var key := Meaning(mem, first.entryData.View());
    assert key == items[k] == items[k..][0];
    assert items[k..][1..] == items[k + 1..];
    if !(key.ScalarItem? && key.s.Str?) {
      return Undefined, null;
    }
    out.Put(Key(CString(key.s.text)));
    if first.next == null {
      NothingLeft(items, k + 1);
      return Undefined, null;
    }
    status, rest := DumpEntryDataList(mem, first.next, out, nodes, entries, k + 1);
    if status != Success {
      rest := null;
    }
  }

  method DumpMapBody(mem: seq<byte>, first: ListNode?, size: nat, out: Stream,
                     ghost nodes: seq<ListNode>, ghost entries: seq<Entry>, ghost k: nat)
    returns (status: Status, rest: ListNode?)
    requires Chain(nodes) && Shows(nodes, entries) && IsAt(first, nodes, k)
    modifies out
    ensures var spec := DumpPairs(Meanings(mem, entries)[k..], size);
            && status == spec.status && out.tokens == old(out.tokens) + spec.tokens
            && (status == Success ==> |spec.rest| <= |nodes| && IsAt(rest, nodes, |nodes| - |spec.rest|))
    decreases |nodes| - k, 2
  {
    hide DumpItems, DumpElements, DumpPair, DumpPairs, CString, Closed, Chain, Shows, Meaning, Meanings;
    ghost var items := Meanings(mem, entries);
    ShowsAsMany(nodes, entries);
    ghost var spec := DumpPairs(items[k..], size);
    ghost var done: seq<Token> := [];
    ghost var j := k;
    var left := size;
    rest := first;
    while left > 0 && rest != null
      invariant k <= j && IsAt(rest, nodes, j) && |items| == |nodes|
      invariant out.tokens == old(out.tokens) + done
      invariant spec == Prefixed(done, DumpPairs(items[j..], left))
      decreases left
    {
      PairAt(items[j..], left);
      ghost var r := DumpPair(items[j..]);
      status, rest := DumpOnePair(mem, rest, out, nodes, entries, j);
      if status != Success {
        return status, null;
      }
      RestOfPair(items, j);
      PrefixedTwice(done, r.tokens, DumpPairs(r.rest, left - 1));
      done := done + r.tokens;
      j := |items| - |r.rest|;
      left := left - 1;
    }
    NoPairs(items[j..], left);
    return Success, rest;
  }

  lemma NoPairs(items: seq<Item>, size: nat)
    requires size == 0 || items == []
    ensures DumpPairs(items, size) == Dumped(Success, [], items)
  {
  }

  lemma NothingLeft(items: seq<Item>, j: nat)
    requires j == |items|
    ensures DumpItems(items[j..]) == Dumped(Undefined, [], [])
  {
  }

  lemma ElementAt(items: seq<Item>, size: nat)
    requires items != [] && size > 0
    ensures var r := DumpItems(items);
            DumpElements(items, size) ==
              if r.status != Success then r else Prefixed(r.tokens, DumpElements(r.rest, size - 1))
  {
  }

  lemma NoElements(items: seq<Item>, size: nat)
    requires size == 0 || items == []
    ensures DumpElements(items, size) == Dumped(Success, [], items)
  {
  }

  method DumpArrayBody(mem: seq<byte>, first: ListNode?, size: nat, out: Stream,
                       ghost nodes: seq<ListNode>, ghost entries: seq<Entry>, ghost k: nat)
    returns (status: Status, rest: ListNode?)
    requires Chain(nodes) && Shows(nodes, entries) && IsAt(first, nodes, k)
    modifies out
    ensures var spec := DumpElements(Meanings(mem, entries)[k..], size);
            && status == spec.status && out.tokens == old(out.tokens) + spec.tokens
            && (status == Success ==> |spec.rest| <= |nodes| && IsAt(rest, nodes, |nodes| - |spec.rest|))
    decreases |nodes| - k, 1
  {
    hide DumpItems, DumpElements, DumpPairs, CString, Closed, Chain, Shows, Meaning, Meanings;
    ghost var items := Meanings(mem, entries);
    ShowsAsMany(nodes, entries);
    ghost var spec := DumpElements(items[k..], size);
    ghost var done: seq<Token> := [];
    ghost var j := k;
    var left := size;
    rest := first;
    while left > 0 && rest != null
      invariant k <= j && IsAt(rest, nodes, j) && |items| == |nodes|
      invariant out.tokens == old(out.tokens) + done
      invariant spec == Prefixed(done, DumpElements(items[j..], left))
      decreases left
    {
      ElementAt(items[j..], left);
      ghost var r := DumpItems(items[j..]);
      status, rest := DumpEntryDataList(mem, rest, out, nodes, entries, j);
      if status != Success {
        return status, null;
      }
      RestOf(items, j);
      PrefixedTwice(done, r.tokens, DumpElements(r.rest, left - 1));
      done := done + r.tokens;
      j := |items| - |r.rest|;
      left := left - 1;
    }
    NoElements(items[j..], left);
    return Success, rest;
  }
}
