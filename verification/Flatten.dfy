/**
  Flattening as a function of the section: what get_entry_data_list builds when memory does not run out, as a sequence
  of entries, and the theorem that this is the preorder of the value.
 */
module Flatten {
  import opened Bytes
  import opened Decode
  import opened Layout

  // ----- what the list says -----

  /** A value in preorder: every container announces its size, then its items follow. */
  function Preorder(v: Value): (items: seq<Item>)
    ensures items != []
    decreases v
  {
    match v
    case Leaf(s) => [ScalarItem(s)]
    case MapValue(items) => [MapHead(|items| / 2)] + PreorderAll(items)
    case ArrayValue(items) => [ArrayHead(|items|)] + PreorderAll(items)
  }

  function PreorderAll(vs: seq<Value>): seq<Item>
    decreases vs
  {
    if vs == [] then [] else Preorder(vs[0]) + PreorderAll(vs[1..])
  }

  function Meanings(mem: seq<byte>, entries: seq<Entry>): (items: seq<Item>)
    ensures |items| == |entries|
  {
    seq(|entries|, i requires 0 <= i < |entries| => Meaning(mem, entries[i]))
  }

  // ----- get_entry_data_list on values -----

  /** The outcome of flattening: the entries of the nodes built, in list order, and the offset after the field.
      `Unfinished` says that the traversal did not come to an end within the given number of nested steps. */
  datatype Flat = Unfinished | Ended(status: Status, entries: seq<Entry>, next: nat)

  /** The end of a chain of pointers: the last field decoded, where it lies, and the steps left. */
  datatype Chased = StillChasing | Chased(status: Status, e: Entry, last: nat, left: nat)

  /** The loop that follows a chain of pointers, however long. */
  function Chase(mem: seq<byte>, e: Entry, last: nat, fuel: nat): (r: Chased)
    requires e.typ == TYPE_POINTER ==> e.datum.Pointer?
    ensures r.Chased? ==> r.left <= fuel && r.status != OutOfMemory
    ensures r.Chased? && r.status == Success ==> r.e.typ != TYPE_POINTER
    decreases fuel
  {
    if e.typ != TYPE_POINTER then Chased(Success, e, last, fuel)
    else if fuel == 0 then StillChasing
    else
      var (status, e') := DecodeSpec(mem, e.datum.target, e);
      if status != Success then Chased(status, e', e.datum.target, fuel - 1)
      else Chase(mem, e', e.datum.target, fuel - 1)
  }

  function WithNext(r: Flat, next: nat): Flat {
    if r.Ended? && r.status == Success && r.entries != []
    then Ended(Success, [r.entries[0].(offsetToNext := next)] + r.entries[1..], next)
    else r
  }

  function Prepend(entries: seq<Entry>, r: Flat): Flat {
    if r.Unfinished? then r else r.(entries := entries + r.entries)
  }

  function ItemCount(e: Entry): nat {
    if e.typ == TYPE_MAP then 2 * e.dataSize else e.dataSize
  }

  function FlatField(mem: seq<byte>, at: nat, before: Entry, fuel: nat): (r: Flat)
    ensures r.Ended? ==> r.entries != []
    ensures r.Ended? && r.status == Success ==> r.entries[0].offsetToNext == r.next
    decreases fuel, 0
  {
    if fuel == 0 then Unfinished
    else
      var (status, e) := DecodeSpec(mem, at, before);
      if status != Success then Ended(status, [e], 0)
      else if e.typ == TYPE_POINTER then FlatPointer(mem, e, fuel - 1)
      else if IsContainer(e.typ) then
        var r := Prepend([e], FlatItems(mem, e.offsetToNext, ItemCount(e), fuel - 1));
        if r.Ended? then WithNext(r, r.next) else r
      else Ended(Success, [e], e.offsetToNext)
  }

  function FlatPointer(mem: seq<byte>, e: Entry, fuel: nat): (r: Flat)
    requires e.typ == TYPE_POINTER && e.datum.Pointer?
    ensures r.Ended? ==> r.entries != []
    ensures r.Ended? && r.status == Success ==> r.entries[0].offsetToNext == r.next
    decreases fuel, 1
  {
    var c := Chase(mem, e, 0, fuel);
    if c.StillChasing? then Unfinished
    else if c.status != Success then Ended(c.status, [c.e], 0)
    else if IsContainer(c.e.typ) then WithNext(FlatField(mem, c.last, c.e, c.left), e.offsetToNext)
    else Ended(Success, [c.e.(offsetToNext := e.offsetToNext)], e.offsetToNext)
  }

  function FlatItems(mem: seq<byte>, at: nat, count: nat, fuel: nat): Flat
    decreases fuel, 1, count
  {
    if count == 0 then Ended(Success, [], at)
    else
      var r := FlatField(mem, at, ZERO_ENTRY, fuel);
      if r.Unfinished? || r.status != Success then r
      else Prepend(r.entries, FlatItems(mem, r.next, count - 1, fuel))
  }

  // ----- flattening is preorder -----

  /** Enough fuel to flatten a layout. */
  function Weight(d: Layout): (w: nat)
    ensures w > 0
    decreases d
  {
    match d
    case Field(_, _) => 1
    case Flag(_) => 1
    case MapOf(items) => 1 + WeightAll(items)
    case ArrayOf(items) => 1 + WeightAll(items)
    case Ref(_, _, _, target) => 2 + Weight(target)
  }

  function WeightAll(items: seq<Layout>): nat
    decreases items
  {
    if items == [] then 0 else Weight(items[0]) + WeightAll(items[1..])
  }

  /** The layout at the end of a chain of pointers, and where it lies. */
  function Bottom(d: Layout): (b: Layout)
    ensures !b.Ref?
    decreases d
  {
    if d.Ref? then Bottom(d.target) else d
  }

  function BottomAt(at: nat, d: Layout): nat
    decreases d
  {
    if d.Ref? then BottomAt(d.base + SEPARATOR, d.target) else at
  }

  lemma {:induction false} BottomFacts(mem: seq<byte>, at: nat, d: Layout)
    requires WellFormed(mem, at, d)
    ensures WellFormed(mem, BottomAt(at, d), Bottom(d)) && Erase(Bottom(d)) == Erase(d)
    ensures Weight(Bottom(d)) <= Weight(d) && (d.Ref? ==> Bottom(d) < d && Weight(Bottom(d)) < Weight(d))
    decreases d
  {
    hide Head, Holds;
    if d.Ref? {
      BottomFacts(mem, d.base + SEPARATOR, d.target);
    }
  }

  /** Following the chain from a decoded pointer ends at the bottom, whatever the struct held before. */
  lemma {:induction false} ChaseLayout(mem: seq<byte>, e: Entry, last: nat, d: Layout, fuel: nat)
    requires |mem| < U32_RANGE && d.Ref? && WellFormed(mem, d.base + SEPARATOR, d.target)
    requires e.typ == TYPE_POINTER && e.datum == Pointer(d.base + SEPARATOR) && fuel + 1 >= Weight(d)
    ensures var c := Chase(mem, e, last, fuel);
            && c.Chased? && c.status == Success && c.last == BottomAt(d.base + SEPARATOR, d.target)
            && c.e.typ == TypeOf(Bottom(d)) && Meaning(mem, c.e) == HeadItem(Bottom(d)) && c.left >= Weight(Bottom(d))
    decreases d
  {
    hide DecodeSpec, Head, Holds;
    var at := d.base + SEPARATOR;
    DecodeLayout(mem, at, d.target, e);
    if d.target.Ref? {
      ChaseLayout(mem, DecodeSpec(mem, at, e).1, at, d.target, fuel - 1);
    }
  }

  lemma WithNextKeepsMeaning(mem: seq<byte>, r: Flat, next: nat)
    requires r.Ended? && r.status == Success && r.entries != []
    ensures WithNext(r, next).Ended? && WithNext(r, next).status == Success && WithNext(r, next).next == next
    ensures Meanings(mem, WithNext(r, next).entries) == Meanings(mem, r.entries)
  {
    MeaningIgnoresNext(mem, r.entries[0], next);
  }

  lemma MeaningsConcat(mem: seq<byte>, a: seq<Entry>, b: seq<Entry>)
    ensures Meanings(mem, a + b) == Meanings(mem, a) + Meanings(mem, b)
  {
  }

  lemma CountsItems(mem: seq<byte>, e: Entry, d: Layout)
    requires IsNode(d) && HeadFits(d) && e.typ == TypeOf(d) && Meaning(mem, e) == HeadItem(d)
    ensures ItemCount(e) == |d.items|
  {
  }

  /** The main result on flattening: for every well-formed layout, with any nesting, sharing and pointer chains, the
      entries are the preorder of the pointer-free value, and the offset afterwards is the one past the value in its
      parent's stream, which for a pointer is the one after the pointer. */
  lemma {:induction false} FlattensToPreorder(mem: seq<byte>, at: nat, d: Layout, before: Entry, fuel: nat)
    requires |mem| < U32_RANGE && WellFormed(mem, at, d) && fuel >= Weight(d)
    ensures var r := FlatField(mem, at, before, fuel);
            && r.Ended? && r.status == Success && r.next == at + |Encode(d)|
            && Meanings(mem, r.entries) == Preorder(Erase(d))
    decreases d, 1
  {
    hide DecodeSpec, Head, Holds, Meaning, FlatItems, FlatPointer, Prepend, WithNext;
    DecodeLayout(mem, at, d, before);
    var e := DecodeSpec(mem, at, before).1;
    if d.Ref? {
      PointerFlattens(mem, at, d, e, fuel - 1);
    } else if IsNode(d) {
      NodeFlattens(mem, at, d, e, fuel - 1);
    }
  }

  lemma {:induction false} NodeFlattens(mem: seq<byte>, at: nat, d: Layout, e: Entry, fuel: nat)
    requires |mem| < U32_RANGE && IsNode(d) && WellFormed(mem, at, d) && fuel + 1 >= Weight(d)
    requires e.typ == TypeOf(d) && e.offsetToNext == at + |Head(d)| && Meaning(mem, e) == HeadItem(d)
    ensures var items := Prepend([e], FlatItems(mem, e.offsetToNext, ItemCount(e), fuel));
            && items.Ended? && WithNext(items, items.next).Ended? && WithNext(items, items.next).status == Success
            && WithNext(items, items.next).next == at + |Encode(d)|
            && Meanings(mem, WithNext(items, items.next).entries) == Preorder(Erase(d))
    decreases d, 0
  {
    hide DecodeSpec, Head, Holds, Meaning, FlatItems;
    CountsItems(mem, e, d);
    ItemsFlatten(mem, e.offsetToNext, d.items, fuel);
    var r := FlatItems(mem, e.offsetToNext, |d.items|, fuel);
    MeaningsConcat(mem, [e], r.entries);
    WithNextKeepsMeaning(mem, Prepend([e], r), r.next);
  }

  lemma {:induction false} PointerFlattens(mem: seq<byte>, at: nat, d: Layout, e: Entry, fuel: nat)
    requires |mem| < U32_RANGE && d.Ref? && WellFormed(mem, at, d) && fuel + 1 >= Weight(d)
    requires e.typ == TYPE_POINTER && e.datum == Pointer(d.base + SEPARATOR) && e.offsetToNext == at + |Encode(d)|
    ensures var r := FlatPointer(mem, e, fuel);
            && r.Ended? && r.status == Success && r.next == at + |Encode(d)|
            && Meanings(mem, r.entries) == Preorder(Erase(d))
    decreases d, 0
  {
    hide DecodeSpec, Head, Holds, Meaning;
    BottomFacts(mem, at, d);
    ChaseLayout(mem, e, 0, d, fuel);
    var c, b := Chase(mem, e, 0, fuel), Bottom(d);
    if IsNode(b) {
      FlattensToPreorder(mem, c.last, b, c.e, c.left);
      WithNextKeepsMeaning(mem, FlatField(mem, c.last, c.e, c.left), e.offsetToNext);
    } else {
      MeaningIgnoresNext(mem, c.e, e.offsetToNext);
    }
  }

  lemma {:induction false} ItemsFlatten(mem: seq<byte>, at: nat, items: seq<Layout>, fuel: nat)
    requires |mem| < U32_RANGE && WellFormedItems(mem, at, items) && fuel >= WeightAll(items)
    ensures var r := FlatItems(mem, at, |items|, fuel);
            && r.Ended? && r.status == Success && r.next == at + |EncodeAll(items)|
            && Meanings(mem, r.entries) == PreorderAll(EraseAll(items))
    decreases items
  {
    hide DecodeSpec, Head, Holds, Meaning;
    if items != [] {
      FlattensToPreorder(mem, at, items[0], ZERO_ENTRY, fuel);
      ItemsFlatten(mem, at + |Encode(items[0])|, items[1..], fuel);
      var r := FlatField(mem, at, ZERO_ENTRY, fuel);
      MeaningsConcat(mem, r.entries, FlatItems(mem, r.next, |items| - 1, fuel).entries);
      assert EraseAll(items)[1..] == EraseAll(items[1..]);
    }
  }
}
