/**
  What mmdblookup does with an entry: look a path up, flatten what it names, print it, free the list.
 */
module Mmdblookup {
  import opened Bytes
  import opened Decode
  import opened Layout
  import opened Lookup
  import opened LayoutLookup
  import opened LookupRefines
  import opened Flatten
  import opened Run
  import opened EntryList
  import opened Dump

  /** The exit code after a lookup that failed. */
  const LOOKUP_FAILED: nat := 5

  /** lookup_and_print once the address has an entry.  It prints exactly the value the path names, or reports the
      status of the lookup on the error stream, and whatever happens it leaves no node allocated.  What the dump
      returns is ignored: a value with a type the dump does not know is printed up to there, and the exit code is 0.
      */
  method LookupAndPrint(mem: seq<byte>, start: nat, path: Path, heap: Allocator, out: Stream, ghost d: Layout)
    returns (exitCode: nat, reported: Status)
    requires |mem| < U32_RANGE && 0 < start && WellFormed(mem, start, d) && Conforms(d)
    modifies heap, out
    ensures heap.live == old(heap.live) && heap.budget == old(heap.budget)
    ensures exitCode == if reported == Success then 0 else 5
    ensures match Resolve(Erase(d), path)
            case Missing(missing) => reported == missing && out.tokens == old(out.tokens)
            case Here(v) =>
              if old(heap.budget) < |Preorder(v)| then reported == OutOfMemory && out.tokens == old(out.tokens)
              else
                && reported == Success && out.tokens == old(out.tokens) + DumpItems(Preorder(v)).tokens
                && (Printable(v) ==> out.tokens == old(out.tokens) + Tokens(v))
  {
    hide DecodeSpec, FollowSpec, FlatField, RunList, Head, Holds, Meaning, DumpItems, Chain;
    exitCode := 0;
    var list: ListNode? := null;
    ghost var nodes: seq<ListNode> := [];
    ghost var at', d' := PathLookup(mem, start, d, path);
    var entryData := new EntryData.Local();
    var offset := start;
    if path != [] {
      reported := GetValue(mem, start, entryData, path);
      if reported != Success {
        return LOOKUP_FAILED, reported;
      }
      LocatedAt(mem, at', d', entryData.View());
      offset := entryData.offset;
      assert offset != 0;  // so "No data was found" is not printed
    }
    ghost var v := Resolve(Erase(d), path).v;
    ghost var fuel := Weight(if path == [] then d else Target(d'));
    FlattensLocated(mem, offset, if path == [] then d else Target(d'), fuel, v);
    ghost var entries := FlatField(mem, offset, ZERO_ENTRY, fuel).entries;
    RunReturns(mem, offset, fuel, heap.budget);
    reported, list, nodes := NewEntryDataList(mem, offset, heap);
    if reported != Success {
      exitCode := LOOKUP_FAILED;
    } else if list != null {
      DumpsWhole(mem, entries, v);
      var dumped, rest := DumpEntryDataList(mem, list, out, nodes, entries, 0);
    }
    FreeEntryDataList(list, heap, nodes);
  }

  lemma RunReturns(mem: seq<byte>, at: nat, fuel: nat, budget: nat)
    requires FlatField(mem, at, ZERO_ENTRY, fuel).Ended?
    ensures RunList(mem, at, budget).Ended?
  {
    hide FlatField, RunList;
    ListRunsFlat(mem, at, fuel, budget);
  }

  /** The offset MMDB_aget_value leaves in the struct is that of the value, behind the pointer if there is one. */
  lemma LocatedAt(mem: seq<byte>, at: nat, d: Layout, e: Entry)
    requires |mem| < U32_RANGE && WellFormed(mem, at, d) && Conforms(d)
    ensures Settled(e) == Settled(FollowSpec(mem, at, ZERO_ENTRY).1) ==>
              e.offset == TargetAt(at, d) && WellFormed(mem, e.offset, Target(d)) && Erase(Target(d)) == Erase(d)
  {
    hide FollowSpec, Head, Holds;
    FollowLayout(mem, at, d);
    EraseTarget(d);
    if Settled(e) == Settled(FollowSpec(mem, at, ZERO_ENTRY).1) {
      SettledParts(e, FollowSpec(mem, at, ZERO_ENTRY).1);
    }
  }

  lemma FlattensLocated(mem: seq<byte>, at: nat, d: Layout, fuel: nat, v: Value)
    requires |mem| < U32_RANGE && WellFormed(mem, at, d) && fuel == Weight(d) && Erase(d) == v
    ensures var r := FlatField(mem, at, ZERO_ENTRY, fuel);
            && r.Ended? && r.status == Success && Meanings(mem, r.entries) == Preorder(v)
            && |r.entries| == |Preorder(v)|
  {
    hide FlatField, Head, Holds, Meaning;
    FlattensToPreorder(mem, at, d, ZERO_ENTRY, fuel);
    assert |Meanings(mem, FlatField(mem, at, ZERO_ENTRY, fuel).entries)| == |Preorder(v)|;
  }

  lemma DumpsWhole(mem: seq<byte>, entries: seq<Entry>, v: Value)
    requires Meanings(mem, entries) == Preorder(v)
    ensures DumpItems(Meanings(mem, entries)[0..]) == DumpItems(Preorder(v))
    ensures Printable(v) ==> DumpItems(Preorder(v)) == Dumped(Success, Tokens(v), [])
  {
    hide DumpItems, Meaning;
    assert Meanings(mem, entries)[0..] == Preorder(v);
    if Printable(v) {
      DumpConsumesOne(v, []);
      assert Preorder(v) + [] == Preorder(v);
    }
  }
}
