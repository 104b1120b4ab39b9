/**
  The heap list behind MMDB_get_entry_data_list, its allocator, and MMDB_free_entry_data_list.
 */
module EntryList {
  import opened Bytes
  import opened Decode
  import opened Flatten
  import opened Termination
  import opened Run

  /** MMDB_entry_data_list_s: the entry is embedded in the node. */
  class ListNode {
    const entryData: EntryData
    var next: ListNode?

    /** calloc zeroes the node. */
    constructor ()
      ensures fresh(entryData) && entryData.View() == ZERO_ENTRY && next == null
    {
      entryData := new EntryData.Local();
      next := null;
      new;
      entryData.Clear();
    }
  }

  /** calloc and free: `live` is what has been allocated and not freed, `budget` how many more allocations succeed. */
  class Allocator {
    ghost var live: set<ListNode>
    var budget: nat

    method Calloc() returns (node: ListNode?)
      modifies this
      ensures node == null <==> old(budget) == 0
      ensures node == null ==> live == old(live) && budget == 0
      ensures node != null ==> fresh(node) && fresh(node.entryData) && node.entryData.View() == ZERO_ENTRY
      ensures node != null ==> node.next == null && live == old(live) + {node} && budget == old(budget) - 1
    {
      if budget == 0 {
        return null;
      }
      node := new ListNode();
      live := live + {node};
      budget := budget - 1;
    }

    /** Freeing a node twice, or one that was never allocated, is a precondition violation. */
    method Free(node: ListNode)
      requires node in live
      modifies this
      ensures live == old(live) - {node} && budget == old(budget) + 1
    {
      live := live - {node};
      budget := budget + 1;
    }
  }

  // ----- lists of nodes -----

  function Elements(nodes: seq<ListNode>): set<ListNode> {
    set n | n in nodes
  }

  ghost predicate Distinct(nodes: seq<ListNode>) {
    forall i, j | 0 <= i < j < |nodes| :: nodes[i] != nodes[j] && nodes[i].entryData != nodes[j].entryData
  }

  /** The nodes reached from the first one by following next, none of them twice. */
  ghost predicate Chain(nodes: seq<ListNode>)
    reads nodes
  {
    && nodes != [] && nodes[|nodes| - 1].next == null && Linked(nodes) && Distinct(nodes)
  }

  ghost predicate Linked(nodes: seq<ListNode>)
    reads nodes
  {
    forall i | 0 <= i < |nodes| - 1 :: nodes[i].next == nodes[i + 1]
  }

  ghost predicate Shows(nodes: seq<ListNode>, entries: seq<Entry>)
    reads set n | n in nodes :: n.entryData
  {
    |nodes| == |entries| && forall i | 0 <= i < |nodes| :: nodes[i].entryData.View() == entries[i]
  }

  lemma StartOfList(head: ListNode)
    ensures (head.next == null ==> Chain([head])) && Elements([head][1..]) == {}
    ensures Shows([head], [head.entryData.View()])
  {
  }

  lemma LastNode(nodes: seq<ListNode>)
    requires nodes != []
    ensures nodes[|nodes| - 1] == nodes[0] || nodes[|nodes| - 1] in nodes[1..]
  {
    assert |nodes| > 1 ==> nodes[1..][|nodes| - 2] == nodes[|nodes| - 1];
  }

  lemma OtherEntries(nodes: seq<ListNode>)
    requires Distinct(nodes)
    ensures forall i | 0 < i < |nodes| :: nodes[i].entryData != nodes[0].entryData
  {
  }

  lemma Extends(before: seq<ListNode>, kids: seq<ListNode>)
    requires before != []
    ensures (before + kids)[1..] == before[1..] + kids
    ensures Elements((before + kids)[1..]) == Elements(before[1..]) + Elements(kids)
  {
  }

  lemma ShowsMore(before: seq<ListNode>, kids: seq<ListNode>, done: seq<Entry>, more: seq<Entry>)
    requires Shows(before, done)
    ensures |before| == |done|
    ensures Shows(kids, more) ==> |kids| == |more|
    ensures Shows(kids, more) ==> Shows(before + kids, done + more)
  {
  }

  lemma JoinChains(a: seq<ListNode>, b: seq<ListNode>)
    requires a != [] && Linked(a) && Distinct(a) && Chain(b) && a[|a| - 1].next == b[0]
    requires forall x, y | x in a && y in b :: x != y && x.entryData != y.entryData
    ensures Chain(a + b)
  {
  }

  // ----- get_entry_data_list -----

  /** The loop of get_entry_data_list that follows a decoded pointer until something else is decoded. */
  method ChasePointers(mem: seq<byte>, ed: EntryData) returns (status: Status, last: nat)
    requires |mem| < U32_RANGE && ed.typ == TYPE_POINTER && ed.datum.Pointer? && ChainEnds(mem, ed.View())
    modifies ed
    ensures var c := ChainEnd(mem, old(ed.View())); status == c.status && ed.View() == c.e && last == c.last
  {
    hide DecodeSpec, ChainEnd;
    status, last := Success, 0;
    ghost var e := ed.View();
    ghost var fuel: nat :| Chase(mem, e, 0, fuel).Chased?;
    ChainEndAt(mem, e, fuel);
    ghost var steps := fuel;
    while ed.typ == TYPE_POINTER
      invariant ed.typ == TYPE_POINTER ==> ed.datum.Pointer?
      invariant status == Success && Chase(mem, ed.View(), last, steps) == Chase(mem, e, 0, fuel)
      decreases steps
    {
      last := ed.datum.target;
      DecodedPointer(mem, last, ed.View());
      status := DecodeOne(mem, last, ed);
      if status != Success {
        return;
      }
      steps := steps - 1;
    }
  }

  /** get_entry_data_list.  It is called only where it returns: no chain of pointers it follows is endless.  Whatever
      else the bytes are and however little memory there is, the nodes it leaves are the specified ones, in one chain.
      */
  method GetEntryDataList(mem: seq<byte>, offset: nat, head: ListNode, heap: Allocator)
    returns (status: Status, ghost nodes: seq<ListNode>)
    requires |mem| < U32_RANGE && head.next == null
    requires RunField(mem, offset, head.entryData.View(), heap.budget).Ended?
    modifies head, head.entryData, heap
    ensures Chain(nodes) && nodes[0] == head
    ensures forall n | n in nodes[1..] :: fresh(n) && fresh(n.entryData)
    ensures heap.live == old(heap.live) + Elements(nodes[1..]) && heap.budget == old(heap.budget) - |nodes[1..]|
    ensures var run := old(RunField(mem, offset, head.entryData.View(), heap.budget));
            status == run.status && Shows(nodes, run.entries)
    decreases heap.budget, if DecodeSpec(mem, offset, head.entryData.View()).1.typ == TYPE_POINTER then 3 else 2
  {
    hide DecodeSpec, RunHere, ChainEnd, ChainEnds;
    nodes := [head];
    DecodedPointer(mem, offset, head.entryData.View());
    status := DecodeOne(mem, offset, head.entryData);
    if status != Success {
      return;
    }
    RunScalar(mem, head.entryData.View(), heap.budget);
    if head.entryData.typ == TYPE_POINTER {
      var nextOffset := head.entryData.offsetToNext;
      ghost var e := head.entryData.View();
      var lastOffset;
      status, lastOffset := ChasePointers(mem, head.entryData);
      if status != Success {
        return;
      }
      if head.entryData.typ == TYPE_ARRAY || head.entryData.typ == TYPE_MAP {
        RunAgain(mem, e, heap.budget);
        ghost var run := RunHere(mem, head.entryData.View(), heap.budget);
        status, nodes := GetEntryDataList(mem, lastOffset, head, heap);
        if status != Success {
          return;
        }
        PatchHead(head, nextOffset, nodes, run.entries);
      } else {
        head.entryData.offsetToNext := nextOffset;
      }
    } else if head.entryData.typ == TYPE_ARRAY || head.entryData.typ == TYPE_MAP {
      status, nodes := GetItems(mem, head, heap);
    }
  }

  /** The outcome of the whole container when the entries `done` are built and `size` items remain. */
  ghost function Built(mem: seq<byte>, done: seq<Entry>, at: nat, size: nat, budget: nat): Flat {
    Prepend(done, RunItems(mem, at, size, budget))
  }

  lemma NoItems(mem: seq<byte>, done: seq<Entry>, at: nat, budget: nat)
    ensures Built(mem, done, at, 0, budget) == Ended(Success, done, at)
  {
  }

  lemma ItemsStep(mem: seq<byte>, done: seq<Entry>, at: nat, size: nat, budget: nat)
    requires size > 0 && Built(mem, done, at, size, budget).Ended?
    ensures var spec, r := Built(mem, done, at, size, budget), RunList(mem, at, budget);
            && r.Ended?
            && (if r.status == Success then spec == Built(mem, done + r.entries, r.next, size - 1, budget - |r.entries|)
                else spec.status == r.status && spec.entries == done + r.entries)
  {
    hide RunField;
    var r := RunList(mem, at, budget);
    if r.status == Success {
      var rest := RunItems(mem, r.next, size - 1, budget - |r.entries|);
      assert done + (r.entries + rest.entries) == done + r.entries + rest.entries;
    }
  }

  /** The header's next offset becomes the one after the last item. */
  method PatchHead(head: ListNode, next: nat, ghost nodes: seq<ListNode>, ghost entries: seq<Entry>)
    requires Chain(nodes) && nodes[0] == head && Shows(nodes, entries)
    modifies head.entryData`offsetToNext
    ensures |nodes| == |entries| && Shows(nodes, [entries[0].(offsetToNext := next)] + entries[1..])
  {
    OtherEntries(nodes);
    head.entryData.offsetToNext := next;
  }

  /** A container whose header `head` already holds: its items, and then the header's next offset. */
  method GetItems(mem: seq<byte>, head: ListNode, heap: Allocator) returns (status: Status, ghost nodes: seq<ListNode>)
    requires |mem| < U32_RANGE && head.next == null && IsContainer(head.entryData.typ)
    requires RunHere(mem, head.entryData.View(), heap.budget).Ended?
    modifies head, head.entryData, heap
    ensures Chain(nodes) && nodes[0] == head
    ensures forall n | n in nodes[1..] :: fresh(n) && fresh(n.entryData)
    ensures heap.live == old(heap.live) + Elements(nodes[1..]) && heap.budget == old(heap.budget) - |nodes[1..]|
    ensures var run := old(RunHere(mem, head.entryData.View(), heap.budget));
            status == run.status && Shows(nodes, run.entries)
    decreases heap.budget, 1, 1
  {
    hide RunItems, Distinct, Elements, Shows, Linked;
    var size: nat := if head.entryData.typ == TYPE_MAP then 2 * head.entryData.dataSize else head.entryData.dataSize;
    ghost var run := Prepend([head.entryData.View()], RunItems(mem, head.entryData.offsetToNext, size, heap.budget));
    var next;
    status, next, nodes := AppendItems(mem, head.entryData.offsetToNext, size, head, heap);
    if status == Success {
      PatchHead(head, next, nodes, run.entries);
    }
  }

  /** The two loops of get_entry_data_list over the items of a container. */
  method AppendItems(mem: seq<byte>, start: nat, count: nat, head: ListNode, heap: Allocator)
    returns (status: Status, next: nat, ghost nodes: seq<ListNode>)
    requires |mem| < U32_RANGE && head.next == null && RunItems(mem, start, count, heap.budget).Ended?
    modifies head`next, heap
    ensures Chain(nodes) && nodes[0] == head
    ensures forall n | n in nodes[1..] :: fresh(n) && fresh(n.entryData)
    ensures heap.live == old(heap.live) + Elements(nodes[1..]) && heap.budget == old(heap.budget) - |nodes[1..]|
    ensures var run := RunItems(mem, start, count, old(heap.budget));
            && status == run.status && Shows(nodes, [old(head.entryData.View())] + run.entries)
            && (status == Success ==> next == run.next)
    decreases heap.budget, 1, 0
  {
    hide RunList, RunItems, Chain, Elements, Shows;
    status, next := Success, start;
    var size, previous := count, head;
    nodes := [head];
    StartOfList(head);
    ghost var done := [head.entryData.View()];
    ghost var spec := Prepend(done, RunItems(mem, start, count, heap.budget));
    while size > 0 && status == Success
      invariant Chain(nodes) && nodes != [] && nodes[0] == head
      invariant forall n | n in nodes[1..] :: fresh(n) && fresh(n.entryData)
      invariant heap.live == old(heap.live) + Elements(nodes[1..]) && heap.budget == old(heap.budget) - |nodes[1..]|
      invariant Shows(nodes, done)
      invariant if status == Success
                then previous == nodes[|nodes| - 1] && spec == Built(mem, done, next, size, heap.budget)
                else spec.status == status && spec.entries == done
      decreases size
    {
      ItemsStep(mem, done, next, size, heap.budget);
      LastNode(nodes);
      size := size - 1;
      ghost var r := RunList(mem, next, heap.budget);
      ghost var kids;
      status, previous, next, kids := AppendField(mem, next, previous, heap, nodes);
      assert status == Success ==> spec == Built(mem, done + r.entries, next, size, heap.budget);
      Extends(nodes, kids);
      ShowsMore(nodes, kids, done, r.entries);
      nodes, done := nodes + kids, done + r.entries;
    }
    NoItems(mem, done, next, heap.budget);
  }

  method WalkToEnd(from: ListNode, ghost nodes: seq<ListNode>, ghost at: nat) returns (last: ListNode)
    requires Chain(nodes) && at < |nodes| && nodes[at] == from
    ensures last == nodes[|nodes| - 1]
  {
    last := from;
    ghost var k := at;
    while last.next != null
      invariant k < |nodes| && last == nodes[k] && (k < |nodes| - 1 ==> last.next == nodes[k + 1])
      decreases |nodes| - k
    {
      last := last.next;
      k := k + 1;
    }
  }

  lemma ShowsAsMany(nodes: seq<ListNode>, entries: seq<Entry>)
    requires Shows(nodes, entries)
    ensures |nodes| == |entries|
  {
  }

  lemma FirstShown(nodes: seq<ListNode>, entries: seq<Entry>)
    requires nodes != [] && Shows(nodes, entries)
    ensures entries != [] && nodes[0].entryData.View() == entries[0]
  {
  }

  lemma NoElements()
    ensures Elements([]) == {} && Shows([], [])
  {
  }

  lemma FirstElement(nodes: seq<ListNode>)
    requires nodes != []
    ensures Elements(nodes) == {nodes[0]} + Elements(nodes[1..])
  {
    assert nodes == [nodes[0]] + nodes[1..];
  }

  /** previous->next = new_entry_data_list(). */
  method LinkNew(previous: ListNode, heap: Allocator, ghost before: seq<ListNode>) returns (child: ListNode?)
    requires Chain(before) && previous == before[|before| - 1]
    modifies previous`next, heap
    ensures previous.next == child && Linked(before) && (child == null <==> old(heap.budget) == 0)
    ensures child == null ==> heap.live == old(heap.live) && heap.budget == 0
    ensures child != null ==> fresh(child) && fresh(child.entryData) && child.entryData.View() == ZERO_ENTRY
    ensures child != null ==>
              child.next == null && heap.live == old(heap.live) + {child} && heap.budget == old(heap.budget) - 1
  {
    child := heap.Calloc();
    previous.next := child;
  }

  /** One turn of those loops: allocate a node, link it after `previous`, flatten a field into it, and walk to the new
      end of the list. */
  method AppendField(mem: seq<byte>, offset: nat, previous: ListNode, heap: Allocator, ghost before: seq<ListNode>)
    returns (status: Status, last: ListNode, next: nat, ghost kids: seq<ListNode>)
    requires |mem| < U32_RANGE && Chain(before) && previous == before[|before| - 1]
    requires RunList(mem, offset, heap.budget).Ended?
    modifies previous`next, heap
    ensures Chain(before + kids)
    ensures forall n | n in kids :: fresh(n) && fresh(n.entryData)
    ensures heap.live == old(heap.live) + Elements(kids) && heap.budget == old(heap.budget) - |kids|
    ensures var run := RunList(mem, offset, old(heap.budget));
            && status == run.status && |kids| == |run.entries| && Shows(kids, run.entries)
            && (status == Success ==> last == (before + kids)[|before + kids| - 1] && next == run.next)
    decreases heap.budget, 0
  {
    hide RunField, Distinct, Elements, Shows, Linked;
    last, next, kids := previous, 0, [];
    var child := LinkNew(previous, heap, before);
    if child == null {
      NoElements();
      assert before + kids == before;
      return OutOfMemory, last, next, kids;
    }
    status, kids := GetEntryDataList(mem, offset, child, heap);
    assert kids == [child] + kids[1..];
    FirstElement(kids);
    JoinChains(before, kids);
    ShowsAsMany(kids, RunList(mem, offset, old(heap.budget)).entries);
    if status != Success {
      return;
    }
    FirstShown(kids, RunList(mem, offset, old(heap.budget)).entries);
    last := WalkToEnd(previous, before + kids, |before| - 1);
    next := child.entryData.offsetToNext;
  }

  // ----- MMDB_get_entry_data_list and MMDB_free_entry_data_list -----

  /** MMDB_get_entry_data_list.  Whether the run ends in success, on bad data or for lack of memory, the list holds
      exactly the nodes that were allocated, each once.  A traversal that ends needs one node for every entry: memory
      runs out exactly when there is less. */
  method NewEntryDataList(mem: seq<byte>, offset: nat, heap: Allocator)
    returns (status: Status, list: ListNode?, ghost nodes: seq<ListNode>)
    requires |mem| < U32_RANGE && RunList(mem, offset, heap.budget).Ended?
    modifies heap
    ensures IsList(list, nodes) && (forall n | n in nodes :: fresh(n) && fresh(n.entryData))
    ensures heap.live == old(heap.live) + Elements(nodes) && heap.budget == old(heap.budget) - |nodes|
    ensures var run := RunList(mem, offset, old(heap.budget)); status == run.status && Shows(nodes, run.entries)
    ensures status == OutOfMemory ==> heap.budget == 0
    ensures forall fuel: nat | FlatField(mem, offset, ZERO_ENTRY, fuel).Ended? ::
              var whole := FlatField(mem, offset, ZERO_ENTRY, fuel);
              if old(heap.budget) < |whole.entries| then status == OutOfMemory
              else status == whole.status && Shows(nodes, whole.entries)
  {
    hide RunField, FlatField, Distinct;
    forall fuel: nat | FlatField(mem, offset, ZERO_ENTRY, fuel).Ended?
      ensures ListOrStarved(mem, offset, fuel, heap.budget)
    {
      ListRunsFlat(mem, offset, fuel, heap.budget);
    }
    list := heap.Calloc();
    nodes := [];
    if list == null {
      return OutOfMemory, list, nodes;
    }
    status, nodes := GetEntryDataList(mem, offset, list, heap);
    assert nodes == [list] + nodes[1..];
  }

  ghost predicate IsList(list: ListNode?, nodes: seq<ListNode>)
    reads nodes
  {
    if list == null then nodes == [] else Chain(nodes) && nodes[0] == list
  }

  lemma SecondNode(nodes: seq<ListNode>)
    requires Linked(nodes)
    ensures |nodes| > 1 ==> nodes[0].next == nodes[1]
  {
  }

  /** MMDB_free_entry_data_list frees every node of the list once, the tail first. */
  method FreeEntryDataList(list: ListNode?, heap: Allocator, ghost nodes: seq<ListNode>)
    requires IsList(list, nodes) && Elements(nodes) <= heap.live
    modifies heap
    ensures heap.live == old(heap.live) - Elements(nodes) && heap.budget == old(heap.budget) + |nodes|
    decreases |nodes|
  {
    if list == null {
      return;
    }
    SecondNode(nodes);
    if list.next != null {
      assert Chain(nodes[1..]) by {
        assert forall i | 0 <= i < |nodes| - 2 :: nodes[1..][i].next == nodes[i + 1].next;
      }
      FreeEntryDataList(list.next, heap, nodes[1..]);
      assert Elements(nodes) == {list} + Elements(nodes[1..]);
    } else {
      assert nodes == [list];
    }
    heap.Free(list);
  }

  /** Conservation: building a list and freeing it leaves the allocator as it was, however the build ended. */
  method ListAndFree(mem: seq<byte>, offset: nat, heap: Allocator) returns (status: Status)
    requires |mem| < U32_RANGE && RunList(mem, offset, heap.budget).Ended?
    modifies heap
    ensures status == RunList(mem, offset, old(heap.budget)).status
    ensures heap.live == old(heap.live) && heap.budget == old(heap.budget)
  {
    hide RunList, FlatField;
    ghost var nodes;
    var list;
    status, list, nodes := NewEntryDataList(mem, offset, heap);
    FreeEntryDataList(list, heap, nodes);
  }
}
