/**
  Flattening with a finite allocator, as a function: what get_entry_data_list builds when only so many allocations
  succeed.  A run goes on forever only where a chain of pointers does.
 */
module Run {
  import opened Bytes
  import opened Decode
  import opened Layout
  import opened Flatten
  import opened Graph
  import opened Termination

  /** Where the loop that follows the pointer in `e` ends. */
  ghost function ChainEnd(mem: seq<byte>, e: Entry): (c: Chased)
    requires e.typ == TYPE_POINTER && e.datum.Pointer? && ChainEnds(mem, e)
    ensures c.Chased? && c.status != OutOfMemory && (c.status == Success ==> c.e.typ != TYPE_POINTER)
  {
    var fuel: nat :| Chase(mem, e, 0, fuel).Chased?;
    Chase(mem, e, 0, fuel)
  }

  lemma ChainEndAt(mem: seq<byte>, e: Entry, fuel: nat)
    requires e.typ == TYPE_POINTER && e.datum.Pointer? && Chase(mem, e, 0, fuel).Chased?
    ensures ChainEnds(mem, e)
    ensures var c, c' := ChainEnd(mem, e), Chase(mem, e, 0, fuel);
            c.status == c'.status && c.e == c'.e && c.last == c'.last
  {
    var fuel': nat :| Chase(mem, e, 0, fuel').Chased? && ChainEnd(mem, e) == Chase(mem, e, 0, fuel');
    ChaseFuel(mem, e, 0, fuel, fuel + fuel');
    ChaseFuel(mem, e, 0, fuel', fuel + fuel');
  }

  // ----- get_entry_data_list with `budget` allocations left -----

  /** The field at `at`, whose first entry has a node already.  `Unfinished` says that the run does not return. */
  ghost function RunField(mem: seq<byte>, at: nat, before: Entry, budget: nat): (r: Flat)
    ensures r.Ended? ==> 0 < |r.entries| <= budget + 1
    ensures r.Ended? && r.status == Success ==> r.entries[0].offsetToNext == r.next
    ensures r.Ended? && r.status == OutOfMemory ==> |r.entries| == budget + 1
    decreases budget, 4
  {
    var (status, e) := DecodeSpec(mem, at, before);
    if status != Success then Ended(status, [e], 0)
    else if e.typ == TYPE_POINTER then RunPointer(mem, e, budget)
    else RunHere(mem, e, budget)
  }

  ghost function RunPointer(mem: seq<byte>, e: Entry, budget: nat): (r: Flat)
    requires e.typ == TYPE_POINTER && e.datum.Pointer?
    ensures r.Ended? ==> 0 < |r.entries| <= budget + 1
    ensures r.Ended? && r.status == Success ==> r.entries[0].offsetToNext == r.next
    ensures r.Ended? && r.status == OutOfMemory ==> |r.entries| == budget + 1
    decreases budget, 3
  {
    if !ChainEnds(mem, e) then Unfinished
    else
      var c := ChainEnd(mem, e);
      if c.status != Success then Ended(c.status, [c.e], 0)
      else if IsContainer(c.e.typ) then WithNext(RunHere(mem, c.e, budget), e.offsetToNext)
      else Ended(Success, [c.e.(offsetToNext := e.offsetToNext)], e.offsetToNext)
  }

  /** A field that has been decoded into `e` and is no pointer. */
  ghost function RunHere(mem: seq<byte>, e: Entry, budget: nat): (r: Flat)
    ensures r.Ended? ==> 0 < |r.entries| <= budget + 1
    ensures r.Ended? && r.status == Success ==> r.entries[0].offsetToNext == r.next
    ensures r.Ended? && r.status == OutOfMemory ==> |r.entries| == budget + 1
    decreases budget, 2
  {
    if IsContainer(e.typ) then
      var r := Prepend([e], RunItems(mem, e.offsetToNext, ItemCount(e), budget));
      if r.Ended? then WithNext(r, r.next) else r
    else Ended(Success, [e], e.offsetToNext)
  }

  /** `count` fields one after the other, each in nodes of its own. */
  ghost function RunItems(mem: seq<byte>, at: nat, count: nat, budget: nat): (r: Flat)
    ensures r.Ended? ==> |r.entries| <= budget
    ensures r.Ended? && r.status == OutOfMemory ==> |r.entries| == budget
    decreases budget, 1
  {
    if count == 0 then Ended(Success, [], at)
    else
      var r := RunList(mem, at, budget);
      if r.Unfinished? || r.status != Success then r
      else Prepend(r.entries, RunItems(mem, r.next, count - 1, budget - |r.entries|))
  }

  /** MMDB_get_entry_data_list, and one turn of the loops over the items: the first node is allocated, too. */
  ghost function RunList(mem: seq<byte>, at: nat, budget: nat): (r: Flat)
    ensures r.Ended? ==> |r.entries| <= budget
    ensures r.Ended? && r.status == Success ==> r.entries != [] && r.entries[0].offsetToNext == r.next
    ensures r.Ended? && r.status == OutOfMemory ==> |r.entries| == budget
    decreases budget, 0
  {
    if budget == 0 then Ended(OutOfMemory, [], 0) else RunField(mem, at, ZERO_ENTRY, budget - 1)
  }

  lemma RunScalar(mem: seq<byte>, e: Entry, budget: nat)
    ensures !IsContainer(e.typ) ==> RunHere(mem, e, budget) == Ended(Success, [e], e.offsetToNext)
  {
  }

  /** Decoding a container a second time into the same struct changes nothing. */
  lemma Redecode(mem: seq<byte>, at: nat, before: Entry)
    requires var (status, e) := DecodeSpec(mem, at, before); status == Success && IsContainer(e.typ)
    ensures DecodeSpec(mem, at, DecodeSpec(mem, at, before).1) == DecodeSpec(mem, at, before)
  {
  }

  /** The chain ends at a field that was decoded last. */
  lemma {:induction false} ChaseDecodes(mem: seq<byte>, e: Entry, last: nat, fuel: nat) returns (before: Entry)
    requires e.typ == TYPE_POINTER && e.datum.Pointer?
    requires var c := Chase(mem, e, last, fuel); c.Chased? && c.status == Success
    ensures var c := Chase(mem, e, last, fuel); DecodeSpec(mem, c.last, before) == (Success, c.e)
    decreases fuel
  {
    hide DecodeSpec;
    var at := e.datum.target;
    DecodedPointer(mem, at, e);
    var e' := DecodeSpec(mem, at, e).1;
    before := e;
    if e'.typ == TYPE_POINTER {
      before := ChaseDecodes(mem, e', at, fuel - 1);
    }
  }

  /** What get_entry_data_list does once the chain has ended at a container: it decodes the container again. */
  lemma RunAgain(mem: seq<byte>, e: Entry, budget: nat)
    requires e.typ == TYPE_POINTER && e.datum.Pointer? && ChainEnds(mem, e)
    requires var c := ChainEnd(mem, e); c.status == Success && IsContainer(c.e.typ)
    ensures var c := ChainEnd(mem, e);
            && DecodeSpec(mem, c.last, c.e) == (Success, c.e)
            && RunField(mem, c.last, c.e, budget) == RunHere(mem, c.e, budget)
  {
    hide DecodeSpec, RunHere;
    var fuel: nat :| Chase(mem, e, 0, fuel).Chased? && ChainEnd(mem, e) == Chase(mem, e, 0, fuel);
    var before := ChaseDecodes(mem, e, 0, fuel);
    Redecode(mem, ChainEnd(mem, e).last, before);
  }

  // ----- with and without enough memory -----

  /** A run that stopped for lack of memory, after the first entries of what it would have built. */
  ghost predicate Starved(mem: seq<byte>, run: Flat, whole: Flat, nodes: nat) {
    && run.Ended? && whole.Ended? && run.status == OutOfMemory && |run.entries| == nodes < |whole.entries|
    && Meanings(mem, run.entries) == Meanings(mem, whole.entries)[..nodes]
  }

  /** A traversal that ends needs one node for every entry.  With fewer, the run builds as many of them, in the same
      order, and reports that memory ran out; otherwise it is the whole traversal. */
  lemma {:induction false} RunsFlat(mem: seq<byte>, at: nat, before: Entry, fuel: nat, budget: nat)
    requires FlatField(mem, at, before, fuel).Ended?
    ensures var run, whole := RunField(mem, at, before, budget), FlatField(mem, at, before, fuel);
            if |whole.entries| <= budget + 1 then run == whole else Starved(mem, run, whole, budget + 1)
    decreases fuel, 1
  {
    hide DecodeSpec, Starved, RunHere, RunItems, FlatItems;
    var (status, e) := DecodeSpec(mem, at, before);
    if status == Success && e.typ == TYPE_POINTER {
      DecodedPointer(mem, at, before);
      var c := Chase(mem, e, 0, fuel - 1);
      ChainEndAt(mem, e, fuel - 1);
      if c.status == Success && IsContainer(c.e.typ) {
        RunAgain(mem, e, budget);
        RunsFlat(mem, c.last, c.e, c.left, budget);
        StarvedNext(mem, RunHere(mem, c.e, budget), FlatField(mem, c.last, c.e, c.left), e.offsetToNext, budget + 1);
      }
    } else if status == Success && IsContainer(e.typ) {
      RunsFlatHere(mem, e, fuel - 1, budget);
    } else {
      RunScalar(mem, e, budget);
    }
  }

  lemma StarvedNext(mem: seq<byte>, run: Flat, whole: Flat, next: nat, nodes: nat)
    requires whole.Ended? && whole.entries != []
    ensures |WithNext(whole, next).entries| == |whole.entries|
    ensures Starved(mem, run, whole, nodes) ==> Starved(mem, WithNext(run, next), WithNext(whole, next), nodes)
  {
    hide Meanings;
    if whole.status == Success {
      WithNextKeepsMeaning(mem, whole, next);
    }
  }

  lemma StarvedEarly(mem: seq<byte>, run: Flat, whole: Flat, rest: Flat, nodes: nat)
    requires rest.Ended? && Starved(mem, run, whole, nodes)
    ensures Starved(mem, run, Prepend(whole.entries, rest), nodes)
  {
    hide Meaning;
    MeaningsConcat(mem, whole.entries, rest.entries);
  }

  lemma StarvedLater(mem: seq<byte>, run: Flat, whole: Flat, before: seq<Entry>, nodes: nat)
    requires Starved(mem, run, whole, nodes)
    ensures Starved(mem, Prepend(before, run), Prepend(before, whole), |before| + nodes)
  {
    hide Meaning;
    MeaningsConcat(mem, before, run.entries);
    MeaningsConcat(mem, before, whole.entries);
  }

  lemma StarvedAtOnce(mem: seq<byte>, whole: Flat)
    requires whole.Ended? && whole.entries != []
    ensures Starved(mem, Ended(OutOfMemory, [], 0), whole, 0)
  {
  }

  lemma {:induction false} RunsFlatHere(mem: seq<byte>, e: Entry, fuel: nat, budget: nat)
    requires IsContainer(e.typ) && FlatItems(mem, e.offsetToNext, ItemCount(e), fuel).Ended?
    ensures var items := FlatItems(mem, e.offsetToNext, ItemCount(e), fuel);
            var run, whole := RunHere(mem, e, budget), WithNext(Prepend([e], items), items.next);
            if |whole.entries| <= budget + 1 then run == whole else Starved(mem, run, whole, budget + 1)
    decreases fuel, 3
  {
    hide DecodeSpec, Starved, RunItems, FlatItems;
    RunsFlatItems(mem, e.offsetToNext, ItemCount(e), fuel, budget);
    var start, count := e.offsetToNext, ItemCount(e);
    var run, whole := RunItems(mem, start, count, budget), FlatItems(mem, start, count, fuel);
    if |whole.entries| > budget {
      StarvedLater(mem, run, whole, [e], budget);
      StarvedEnded(mem, run, whole, budget);
      StarvedNext(mem, Prepend([e], run), Prepend([e], whole), whole.next, budget + 1);
    }
  }

  lemma StarvedEnded(mem: seq<byte>, run: Flat, whole: Flat, nodes: nat)
    requires Starved(mem, run, whole, nodes)
    ensures run.Ended? && run.status == OutOfMemory && |run.entries| == nodes
  {
  }

  lemma {:induction false} RunsFlatItems(mem: seq<byte>, at: nat, count: nat, fuel: nat, budget: nat)
    requires FlatItems(mem, at, count, fuel).Ended?
    ensures var run, whole := RunItems(mem, at, count, budget), FlatItems(mem, at, count, fuel);
            if |whole.entries| <= budget then run == whole else Starved(mem, run, whole, budget)
    decreases fuel, 2, count
  {
    hide DecodeSpec, Starved, RunField, FlatField;
    if count > 0 {
      var r := FlatField(mem, at, ZERO_ENTRY, fuel);
      if budget == 0 {
        StarvedAtOnce(mem, FlatItems(mem, at, count, fuel));
      } else {
        RunsFlat(mem, at, ZERO_ENTRY, fuel, budget - 1);
        var run := RunField(mem, at, ZERO_ENTRY, budget - 1);
        if |r.entries| > budget {
          StarvedEnded(mem, run, r, budget);
          if r.status == Success {
            StarvedEarly(mem, run, r, FlatItems(mem, r.next, count - 1, fuel), budget);
          }
        } else if r.status == Success {
          var rest := budget - |r.entries|;
          RunsFlatItems(mem, r.next, count - 1, fuel, rest);
          if |FlatItems(mem, r.next, count - 1, fuel).entries| > rest {
            var run', whole' := RunItems(mem, r.next, count - 1, rest), FlatItems(mem, r.next, count - 1, fuel);
            StarvedLater(mem, run', whole', r.entries, rest);
          }
        }
      }
    }
  }

  /** The whole list, or as much of it as there is memory for. */
  ghost predicate ListOrStarved(mem: seq<byte>, at: nat, fuel: nat, budget: nat) {
    var run, whole := RunList(mem, at, budget), FlatField(mem, at, ZERO_ENTRY, fuel);
    whole.Ended? ==> if |whole.entries| <= budget then run == whole else Starved(mem, run, whole, budget)
  }

  lemma ListRunsFlat(mem: seq<byte>, at: nat, fuel: nat, budget: nat)
    ensures ListOrStarved(mem, at, fuel, budget)
  {
    hide RunField, FlatField, Starved;
    var whole := FlatField(mem, at, ZERO_ENTRY, fuel);
    if whole.Ended? {
      if budget == 0 {
        StarvedAtOnce(mem, whole);
      } else {
        RunsFlat(mem, at, ZERO_ENTRY, fuel, budget - 1);
      }
    }
  }

  /** Conversely, a run that does not end for lack of memory is a traversal that ends. */
  lemma {:induction false} RunIsWhole(mem: seq<byte>, at: nat, before: Entry, budget: nat) returns (fuel: nat)
    requires var run := RunField(mem, at, before, budget); run.Ended? && run.status != OutOfMemory
    ensures FlatField(mem, at, before, fuel) == RunField(mem, at, before, budget)
    decreases budget, 2
  {
    hide DecodeSpec, RunHere, FlatItems;
    var (status, e) := DecodeSpec(mem, at, before);
    fuel := 1;
    if status == Success && e.typ == TYPE_POINTER {
      DecodedPointer(mem, at, before);
      var f: nat :| Chase(mem, e, 0, f).Chased?;
      fuel := f + 1;
      ChainEndAt(mem, e, f);
      var c := Chase(mem, e, 0, f);
      if c.status == Success && IsContainer(c.e.typ) {
        RunAgain(mem, e, budget);
        var f' := RunHereIsWhole(mem, c.e, budget);
        fuel := f + f' + 2;
        ChaseFuel(mem, e, 0, f, fuel - 1);
        ItemsFuel(mem, c.e.offsetToNext, ItemCount(c.e), f', c.left + f');
        assert FlatField(mem, c.last, c.e, c.left + f' + 1) == RunHere(mem, c.e, budget);
        assert Chase(mem, e, 0, fuel - 1) == c.(left := c.left + f' + 1);
      }
    } else if status == Success && IsContainer(e.typ) {
      var f := RunHereIsWhole(mem, e, budget);
      fuel := f + 1;
    } else {
      RunScalar(mem, e, budget);
    }
  }

  lemma {:induction false} RunHereIsWhole(mem: seq<byte>, e: Entry, budget: nat) returns (fuel: nat)
    requires IsContainer(e.typ)
    requires var run := RunHere(mem, e, budget); run.Ended? && run.status != OutOfMemory
    ensures var items := FlatItems(mem, e.offsetToNext, ItemCount(e), fuel);
            items.Ended? && RunHere(mem, e, budget) == WithNext(Prepend([e], items), items.next)
    decreases budget, 1
  {
    hide RunItems, FlatItems;
    fuel := RunItemsAreWhole(mem, e.offsetToNext, ItemCount(e), budget);
  }

  lemma {:induction false} RunItemsAreWhole(mem: seq<byte>, at: nat, count: nat, budget: nat) returns (fuel: nat)
    requires var run := RunItems(mem, at, count, budget); run.Ended? && run.status != OutOfMemory
    ensures FlatItems(mem, at, count, fuel) == RunItems(mem, at, count, budget)
    decreases budget, 0
  {
    hide DecodeSpec, RunField, FlatField;
    fuel := 0;
    if count > 0 {
      fuel := RunIsWhole(mem, at, ZERO_ENTRY, budget - 1);
      var r := RunField(mem, at, ZERO_ENTRY, budget - 1);
      if r.status == Success {
        var f := RunItemsAreWhole(mem, r.next, count - 1, budget - |r.entries|);
        FuelIrrelevant(mem, at, ZERO_ENTRY, fuel, fuel + f);
        ItemsFuel(mem, r.next, count - 1, f, fuel + f);
        fuel := fuel + f;
      }
    }
  }

  // ----- runs that do not return -----

  /** The chain of pointers from the field at `a` ends, whatever the struct held before. */
  lemma ChainOf(mem: seq<byte>, a: nat, before: Entry)
    requires var (status, e) := DecodeSpec(mem, a, before); status == Success && e.typ == TYPE_POINTER
    ensures DecodeSpec(mem, a, before).1.datum.Pointer?
    ensures ChainEnds(mem, DecodeSpec(mem, a, before).1) <==> ChainEndsFrom(mem, a)
  {
    hide DecodeSpec;
    DecodedPointer(mem, a, before);
    DecodedPointer(mem, a, ZERO_ENTRY);
    DecodeIgnoresOldContents(mem, a, before, ZERO_ENTRY);
    var e, e' := DecodeSpec(mem, a, before).1, DecodeSpec(mem, a, ZERO_ENTRY).1;
    SettledParts(e, e');
    if ChainEnds(mem, e) {
      var f: nat :| Chase(mem, e, 0, f).Chased?;
      ChaseContents(mem, e, e', 0, f);
      assert ChainFrom(mem, a, f);
    }
    if ChainEndsFrom(mem, a) {
      var f: nat :| ChainFrom(mem, a, f);
      ChaseContents(mem, e', e, 0, f);
    }
  }

  /** Flattening a pointer goes on to the end of its chain. */
  lemma {:induction false} ChainReaches(mem: seq<byte>, a: nat, before: Entry, fuel: nat)
    requires var (status, e) := DecodeSpec(mem, a, before);
             status == Success && e.typ == TYPE_POINTER && e.datum.Pointer?
    requires var c := Chase(mem, DecodeSpec(mem, a, before).1, 0, fuel); c.Chased? && c.status == Success
    ensures Reaches(Expansions(mem), a, Chase(mem, DecodeSpec(mem, a, before).1, 0, fuel).last)
    decreases fuel
  {
    hide DecodeSpec;
    var e := DecodeSpec(mem, a, before).1;
    var b := e.datum.target;
    assert Hop(mem, a, b) by { HopFound(mem, a, before); }
    var e' := DecodeSpec(mem, b, e).1;
    DecodedPointer(mem, b, e);
    if e'.typ == TYPE_POINTER {
      assert Chase(mem, e', b, fuel - 1) == Chase(mem, e', 0, fuel - 1);
      ChainReaches(mem, b, e, fuel - 1);
    } else {
      assert Chase(mem, e, 0, fuel) == Chased(Success, e', b, fuel - 1);
      ReachesSelf(Expansions(mem), b);
    }
    ReachesBehind(Expansions(mem), a, b, Chase(mem, e, 0, fuel).last);
  }

  lemma HopFound(mem: seq<byte>, a: nat, before: Entry)
    requires var (status, e) := DecodeSpec(mem, a, before);
             status == Success && e.typ == TYPE_POINTER && e.datum.Pointer?
    ensures Hop(mem, a, DecodeSpec(mem, a, before).1.datum.target)
  {
    hide DecodeSpec;
    DecodeIgnoresOldContents(mem, a, before, ZERO_ENTRY);
    SettledParts(DecodeSpec(mem, a, before).1, DecodeSpec(mem, a, ZERO_ENTRY).1);
  }

  /** A run that does not return has reached a field whose pointers form a cycle. */
  lemma {:induction false} StuckOnCycle(mem: seq<byte>, at: nat, before: Entry, budget: nat) returns (b: nat)
    requires RunField(mem, at, before, budget).Unfinished?
    ensures Reaches(Expansions(mem), at, b) && !ChainEndsFrom(mem, b)
    decreases budget, 2
  {
    hide DecodeSpec, RunHere, Expansions, ChainEndsFrom;
    var (status, e) := DecodeSpec(mem, at, before);
    RunScalar(mem, e, budget);
    b := at;
    if e.typ == TYPE_POINTER {
      ChainOf(mem, at, before);
      if ChainEnds(mem, e) {
        var f: nat :| Chase(mem, e, 0, f).Chased?;
        ChainEndAt(mem, e, f);
        ChainReaches(mem, at, before, f);
        var c := ChainEnd(mem, e);
        RunAgain(mem, e, budget);
        DecodeIgnoresOldContents(mem, c.last, c.e, ZERO_ENTRY);
        b := StuckHere(mem, c.last, c.e, budget);
        ReachesThrough(Expansions(mem), at, c.last, b);
      } else {
        ReachesSelf(Expansions(mem), at);
      }
    } else {
      DecodeIgnoresOldContents(mem, at, before, ZERO_ENTRY);
      b := StuckHere(mem, at, e, budget);
    }
  }

  lemma {:induction false} StuckHere(mem: seq<byte>, a: nat, e: Entry, budget: nat) returns (b: nat)
    requires IsContainer(e.typ) && RunHere(mem, e, budget).Unfinished?
    requires var (status, e') := DecodeSpec(mem, a, ZERO_ENTRY); status == Success && Settled(e) == Settled(e')
    ensures Reaches(Expansions(mem), a, b) && !ChainEndsFrom(mem, b)
    decreases budget, 1
  {
    hide DecodeSpec, Expansions, ChainEndsFrom, HasItem, Sound, RunItems;
    SettledParts(e, DecodeSpec(mem, a, ZERO_ENTRY).1);
    FirstItem(mem, a);
    NoItemsRun(mem, e.offsetToNext, budget);
    b := StuckItems(mem, a, 0, e.offsetToNext, budget);
  }

  lemma NoItemsRun(mem: seq<byte>, at: nat, budget: nat)
    ensures RunItems(mem, at, 0, budget) == Ended(Success, [], at)
  {
  }

  /** The items of the container at `a` from number `k` on, which lies at `at`, when the earlier ones flatten. */
  lemma {:induction false} StuckItems(mem: seq<byte>, a: nat, k: nat, at: nat, budget: nat) returns (b: nat)
    requires var (status, e) := DecodeSpec(mem, a, ZERO_ENTRY);
             status == Success && IsContainer(e.typ) && k < ItemCount(e)
    requires HasItem(mem, a, k, at) && forall j: nat, c: nat | j < k && HasItem(mem, a, j, c) :: Sound(mem, c)
    requires RunItems(mem, at, ItemCount(DecodeSpec(mem, a, ZERO_ENTRY).1) - k, budget).Unfinished?
    ensures Reaches(Expansions(mem), a, b) && !ChainEndsFrom(mem, b)
    decreases budget, 0
  {
    hide DecodeSpec, ChainEndsFrom, HasItem, Sound, RunField, FlatField;
    var r := RunField(mem, at, ZERO_ENTRY, budget - 1);
    if r.Unfinished? {
      assert Expands(mem, a, at);
      b := StuckOnCycle(mem, at, ZERO_ENTRY, budget - 1);
      ReachesBehind(Expansions(mem), a, at, b);
    } else {
      var fuel := RunIsWhole(mem, at, ZERO_ENTRY, budget - 1);
      assert Well(FlatField(mem, at, ZERO_ENTRY, fuel));
      EndsWellExactly(mem, at);
      NextItem(mem, a, k, at, fuel);
      forall c: nat | HasItem(mem, a, k, c) ensures Sound(mem, c) {
        ItemUnique(mem, a, k, at, c);
      }
      NoItemsRun(mem, r.next, budget - |r.entries|);
      b := StuckItems(mem, a, k + 1, r.next, budget - |r.entries|);
    }
  }

  /** For some amount of memory the run does not return. */
  ghost predicate Sticks(mem: seq<byte>, a: nat) {
    exists budget: nat :: RunField(mem, a, ZERO_ENTRY, budget).Unfinished?
  }

  lemma RunHereAlike(mem: seq<byte>, e: Entry, e': Entry, budget: nat)
    requires Settled(e) == Settled(e')
    ensures RunHere(mem, e, budget).Unfinished? == RunHere(mem, e', budget).Unfinished?
  {
    hide RunItems;
    SettledParts(e, e');
  }

  /** Where two chains from the same field end. */
  lemma ChainEndsAlike(mem: seq<byte>, e: Entry, e': Entry)
    requires e.typ == TYPE_POINTER && e.datum.Pointer? && e'.datum.Pointer? && Settled(e) == Settled(e')
    requires e'.typ == TYPE_POINTER && ChainEnds(mem, e)
    ensures ChainEnds(mem, e')
    ensures var c, c' := ChainEnd(mem, e), ChainEnd(mem, e');
            c.status == c'.status && (c.status == Success ==> Settled(c.e) == Settled(c'.e))
  {
    var f: nat :| Chase(mem, e, 0, f).Chased?;
    ChaseContents(mem, e, e', 0, f);
    ChainEndAt(mem, e, f);
    ChainEndAt(mem, e', f);
  }

  lemma StickingAlike(mem: seq<byte>, a: nat, e0: Entry, e1: Entry, budget: nat)
    requires RunField(mem, a, e0, budget).Unfinished?
    ensures RunField(mem, a, e1, budget).Unfinished?
  {
    hide DecodeSpec, RunHere, ChainEnds, ChainEnd;
    DecodeIgnoresOldContents(mem, a, e0, e1);
    var d0, d1 := DecodeSpec(mem, a, e0).1, DecodeSpec(mem, a, e1).1;
    SettledParts(d0, d1);
    if d0.typ == TYPE_POINTER {
      DecodedPointer(mem, a, e0);
      DecodedPointer(mem, a, e1);
      if ChainEnds(mem, d1) {
        ChainEndsAlike(mem, d1, d0);
        RunHereAlike(mem, ChainEnd(mem, d0).e, ChainEnd(mem, d1).e, budget);
        SettledParts(ChainEnd(mem, d0).e, ChainEnd(mem, d1).e);
      }
    } else {
      RunHereAlike(mem, d0, d1, budget);
    }
  }

  lemma HopSticks(mem: seq<byte>, a: nat, b: nat, budget: nat)
    requires Hop(mem, a, b) && RunField(mem, b, ZERO_ENTRY, budget).Unfinished?
    ensures RunField(mem, a, ZERO_ENTRY, budget).Unfinished?
  {
    hide DecodeSpec, RunHere, ChainEnds, ChainEnd;
    var e := DecodeSpec(mem, a, ZERO_ENTRY).1;
    if ChainEnds(mem, e) {
      StickingAlike(mem, b, ZERO_ENTRY, e, budget);
      var e' := DecodeSpec(mem, b, e).1;
      DecodedPointer(mem, b, e);
      RunScalar(mem, e', budget);
      ChainHop(mem, e);
    }
  }

  /** A chain, one hop on. */
  lemma ChainHop(mem: seq<byte>, e: Entry)
    requires e.typ == TYPE_POINTER && e.datum.Pointer? && ChainEnds(mem, e)
    ensures var (status, e') := DecodeSpec(mem, e.datum.target, e); var c := ChainEnd(mem, e);
            if status != Success || e'.typ != TYPE_POINTER then c.status == status && c.e == e'
            else
              && e'.datum.Pointer? && ChainEnds(mem, e')
              && ChainEnd(mem, e').e == c.e && ChainEnd(mem, e').status == c.status
  {
    hide DecodeSpec;
    var f: nat :| Chase(mem, e, 0, f).Chased?;
    ChainEndAt(mem, e, f);
    var b := e.datum.target;
    var (status, e') := DecodeSpec(mem, b, e);
    DecodedPointer(mem, b, e);
    if status == Success && e'.typ == TYPE_POINTER {
      assert Chase(mem, e', b, f - 1) == Chase(mem, e', 0, f - 1);
      ChainEndAt(mem, e', f - 1);
    } else {
      assert Chase(mem, e, 0, f) == Chased(status, e', b, f - 1);
    }
  }

  lemma {:induction false} ItemSticks(mem: seq<byte>, at: nat, count: nat, k: nat, b: nat, fuel: nat, budget: nat)
    returns (budget': nat)
    requires k < count && PastItems(mem, at, k, fuel) == Past(b) && RunField(mem, b, ZERO_ENTRY, budget).Unfinished?
    requires forall j: nat, c: nat, f: nat | j < k && PastItems(mem, at, j, f) == Past(c) :: EndsWell(mem, c)
    ensures RunItems(mem, at, count, budget').Unfinished?
    decreases k
  {
    hide FlatField, PastField, RunField;
    budget' := budget + 1;
    if k > 0 {
      assert PastItems(mem, at, 0, 0) == Past(at);
      var f: nat :| Well(FlatField(mem, at, ZERO_ENTRY, f));
      var r := FlatField(mem, at, ZERO_ENTRY, f);
      FlatPasses(mem, at, f);
      PastAgree(mem, at, f, fuel);
      forall j: nat, c: nat, g: nat | j < k - 1 && PastItems(mem, r.next, j, g) == Past(c) ensures EndsWell(mem, c) {
        PastItemsFuel(mem, r.next, j, g, f + g);
        PastFuel(mem, at, f, f + g);
        assert PastItems(mem, at, j + 1, f + g) == Past(c);
      }
      var rest := ItemSticks(mem, r.next, count - 1, k - 1, b, fuel, budget);
      budget' := |r.entries| + rest;
      RunsFlat(mem, at, ZERO_ENTRY, f, budget' - 1);
    }
  }

  lemma ExpansionSticks(mem: seq<byte>, a: nat, b: nat)
    requires Expands(mem, a, b) && Sticks(mem, b)
    ensures Sticks(mem, a)
  {
    hide DecodeSpec, Sound, RunField, RunItems;
    var budget: nat :| RunField(mem, b, ZERO_ENTRY, budget).Unfinished?;
    if Hop(mem, a, b) {
      HopSticks(mem, a, b, budget);
    } else {
      var k: nat :| HasItem(mem, a, k, b) && forall j: nat, c: nat | j < k && HasItem(mem, a, j, c) :: Sound(mem, c);
      var e := DecodeSpec(mem, a, ZERO_ENTRY).1;
      var fuel: nat :| PastItems(mem, e.offsetToNext, k, fuel) == Past(b);
      forall j: nat, c: nat, f: nat | j < k && PastItems(mem, e.offsetToNext, j, f) == Past(c)
        ensures EndsWell(mem, c)
      {
        assert HasItem(mem, a, j, c);
        EndsWellExactly(mem, c);
      }
      var budget' := ItemSticks(mem, e.offsetToNext, ItemCount(e), k, b, fuel, budget);
      ContainerSticks(mem, a, budget');
    }
  }

  lemma ContainerSticks(mem: seq<byte>, a: nat, budget: nat)
    requires var (status, e) := DecodeSpec(mem, a, ZERO_ENTRY);
             status == Success && IsContainer(e.typ) && RunItems(mem, e.offsetToNext, ItemCount(e), budget).Unfinished?
    ensures RunField(mem, a, ZERO_ENTRY, budget).Unfinished?
  {
    hide DecodeSpec, RunItems;
  }

  lemma {:induction false} PathSticks(mem: seq<byte>, p: seq<nat>)
    requires IsPath(Expansions(mem), p) && Sticks(mem, p[|p| - 1])
    ensures Sticks(mem, p[0])
    decreases |p|
  {
    hide Expands, Sticks;
    if |p| > 1 {
      var rest := p[1..];
      assert IsPath(Expansions(mem), rest) by {
        forall i | 0 <= i < |rest| - 1 ensures (rest[i], rest[i + 1]) in Expansions(mem) {
          assert (p[i + 1], p[i + 1 + 1]) in Expansions(mem);
        }
      }
      PathSticks(mem, rest);
      assert (p[0], p[0 + 1]) in Expansions(mem);
      ExpansionSticks(mem, p[0], p[1]);
    }
  }

  /** MMDB_get_entry_data_list returns, however much memory there is. */
  ghost predicate Returns(mem: seq<byte>, at: nat) {
    forall budget: nat :: RunList(mem, at, budget).Ended?
  }

  lemma ListSticks(mem: seq<byte>, at: nat)
    ensures Returns(mem, at) <==> !Sticks(mem, at)
  {
    hide DecodeSpec;
    forall budget: nat ensures RunList(mem, at, budget).Unfinished? ==> Sticks(mem, at) {
      assert budget > 0 ==> RunList(mem, at, budget) == RunField(mem, at, ZERO_ENTRY, budget - 1);
    }
    if Sticks(mem, at) {
      var budget: nat :| RunField(mem, at, ZERO_ENTRY, budget).Unfinished?;
      assert RunList(mem, at, budget + 1).Unfinished?;
    }
  }

  /** With a finite allocator, MMDB_get_entry_data_list returns exactly when no pointer it meets leads into a cycle of
      pointers. */
  lemma ReturnsExactly(mem: seq<byte>, at: nat)
    ensures Returns(mem, at) <==> forall b: nat | Reaches(Expansions(mem), at, b) :: NoLoop(Hops(mem), b)
  {
    hide DecodeSpec, Expansions, NoLoop, RunField, ChainEndsFrom;
    var g := Expansions(mem);
    ListSticks(mem, at);
    if Sticks(mem, at) {
      var budget: nat :| RunField(mem, at, ZERO_ENTRY, budget).Unfinished?;
      var b := StuckOnCycle(mem, at, ZERO_ENTRY, budget);
      ChainEndsExactly(mem, b);
    }
    forall b: nat | Reaches(g, at, b) && !NoLoop(Hops(mem), b) ensures Sticks(mem, at) {
      ChainEndsExactly(mem, b);
      CycleSticks(mem, b);
      var p: seq<nat> :| IsPath(g, p) && p[0] == at && p[|p| - 1] == b;
      PathSticks(mem, p);
    }
  }

  lemma CycleSticks(mem: seq<byte>, a: nat)
    requires !ChainEndsFrom(mem, a)
    ensures Sticks(mem, a)
  {
    hide DecodeSpec;
    assert !ChainFrom(mem, a, 0);
    DecodedPointer(mem, a, ZERO_ENTRY);
    ChainOf(mem, a, ZERO_ENTRY);
    assert RunField(mem, a, ZERO_ENTRY, 0).Unfinished?;
  }

  // ----- two cycles -----

  /** Sixteen separator bytes and a pointer to itself. */
  const SELF_POINTER: seq<byte> := [0, 0, 0, 0, 0, 0, 0, 0, 0, 0, 0, 0, 0, 0, 0, 0, 32, 0]

  /** A pointer to itself: flattening does not return, whatever the fuel and however little memory there is. */
  lemma SelfPointerNeverEnds()
    ensures !Ends(SELF_POINTER, 16) && forall budget: nat :: RunField(SELF_POINTER, 16, ZERO_ENTRY, budget).Unfinished?
  {
    var mem := SELF_POINTER;
    assert Hop(mem, 16, 16);
    LoopsOn(Expansions(mem), [16, 16]);
    EndsExactly(mem, 16);
    LoopsOn(Hops(mem), [16, 16]);
    ChainEndsExactly(mem, 16);
    ChainOf(mem, 16, ZERO_ENTRY);
  }

  lemma LoopsOn(g: Edges, p: seq<nat>)
    requires IsPath(g, p) && |p| > 1 && p[0] == p[|p| - 1]
    ensures !NoLoop(g, p[0])
  {
  }

  /** Sixteen separator bytes and an array whose one element is a pointer to the array. */
  const SELF_ARRAY: seq<byte> := [0, 0, 0, 0, 0, 0, 0, 0, 0, 0, 0, 0, 0, 0, 0, 0, 1, 4, 32, 0]

  /** An array that contains itself: the traversal has no end, but every run does, when memory is used up. */
  lemma SelfArrayRunsOut(budget: nat)
    ensures !Ends(SELF_ARRAY, 16)
    ensures var r := RunList(SELF_ARRAY, 16, budget); r.Ended? && r.status == OutOfMemory && |r.entries| == budget
  {
    var mem := SELF_ARRAY;
    FirstItem(mem, 16);
    assert Expands(mem, 16, 18);
    assert Hop(mem, 18, 16);
    assert (16, 18) in Expansions(mem) && (18, 16) in Expansions(mem);
    LoopsOn(Expansions(mem), [16, 18, 16]);
    EndsExactly(mem, 16);
    if budget > 0 {
      SelfArrayHere(DecodeSpec(mem, 16, ZERO_ENTRY).1, budget - 1);
    }
  }

  lemma {:induction false} SelfArrayHere(e: Entry, budget: nat)
    requires e.typ == TYPE_ARRAY && e.dataSize == 1 && e.offsetToNext == 18
    ensures var r := RunHere(SELF_ARRAY, e, budget); r.Ended? && r.status == OutOfMemory
    decreases budget
  {
    OneItem(SELF_ARRAY, e, budget);
    if budget > 0 {
      var a := SelfArrayHop(budget - 1);
      SelfArrayHere(a, budget - 1);
    }
  }

  lemma OneItem(mem: seq<byte>, e: Entry, budget: nat)
    requires e.typ == TYPE_ARRAY && e.dataSize == 1
    ensures var r, r' := RunList(mem, e.offsetToNext, budget), RunHere(mem, e, budget);
            r.Ended? && r.status == OutOfMemory ==> r'.Ended? && r'.status == OutOfMemory
  {
    hide RunField;
    assert RunItems(mem, e.offsetToNext, 1, budget).Ended? ==
           (RunList(mem, e.offsetToNext, budget).Ended?);
  }

  lemma SelfArrayHop(budget: nat) returns (a: Entry)
    ensures a.typ == TYPE_ARRAY && a.dataSize == 1 && a.offsetToNext == 18
    ensures RunHere(SELF_ARRAY, a, budget).Ended? && RunHere(SELF_ARRAY, a, budget).status == OutOfMemory ==>
              RunList(SELF_ARRAY, 18, budget + 1).Ended? && RunList(SELF_ARRAY, 18, budget + 1).status == OutOfMemory
  {
    var e := DecodeSpec(SELF_ARRAY, 18, ZERO_ENTRY).1;
    a := DecodeSpec(SELF_ARRAY, 16, e).1;
    assert DecodeSpec(SELF_ARRAY, 18, ZERO_ENTRY).0 == Success && e.typ == TYPE_POINTER && e.datum == Pointer(16);
    assert DecodeSpec(SELF_ARRAY, 16, e).0 == Success && a.typ == TYPE_ARRAY && a.dataSize == 1 && a.offsetToNext == 18;
    if RunHere(SELF_ARRAY, a, budget).Ended? && RunHere(SELF_ARRAY, a, budget).status == OutOfMemory {
      ArrayBehindPointer(SELF_ARRAY, 18, budget);
    }
  }

  lemma ArrayBehindPointer(mem: seq<byte>, at: nat, budget: nat)
    requires var (status, e) := DecodeSpec(mem, at, ZERO_ENTRY);
             status == Success && e.typ == TYPE_POINTER && e.datum.Pointer?
    requires var e := DecodeSpec(mem, at, ZERO_ENTRY).1; var (status, a) := DecodeSpec(mem, e.datum.target, e);
             && status == Success && a.typ == TYPE_ARRAY
             && RunHere(mem, a, budget).Ended? && RunHere(mem, a, budget).status == OutOfMemory
    ensures RunList(mem, at, budget + 1).Ended? && RunList(mem, at, budget + 1).status == OutOfMemory
  {
    hide DecodeSpec;
    var e := DecodeSpec(mem, at, ZERO_ENTRY).1;
    var a := DecodeSpec(mem, e.datum.target, e).1;
    assert Chase(mem, a, e.datum.target, 0) == Chased(Success, a, e.datum.target, 0);
    ChainEndAt(mem, e, 1);
    assert RunPointer(mem, e, budget) == WithNext(RunHere(mem, a, budget), e.offsetToNext);
    assert RunField(mem, at, ZERO_ENTRY, budget) == RunPointer(mem, e, budget);
  }
}
