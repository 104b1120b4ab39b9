/**
  When flattening comes to an end.  The condition is on the bytes alone: which fields lead to which, and that none of
  them leads back to itself.
 */
module Termination {
  import opened Bytes
  import opened Decode
  import opened Layout
  import opened Flatten
  import opened Graph

  // ----- what the outcome does not depend on -----

  /** Flattening does not depend on the fuel, once there is enough. */
  lemma {:induction false} FuelIrrelevant(mem: seq<byte>, at: nat, before: Entry, fuel: nat, more: nat)
    requires fuel <= more && FlatField(mem, at, before, fuel).Ended?
    ensures FlatField(mem, at, before, more) == FlatField(mem, at, before, fuel)
    decreases fuel, 1
  {
    hide DecodeSpec;
    var e := DecodeSpec(mem, at, before).1;
    if DecodeSpec(mem, at, before).0 == Success {
      if e.typ == TYPE_POINTER {
        DecodedPointer(mem, at, before);
        ChaseFuel(mem, e, 0, fuel - 1, more - 1);
        var c := Chase(mem, e, 0, fuel - 1);
        if c.status == Success && IsContainer(c.e.typ) {
          FuelIrrelevant(mem, c.last, c.e, c.left, c.left + (more - fuel));
        }
      } else if IsContainer(e.typ) {
        ItemsFuel(mem, e.offsetToNext, ItemCount(e), fuel - 1, more - 1);
      }
    }
  }

  lemma {:induction false} ChaseFuel(mem: seq<byte>, e: Entry, last: nat, fuel: nat, more: nat)
    requires (e.typ == TYPE_POINTER ==> e.datum.Pointer?) && fuel <= more && Chase(mem, e, last, fuel).Chased?
    ensures var c := Chase(mem, e, last, fuel); Chase(mem, e, last, more) == c.(left := c.left + (more - fuel))
    decreases fuel
  {
    hide DecodeSpec;
    if e.typ == TYPE_POINTER && DecodeSpec(mem, e.datum.target, e).0 == Success {
      DecodedPointer(mem, e.datum.target, e);
      ChaseFuel(mem, DecodeSpec(mem, e.datum.target, e).1, e.datum.target, fuel - 1, more - 1);
    }
  }

  lemma {:induction false} ItemsFuel(mem: seq<byte>, at: nat, count: nat, fuel: nat, more: nat)
    requires fuel <= more && FlatItems(mem, at, count, fuel).Ended?
    ensures FlatItems(mem, at, count, more) == FlatItems(mem, at, count, fuel)
    decreases fuel, 2, count
  {
    hide DecodeSpec;
    if count > 0 {
      FuelIrrelevant(mem, at, ZERO_ENTRY, fuel, more);
      var r := FlatField(mem, at, ZERO_ENTRY, fuel);
      if r.status == Success {
        ItemsFuel(mem, r.next, count - 1, fuel, more);
      }
    }
  }

  /** Two outcomes that differ at most in stale members of the first entry. */
  ghost predicate SameOutcome(r: Flat, r': Flat) {
    if r.Unfinished? then r'.Unfinished?
    else r'.Ended? && r'.status == r.status && r'.next == r.next && |r'.entries| == |r.entries|
  }

  /** How flattening ends does not depend on what the first struct held. */
  lemma {:induction false} ContentsIrrelevant(mem: seq<byte>, at: nat, e0: Entry, e1: Entry, fuel: nat)
    ensures SameOutcome(FlatField(mem, at, e0, fuel), FlatField(mem, at, e1, fuel))
    decreases fuel
  {
    hide DecodeSpec;
    DecodeIgnoresOldContents(mem, at, e0, e1);
    var d0, d1 := DecodeSpec(mem, at, e0).1, DecodeSpec(mem, at, e1).1;
    if fuel > 0 && DecodeSpec(mem, at, e0).0 == Success {
      SettledParts(d0, d1);
      if d0.typ == TYPE_POINTER {
        DecodedPointer(mem, at, e0);
        DecodedPointer(mem, at, e1);
        ChaseContents(mem, d0, d1, 0, fuel - 1);
        var c0, c1 := Chase(mem, d0, 0, fuel - 1), Chase(mem, d1, 0, fuel - 1);
        if c0.Chased? && c0.status == Success && IsContainer(c0.e.typ) {
          ContentsIrrelevant(mem, c0.last, c0.e, c1.e, c0.left);
        }
      }
    }
  }

  lemma {:induction false} ChaseContents(mem: seq<byte>, e0: Entry, e1: Entry, last: nat, fuel: nat)
    requires Settled(e0) == Settled(e1) && (e0.typ == TYPE_POINTER ==> e0.datum.Pointer? && e1.datum.Pointer?)
    requires e1.typ == TYPE_POINTER ==> e1.datum.Pointer?
    ensures var c0, c1 := Chase(mem, e0, last, fuel), Chase(mem, e1, last, fuel);
            if c0.StillChasing? then c1.StillChasing?
            else
              && c1.Chased? && c1.status == c0.status && c1.last == c0.last && c1.left == c0.left
              && (c0.status == Success ==> Settled(c0.e) == Settled(c1.e) && c0.e.typ == c1.e.typ)
    decreases fuel
  {
    hide DecodeSpec;
    SettledParts(e0, e1);
    if e0.typ == TYPE_POINTER && fuel > 0 {
      var at := e0.datum.target;
      DecodeIgnoresOldContents(mem, at, e0, e1);
      DecodedPointer(mem, at, e0);
      DecodedPointer(mem, at, e1);
      var d0, d1 := DecodeSpec(mem, at, e0).1, DecodeSpec(mem, at, e1).1;
      if DecodeSpec(mem, at, e0).0 == Success {
        SettledParts(d0, d1);
        ChaseContents(mem, d0, d1, at, fuel - 1);
      }
    }
  }

  // ----- where the items of a container lie -----

  /** The end of a field in its own stream.  No pointer is followed. */
  datatype Passed = Stuck | Past(next: nat)

  function PastField(mem: seq<byte>, at: nat, fuel: nat): Passed
    decreases fuel, 0
  {
    if fuel == 0 then Stuck
    else
      var (status, e) := DecodeSpec(mem, at, ZERO_ENTRY);
      if status != Success then Stuck
      else if IsContainer(e.typ) then PastItems(mem, e.offsetToNext, ItemCount(e), fuel - 1)
      else Past(e.offsetToNext)
  }

  function PastItems(mem: seq<byte>, at: nat, count: nat, fuel: nat): Passed
    decreases fuel, 1, count
  {
    if count == 0 then Past(at)
    else
      var r := PastField(mem, at, fuel);
      if r.Stuck? then Stuck else PastItems(mem, r.next, count - 1, fuel)
  }

  lemma {:induction false} PastFuel(mem: seq<byte>, at: nat, fuel: nat, more: nat)
    requires fuel <= more && PastField(mem, at, fuel).Past?
    ensures PastField(mem, at, more) == PastField(mem, at, fuel)
    decreases fuel, 0
  {
    hide DecodeSpec;
    var e := DecodeSpec(mem, at, ZERO_ENTRY).1;
    if IsContainer(e.typ) {
      PastItemsFuel(mem, e.offsetToNext, ItemCount(e), fuel - 1, more - 1);
    }
  }

  lemma {:induction false} PastItemsFuel(mem: seq<byte>, at: nat, count: nat, fuel: nat, more: nat)
    requires fuel <= more && PastItems(mem, at, count, fuel).Past?
    ensures PastItems(mem, at, count, more) == PastItems(mem, at, count, fuel)
    decreases fuel, 1, count
  {
    hide DecodeSpec;
    if count > 0 {
      PastFuel(mem, at, fuel, more);
      PastItemsFuel(mem, PastField(mem, at, fuel).next, count - 1, fuel, more);
    }
  }

  lemma {:induction false} PastOneMore(mem: seq<byte>, at: nat, count: nat, fuel: nat)
    requires PastItems(mem, at, count, fuel).Past?
    ensures PastItems(mem, at, count + 1, fuel) == PastField(mem, PastItems(mem, at, count, fuel).next, fuel)
    decreases count
  {
    hide DecodeSpec, PastField;
    if count > 0 {
      PastOneMore(mem, PastField(mem, at, fuel).next, count - 1, fuel);
    } else {
      var r := PastField(mem, at, fuel);
      assert r.Past? ==> PastItems(mem, r.next, 0, fuel) == r;
    }
  }

  /** A field that flattens is passed, and both ways of reading it end at the same place. */
  lemma {:induction false} FlatPasses(mem: seq<byte>, at: nat, fuel: nat)
    requires var r := FlatField(mem, at, ZERO_ENTRY, fuel); r.Ended? && r.status == Success
    ensures PastField(mem, at, fuel) == Past(FlatField(mem, at, ZERO_ENTRY, fuel).next)
    decreases fuel, 0
  {
    hide DecodeSpec;
    var e := DecodeSpec(mem, at, ZERO_ENTRY).1;
    if IsContainer(e.typ) {
      FlatItemsPass(mem, e.offsetToNext, ItemCount(e), fuel - 1);
    } else if e.typ == TYPE_POINTER {
      DecodedPointer(mem, at, ZERO_ENTRY);
    }
  }

  lemma {:induction false} FlatItemsPass(mem: seq<byte>, at: nat, count: nat, fuel: nat)
    requires var r := FlatItems(mem, at, count, fuel); r.Ended? && r.status == Success
    ensures PastItems(mem, at, count, fuel) == Past(FlatItems(mem, at, count, fuel).next)
    decreases fuel, 1, count
  {
    hide DecodeSpec, FlatField, PastField;
    if count > 0 {
      FlatPasses(mem, at, fuel);
      FlatItemsPass(mem, FlatField(mem, at, ZERO_ENTRY, fuel).next, count - 1, fuel);
    }
  }

  // ----- which fields lead to which -----

  /** A pointer field at `a` to `b`. */
  ghost predicate Hop(mem: seq<byte>, a: nat, b: nat) {
    var (status, e) := DecodeSpec(mem, a, ZERO_ENTRY);
    status == Success && e.typ == TYPE_POINTER && e.datum == Pointer(b)
  }

  /** Item number `k` of the container at `a` lies at `b`.  The items of a map are its keys and values in turn. */
  ghost predicate HasItem(mem: seq<byte>, a: nat, k: nat, b: nat) {
    var (status, e) := DecodeSpec(mem, a, ZERO_ENTRY);
    && status == Success && IsContainer(e.typ) && k < ItemCount(e)
    && exists fuel: nat :: PastItems(mem, e.offsetToNext, k, fuel) == Past(b)
  }

  ghost predicate Child(mem: seq<byte>, a: nat, b: nat) {
    Hop(mem, a, b) || exists k: nat :: HasItem(mem, a, k, b)
  }

  ghost function Children(mem: seq<byte>): Edges {
    iset a: nat, b: nat | Child(mem, a, b) :: (a, b)
  }

  /** Everything the field at `a` leads to can be decoded, and nothing on the way leads back to itself. */
  ghost predicate Sound(mem: seq<byte>, a: nat) {
    && NoLoop(Children(mem), a)
    && forall b: nat | Reaches(Children(mem), a, b) :: DecodeSpec(mem, b, ZERO_ENTRY).0 == Success
  }

  /** Flattening the field at `a` goes on to the field at `b`: a pointer to it, or a container with that item, whose
      earlier items are sound. */
  ghost predicate Expands(mem: seq<byte>, a: nat, b: nat) {
    Hop(mem, a, b) ||
    exists k: nat :: HasItem(mem, a, k, b) && forall j: nat, c: nat | j < k && HasItem(mem, a, j, c) :: Sound(mem, c)
  }

  ghost function Expansions(mem: seq<byte>): Edges {
    iset a: nat, b: nat | Expands(mem, a, b) :: (a, b)
  }

  ghost predicate Ends(mem: seq<byte>, at: nat) {
    exists fuel: nat :: FlatField(mem, at, ZERO_ENTRY, fuel).Ended?
  }

  ghost predicate EndsWell(mem: seq<byte>, at: nat) {
    exists fuel: nat :: Well(FlatField(mem, at, ZERO_ENTRY, fuel))
  }

  ghost predicate Well(r: Flat) {
    r.Ended? && r.status == Success
  }

  lemma FirstItem(mem: seq<byte>, a: nat)
    ensures var (status, e) := DecodeSpec(mem, a, ZERO_ENTRY);
            status == Success && IsContainer(e.typ) && ItemCount(e) > 0 ==> HasItem(mem, a, 0, e.offsetToNext)
  {
    hide DecodeSpec;
    assert PastItems(mem, DecodeSpec(mem, a, ZERO_ENTRY).1.offsetToNext, 0, 0).Past?;
  }

  lemma NextItem(mem: seq<byte>, a: nat, k: nat, b: nat, fuel: nat)
    requires HasItem(mem, a, k, b) && Well(FlatField(mem, b, ZERO_ENTRY, fuel))
    ensures k + 1 < ItemCount(DecodeSpec(mem, a, ZERO_ENTRY).1) ==>
              HasItem(mem, a, k + 1, FlatField(mem, b, ZERO_ENTRY, fuel).next)
  {
    hide DecodeSpec, FlatField, PastField, PastItems;
    var start := DecodeSpec(mem, a, ZERO_ENTRY).1.offsetToNext;
    var f: nat :| PastItems(mem, start, k, f) == Past(b);
    FlatPasses(mem, b, fuel);
    PastFuel(mem, b, fuel, fuel + f);
    PastItemsFuel(mem, start, k, f, fuel + f);
    PastOneMore(mem, start, k, fuel + f);
  }

  lemma Bounded(mem: seq<byte>)
    ensures LeavesBelow(Children(mem), |mem|) && LeavesBelow(Expansions(mem), |mem|)
  {
  }

  // ----- a pointer ends as its target does -----

  /** Flattening a pointer, one hop on. */
  lemma HopForward(mem: seq<byte>, e: Entry, fuel: nat)
    requires e.typ == TYPE_POINTER && e.datum.Pointer? && FlatPointer(mem, e, fuel).Ended?
    ensures fuel > 0
    ensures var r, r' := FlatPointer(mem, e, fuel), FlatField(mem, e.datum.target, e, fuel);
            r'.Ended? && r'.status == r.status && |r'.entries| == |r.entries|
  {
    hide DecodeSpec;
    var t := e.datum.target;
    var (status, e') := DecodeSpec(mem, t, e);
    DecodedPointer(mem, t, e);
    if status == Success && IsContainer(e'.typ) {
      assert Chase(mem, e, 0, fuel) == Chased(Success, e', t, fuel - 1);
      FuelIrrelevant(mem, t, e', fuel - 1, fuel);
      ContentsIrrelevant(mem, t, e, e', fuel);
    } else if status == Success && e'.typ == TYPE_POINTER {
      assert Chase(mem, e, 0, fuel) == Chase(mem, e', 0, fuel - 1);
      assert Chase(mem, e', t, fuel - 1) == Chase(mem, e', 0, fuel - 1);
    } else {
      assert Chase(mem, e, 0, fuel) == Chased(status, e', t, fuel - 1);
    }
  }

  lemma HopBack(mem: seq<byte>, e: Entry, fuel: nat)
    requires e.typ == TYPE_POINTER && e.datum.Pointer? && FlatField(mem, e.datum.target, e, fuel).Ended?
    ensures var r, r' := FlatPointer(mem, e, fuel + 1), FlatField(mem, e.datum.target, e, fuel);
            r.Ended? && r'.status == r.status && |r'.entries| == |r.entries|
  {
    hide DecodeSpec;
    var t := e.datum.target;
    var (status, e') := DecodeSpec(mem, t, e);
    DecodedPointer(mem, t, e);
    if status == Success && IsContainer(e'.typ) {
      assert Chase(mem, e, 0, fuel + 1) == Chased(Success, e', t, fuel);
      ContentsIrrelevant(mem, t, e, e', fuel);
    } else if status == Success && e'.typ == TYPE_POINTER {
      FuelIrrelevant(mem, t, e, fuel, fuel + 1);
    }
  }

  lemma HopDown(mem: seq<byte>, a: nat, b: nat, fuel: nat)
    requires Hop(mem, a, b) && FlatField(mem, a, ZERO_ENTRY, fuel).Ended?
    ensures fuel > 0
    ensures var r, r' := FlatField(mem, a, ZERO_ENTRY, fuel), FlatField(mem, b, ZERO_ENTRY, fuel - 1);
            r'.Ended? && r'.status == r.status && |r'.entries| == |r.entries|
  {
    hide DecodeSpec, FlatPointer;
    var e := DecodeSpec(mem, a, ZERO_ENTRY).1;
    HopForward(mem, e, fuel - 1);
    ContentsIrrelevant(mem, b, e, ZERO_ENTRY, fuel - 1);
  }

  lemma HopUp(mem: seq<byte>, a: nat, b: nat, fuel: nat)
    requires Hop(mem, a, b) && FlatField(mem, b, ZERO_ENTRY, fuel).Ended?
    ensures var r, r' := FlatField(mem, a, ZERO_ENTRY, fuel + 2), FlatField(mem, b, ZERO_ENTRY, fuel);
            r.Ended? && r'.status == r.status && |r'.entries| == |r.entries|
  {
    hide DecodeSpec, FlatPointer;
    var e := DecodeSpec(mem, a, ZERO_ENTRY).1;
    ContentsIrrelevant(mem, b, ZERO_ENTRY, e, fuel);
    HopBack(mem, e, fuel);
  }

  // ----- flattening that succeeds -----

  lemma PastAgree(mem: seq<byte>, at: nat, fuel: nat, fuel': nat)
    requires PastField(mem, at, fuel).Past? && PastField(mem, at, fuel').Past?
    ensures PastField(mem, at, fuel) == PastField(mem, at, fuel')
  {
    hide PastField;
    PastFuel(mem, at, fuel, fuel + fuel');
    PastFuel(mem, at, fuel', fuel + fuel');
  }

  lemma {:induction false} ItemWell(mem: seq<byte>, at: nat, count: nat, k: nat, b: nat, fuel: nat, fuel': nat)
    requires Well(FlatItems(mem, at, count, fuel)) && k < count && PastItems(mem, at, k, fuel') == Past(b)
    ensures Well(FlatField(mem, b, ZERO_ENTRY, fuel))
    decreases k
  {
    hide FlatField, PastField;
    if k > 0 {
      FlatPasses(mem, at, fuel);
      PastAgree(mem, at, fuel, fuel');
      ItemWell(mem, FlatField(mem, at, ZERO_ENTRY, fuel).next, count - 1, k - 1, b, fuel, fuel');
    }
  }

  lemma ChildWell(mem: seq<byte>, a: nat, b: nat, fuel: nat)
    requires Well(FlatField(mem, a, ZERO_ENTRY, fuel)) && Child(mem, a, b)
    ensures fuel > 0 && Well(FlatField(mem, b, ZERO_ENTRY, fuel - 1))
  {
    hide DecodeSpec;
    if Hop(mem, a, b) {
      HopDown(mem, a, b, fuel);
    } else {
      var k: nat :| HasItem(mem, a, k, b);
      var e := DecodeSpec(mem, a, ZERO_ENTRY).1;
      var fuel': nat :| PastItems(mem, e.offsetToNext, k, fuel') == Past(b);
      ItemWell(mem, e.offsetToNext, ItemCount(e), k, b, fuel - 1, fuel');
    }
  }

  /** The fuel each offset needs to flatten without an error. */
  ghost function WellRanks(mem: seq<byte>): Edges {
    iset a: nat, f: nat | Well(FlatField(mem, a, ZERO_ENTRY, f)) :: (a, f)
  }

  lemma WellIsSound(mem: seq<byte>, at: nat, fuel: nat)
    requires Well(FlatField(mem, at, ZERO_ENTRY, fuel))
    ensures Sound(mem, at)
  {
    hide FlatField, DecodeSpec, Child;
    var g, ranks := Children(mem), WellRanks(mem);
    forall a: nat, b: nat, f: nat | (a, f) in ranks && (a, b) in g ensures f > 0 && (b, f - 1) in ranks {
      ChildWell(mem, a, b, f);
    }
    RankedHasNoLoop(g, ranks, at, fuel);
    forall b: nat | Reaches(g, at, b) ensures DecodeSpec(mem, b, ZERO_ENTRY).0 == Success {
      var p: seq<nat> :| IsPath(g, p) && p[0] == at && p[|p| - 1] == b;
      RankAlong(g, ranks, p, fuel);
      WellDecodes(mem, b, fuel - (|p| - 1));
    }
  }

  lemma WellDecodes(mem: seq<byte>, at: nat, fuel: nat)
    requires Well(FlatField(mem, at, ZERO_ENTRY, fuel))
    ensures DecodeSpec(mem, at, ZERO_ENTRY).0 == Success
  {
    hide DecodeSpec;
  }

  /** The items of the container at `a` from number `k` on, which lies at `b`. */
  lemma {:induction false} ItemsEndWell(mem: seq<byte>, a: nat, k: nat, b: nat) returns (fuel: nat)
    requires var (status, e) := DecodeSpec(mem, a, ZERO_ENTRY);
             status == Success && IsContainer(e.typ) && k <= ItemCount(e)
    requires k < ItemCount(DecodeSpec(mem, a, ZERO_ENTRY).1) ==> HasItem(mem, a, k, b)
    requires forall j: nat, c: nat | HasItem(mem, a, j, c) :: EndsWell(mem, c)
    ensures Well(FlatItems(mem, b, ItemCount(DecodeSpec(mem, a, ZERO_ENTRY).1) - k, fuel))
    decreases ItemCount(DecodeSpec(mem, a, ZERO_ENTRY).1) - k
  {
    hide DecodeSpec, FlatField, HasItem;
    var count := ItemCount(DecodeSpec(mem, a, ZERO_ENTRY).1);
    fuel := 0;
    if k < count {
      assert EndsWell(mem, b);
      var f: nat :| Well(FlatField(mem, b, ZERO_ENTRY, f));
      NextItem(mem, a, k, b, f);
      var next := FlatField(mem, b, ZERO_ENTRY, f).next;
      var f' := ItemsEndWell(mem, a, k + 1, next);
      fuel := f + f';
      FuelIrrelevant(mem, b, ZERO_ENTRY, f, fuel);
      ItemsFuel(mem, next, count - (k + 1), f', fuel);
    }
  }

  /** A field that decodes flattens without an error when everything it leads to does. */
  lemma WellStep(mem: seq<byte>, a: nat)
    requires DecodeSpec(mem, a, ZERO_ENTRY).0 == Success
    requires forall b: nat | Child(mem, a, b) :: EndsWell(mem, b)
    ensures EndsWell(mem, a)
  {
    hide DecodeSpec, HasItem;
    var e := DecodeSpec(mem, a, ZERO_ENTRY).1;
    if e.typ == TYPE_POINTER {
      DecodedPointer(mem, a, ZERO_ENTRY);
      var t := e.datum.target;
      assert Child(mem, a, t);
      var f: nat :| Well(FlatField(mem, t, ZERO_ENTRY, f));
      HopUp(mem, a, t, f);
    } else if IsContainer(e.typ) {
      FirstItem(mem, a);
      forall j: nat, c: nat | HasItem(mem, a, j, c) ensures EndsWell(mem, c) {
        assert Child(mem, a, c);
      }
      var f := ItemsEndWell(mem, a, 0, e.offsetToNext);
      assert Well(FlatField(mem, a, ZERO_ENTRY, f + 1));
    } else {
      assert Well(FlatField(mem, a, ZERO_ENTRY, 1));
    }
  }

  /** What lies at a position that has a finite layout is sound. */
  lemma LayoutsAreSound(mem: seq<byte>, at: nat, d: Layout)
    requires |mem| < U32_RANGE && WellFormed(mem, at, d)
    ensures Sound(mem, at)
  {
    hide Sound, WellFormed, FlatField;
    FlattensToPreorder(mem, at, d, ZERO_ENTRY, Weight(d));
    WellIsSound(mem, at, Weight(d));
  }

  ghost function WellIfDecodable(mem: seq<byte>): iset<nat> {
    iset a: nat | (forall b: nat | Reaches(Children(mem), a, b) :: DecodeSpec(mem, b, ZERO_ENTRY).0 == Success)
                    ==> EndsWell(mem, a)
  }

  /** When flattening succeeds, on any bytes: everything the field leads to can be decoded, and nothing on the way leads
      back to itself. */
  lemma EndsWellExactly(mem: seq<byte>, at: nat)
    ensures EndsWell(mem, at) <==> Sound(mem, at)
  {
    hide FlatField, DecodeSpec, Child;
    if EndsWell(mem, at) {
      var fuel: nat :| Well(FlatField(mem, at, ZERO_ENTRY, fuel));
      WellIsSound(mem, at, fuel);
    }
    if Sound(mem, at) {
      var g, good := Children(mem), WellIfDecodable(mem);
      forall a: nat | (forall b: nat | (a, b) in g :: b in good) ensures a in good {
        if forall b: nat | Reaches(g, a, b) :: DecodeSpec(mem, b, ZERO_ENTRY).0 == Success {
          ReachesSelf(g, a);
          forall b: nat | Child(mem, a, b) ensures EndsWell(mem, b) {
            assert (a, b) in g;
            forall c: nat | Reaches(g, b, c) ensures DecodeSpec(mem, c, ZERO_ENTRY).0 == Success {
              ReachesBehind(g, a, b, c);
            }
          }
          WellStep(mem, a);
        }
      }
      Bounded(mem);
      assert IsPath(g, [at]);
      LoopFreeInduction(g, good, |mem|, [at]);
    }
  }

  // ----- flattening that ends, well or not -----

  lemma {:induction false} ItemEnds(mem: seq<byte>, at: nat, count: nat, k: nat, b: nat, fuel: nat, fuel': nat)
    requires FlatItems(mem, at, count, fuel).Ended? && k < count && PastItems(mem, at, k, fuel') == Past(b)
    requires forall j: nat, c: nat, f: nat | j < k && PastItems(mem, at, j, f) == Past(c) :: EndsWell(mem, c)
    ensures FlatField(mem, b, ZERO_ENTRY, fuel).Ended?
    decreases k
  {
    hide FlatField, PastField;
    if k > 0 {
      assert PastItems(mem, at, 0, 0) == Past(at);
      var f: nat :| Well(FlatField(mem, at, ZERO_ENTRY, f));
      FlatAgrees(mem, at, fuel, f);
      FlatPasses(mem, at, fuel);
      PastAgree(mem, at, fuel, fuel');
      var next := FlatField(mem, at, ZERO_ENTRY, fuel).next;
      forall j: nat, c: nat, f: nat | j < k - 1 && PastItems(mem, next, j, f) == Past(c) ensures EndsWell(mem, c) {
        PastItemsFuel(mem, next, j, f, fuel + f);
        PastFuel(mem, at, fuel, fuel + f);
        assert PastItems(mem, at, j + 1, fuel + f) == Past(c);
      }
      ItemEnds(mem, next, count - 1, k - 1, b, fuel, fuel');
    }
  }

  lemma FlatAgrees(mem: seq<byte>, at: nat, fuel: nat, fuel': nat)
    requires FlatField(mem, at, ZERO_ENTRY, fuel).Ended? && FlatField(mem, at, ZERO_ENTRY, fuel').Ended?
    ensures FlatField(mem, at, ZERO_ENTRY, fuel) == FlatField(mem, at, ZERO_ENTRY, fuel')
  {
    hide FlatField;
    FuelIrrelevant(mem, at, ZERO_ENTRY, fuel, fuel + fuel');
    FuelIrrelevant(mem, at, ZERO_ENTRY, fuel', fuel + fuel');
  }

  lemma ExpansionEnds(mem: seq<byte>, a: nat, b: nat, fuel: nat)
    requires FlatField(mem, a, ZERO_ENTRY, fuel).Ended? && Expands(mem, a, b)
    ensures fuel > 0 && FlatField(mem, b, ZERO_ENTRY, fuel - 1).Ended?
  {
    hide DecodeSpec, Sound;
    if Hop(mem, a, b) {
      HopDown(mem, a, b, fuel);
    } else {
      var k: nat :| HasItem(mem, a, k, b) && forall j: nat, c: nat | j < k && HasItem(mem, a, j, c) :: Sound(mem, c);
      var e := DecodeSpec(mem, a, ZERO_ENTRY).1;
      var fuel': nat :| PastItems(mem, e.offsetToNext, k, fuel') == Past(b);
      forall j: nat, c: nat, f: nat | j < k && PastItems(mem, e.offsetToNext, j, f) == Past(c)
        ensures EndsWell(mem, c)
      {
        assert HasItem(mem, a, j, c);
        EndsWellExactly(mem, c);
      }
      ItemEnds(mem, e.offsetToNext, ItemCount(e), k, b, fuel - 1, fuel');
    }
  }

  /** The items of the container at `a` from number `k` on, which lies at `b`, when the earlier ones flatten. */
  lemma {:induction false} ItemsEnd(mem: seq<byte>, a: nat, k: nat, b: nat) returns (fuel: nat)
    requires var (status, e) := DecodeSpec(mem, a, ZERO_ENTRY);
             status == Success && IsContainer(e.typ) && k <= ItemCount(e)
    requires k < ItemCount(DecodeSpec(mem, a, ZERO_ENTRY).1) ==> HasItem(mem, a, k, b)
    requires forall j: nat, c: nat | j < k && HasItem(mem, a, j, c) :: Sound(mem, c)
    requires forall c: nat | Expands(mem, a, c) :: Ends(mem, c)
    ensures FlatItems(mem, b, ItemCount(DecodeSpec(mem, a, ZERO_ENTRY).1) - k, fuel).Ended?
    decreases ItemCount(DecodeSpec(mem, a, ZERO_ENTRY).1) - k
  {
    hide DecodeSpec, FlatField, HasItem, Sound;
    var count := ItemCount(DecodeSpec(mem, a, ZERO_ENTRY).1);
    fuel := 0;
    if k < count {
      assert Expands(mem, a, b);
      var f: nat :| FlatField(mem, b, ZERO_ENTRY, f).Ended?;
      fuel := f;
      var r := FlatField(mem, b, ZERO_ENTRY, f);
      if r.status == Success {
        assert Well(r);
        EndsWellExactly(mem, b);
        NextItem(mem, a, k, b, f);
        forall c: nat | HasItem(mem, a, k, c) ensures Sound(mem, c) {
          ItemUnique(mem, a, k, b, c);
        }
        var f' := ItemsEnd(mem, a, k + 1, r.next);
        fuel := f + f';
        FuelIrrelevant(mem, b, ZERO_ENTRY, f, fuel);
        ItemsFuel(mem, r.next, count - (k + 1), f', fuel);
      }
    }
  }

  lemma ItemUnique(mem: seq<byte>, a: nat, k: nat, b: nat, c: nat)
    requires HasItem(mem, a, k, b) && HasItem(mem, a, k, c)
    ensures b == c
  {
    hide DecodeSpec, PastItems;
    var start := DecodeSpec(mem, a, ZERO_ENTRY).1.offsetToNext;
    var f: nat :| PastItems(mem, start, k, f) == Past(b);
    var f': nat :| PastItems(mem, start, k, f') == Past(c);
    PastItemsFuel(mem, start, k, f, f + f');
    PastItemsFuel(mem, start, k, f', f + f');
  }

  lemma EndStep(mem: seq<byte>, a: nat)
    requires forall b: nat | Expands(mem, a, b) :: Ends(mem, b)
    ensures Ends(mem, a)
  {
    hide DecodeSpec, HasItem;
    var (status, e) := DecodeSpec(mem, a, ZERO_ENTRY);
    if status == Success && e.typ == TYPE_POINTER {
      DecodedPointer(mem, a, ZERO_ENTRY);
      var t := e.datum.target;
      assert Expands(mem, a, t);
      var f: nat :| FlatField(mem, t, ZERO_ENTRY, f).Ended?;
      HopUp(mem, a, t, f);
    } else if status == Success && IsContainer(e.typ) {
      FirstItem(mem, a);
      var f := ItemsEnd(mem, a, 0, e.offsetToNext);
      assert FlatField(mem, a, ZERO_ENTRY, f + 1).Ended?;
    } else {
      assert FlatField(mem, a, ZERO_ENTRY, 1).Ended?;
    }
  }

  ghost function EndRanks(mem: seq<byte>): Edges {
    iset a: nat, f: nat | FlatField(mem, a, ZERO_ENTRY, f).Ended? :: (a, f)
  }

  /** When flattening comes to an end, in success or on bad data, on any bytes: exactly when none of the fields it
      goes on to from `at` leads back to itself. */
  lemma EndsExactly(mem: seq<byte>, at: nat)
    ensures Ends(mem, at) <==> NoLoop(Expansions(mem), at)
  {
    hide FlatField, DecodeSpec, Expands, NoLoop;
    var g, ranks := Expansions(mem), EndRanks(mem);
    if Ends(mem, at) {
      var fuel: nat :| FlatField(mem, at, ZERO_ENTRY, fuel).Ended?;
      forall a: nat, b: nat, f: nat | (a, f) in ranks && (a, b) in g ensures f > 0 && (b, f - 1) in ranks {
        ExpansionEnds(mem, a, b, f);
      }
      RankedHasNoLoop(g, ranks, at, fuel);
    }
    if NoLoop(g, at) {
      var good := iset a: nat | Ends(mem, a);
      forall a: nat | (forall b: nat | (a, b) in g :: b in good) ensures a in good {
        forall b: nat | Expands(mem, a, b) ensures Ends(mem, b) {
          assert (a, b) in g;
        }
        EndStep(mem, a);
      }
      Bounded(mem);
      assert IsPath(g, [at]);
      LoopFreeInduction(g, good, |mem|, [at]);
    }
  }

  // ----- chains of pointers -----

  ghost function Hops(mem: seq<byte>): Edges {
    iset a: nat, b: nat | Hop(mem, a, b) :: (a, b)
  }

  /** The loop that follows the pointer in `e` comes to an end. */
  ghost predicate ChainEnds(mem: seq<byte>, e: Entry)
    requires e.typ == TYPE_POINTER ==> e.datum.Pointer?
  {
    exists fuel: nat :: Chase(mem, e, 0, fuel).Chased?
  }

  /** The chain of pointers from the field at `a`, if there is one, comes to an end within so many steps. */
  ghost predicate ChainFrom(mem: seq<byte>, a: nat, fuel: nat) {
    var (status, e) := DecodeSpec(mem, a, ZERO_ENTRY);
    status == Success && e.typ == TYPE_POINTER ==> e.datum.Pointer? && Chase(mem, e, 0, fuel).Chased?
  }

  lemma ChainStep(mem: seq<byte>, a: nat, b: nat, fuel: nat)
    requires Hop(mem, a, b)
    ensures ChainFrom(mem, a, fuel) <==> fuel > 0 && ChainFrom(mem, b, fuel - 1)
  {
    hide DecodeSpec;
    var e := DecodeSpec(mem, a, ZERO_ENTRY).1;
    DecodedPointer(mem, b, e);
    DecodedPointer(mem, b, ZERO_ENTRY);
    DecodeIgnoresOldContents(mem, b, e, ZERO_ENTRY);
    var e0, e1 := DecodeSpec(mem, b, e).1, DecodeSpec(mem, b, ZERO_ENTRY).1;
    if DecodeSpec(mem, b, e).0 == Success && fuel > 0 {
      SettledParts(e0, e1);
      if e1.typ == TYPE_POINTER {
        ChaseContents(mem, e0, e1, 0, fuel - 1);
        assert Chase(mem, e0, 0, fuel - 1).Chased? == Chase(mem, e0, b, fuel - 1).Chased?;
      } else {
        assert Chase(mem, e0, b, fuel - 1).Chased?;
      }
    }
  }

  ghost predicate ChainEndsFrom(mem: seq<byte>, a: nat) {
    exists fuel: nat :: ChainFrom(mem, a, fuel)
  }

  ghost function ChainRanks(mem: seq<byte>): Edges {
    iset a: nat, f: nat | ChainFrom(mem, a, f) :: (a, f)
  }

  /** Following pointers comes to an end exactly when the pointers do not form a cycle. */
  lemma ChainEndsExactly(mem: seq<byte>, at: nat)
    ensures ChainEndsFrom(mem, at) <==> NoLoop(Hops(mem), at)
  {
    hide DecodeSpec, Hop, ChainFrom, NoLoop;
    var g, ranks := Hops(mem), ChainRanks(mem);
    if ChainEndsFrom(mem, at) {
      var fuel: nat :| ChainFrom(mem, at, fuel);
      forall a: nat, b: nat, f: nat | (a, f) in ranks && (a, b) in g ensures f > 0 && (b, f - 1) in ranks {
        ChainStep(mem, a, b, f);
      }
      RankedHasNoLoop(g, ranks, at, fuel);
    }
    if NoLoop(g, at) {
      var good := iset a: nat | ChainEndsFrom(mem, a);
      forall a: nat | (forall b: nat | (a, b) in g :: b in good) ensures a in good {
        forall b: nat | Hop(mem, a, b) ensures ChainEndsFrom(mem, b) {
          assert (a, b) in g;
        }
        ChainGood(mem, a);
      }
      HopsBounded(mem);
      assert IsPath(g, [at]);
      LoopFreeInduction(g, good, |mem|, [at]);
    }
  }

  lemma HopsBounded(mem: seq<byte>)
    ensures LeavesBelow(Hops(mem), |mem|)
  {
  }

  lemma ChainGood(mem: seq<byte>, a: nat)
    requires forall b: nat | Hop(mem, a, b) :: ChainEndsFrom(mem, b)
    ensures ChainEndsFrom(mem, a)
  {
    hide DecodeSpec, Chase;
    var (status, e) := DecodeSpec(mem, a, ZERO_ENTRY);
    if status == Success && e.typ == TYPE_POINTER {
      DecodedPointer(mem, a, ZERO_ENTRY);
      var b := e.datum.target;
      assert Hop(mem, a, b);
      var f: nat :| ChainFrom(mem, b, f);
      ChainStep(mem, a, b, f + 1);
    } else {
      assert ChainFrom(mem, a, 0);
    }
  }
}
