/**
  Paths and loops in a directed graph over offsets.
 */
module Graph {

  type Edges = iset<(nat, nat)>

  /** A nonempty sequence of offsets, each with an edge to the next. */
  ghost predicate IsPath(g: Edges, p: seq<nat>) {
    p != [] && forall i | 0 <= i < |p| - 1 :: (p[i], p[i + 1]) in g
  }

  ghost predicate NoRepeats(p: seq<nat>) {
    forall i, j | 0 <= i < j < |p| :: p[i] != p[j]
  }

  /** No offset that can be reached from `a` reaches itself again. */
  ghost predicate NoLoop(g: Edges, a: nat) {
    forall p: seq<nat> | IsPath(g, p) && p[0] == a :: NoRepeats(p)
  }

  ghost predicate Reaches(g: Edges, a: nat, b: nat) {
    exists p: seq<nat> :: IsPath(g, p) && p[0] == a && p[|p| - 1] == b
  }

  /** Only offsets below `n` have edges leaving them. */
  ghost predicate LeavesBelow(g: Edges, n: nat) {
    forall a: nat, b: nat | (a, b) in g :: a < n
  }

  lemma ReachesSelf(g: Edges, a: nat)
    ensures Reaches(g, a, a)
  {
    assert IsPath(g, [a]);
  }

  lemma ReachesBehind(g: Edges, a: nat, b: nat, c: nat)
    requires (a, b) in g && Reaches(g, b, c)
    ensures Reaches(g, a, c)
  {
    var p: seq<nat> :| IsPath(g, p) && p[0] == b && p[|p| - 1] == c;
    assert IsPath(g, [a] + p);
  }

  lemma ReachesThrough(g: Edges, a: nat, b: nat, c: nat)
    requires Reaches(g, a, b) && Reaches(g, b, c)
    ensures Reaches(g, a, c)
  {
    var p: seq<nat> :| IsPath(g, p) && p[0] == a && p[|p| - 1] == b;
    var q: seq<nat> :| IsPath(g, q) && q[0] == b && q[|q| - 1] == c;
    var whole := p + q[1..];
    forall i | 0 <= i < |whole| - 1 ensures (whole[i], whole[i + 1]) in g {
      if i >= |p| - 1 {
        assert (q[i - (|p| - 1)], q[i - (|p| - 1) + 1]) in g;
      }
    }
    assert IsPath(g, whole);
  }

  /** The numbers below n. */
  ghost function Numbers(n: nat): (s: set<nat>)
    ensures |s| == n && forall i: nat :: i in s <==> i < n
  {
    if n == 0 then {} else Numbers(n - 1) + {n - 1}
  }

  lemma {:induction false} Pigeonhole(p: seq<nat>, n: nat)
    requires NoRepeats(p) && forall i | 0 <= i < |p| :: p[i] < n
    ensures |p| <= n
  {
    CountsDistinct(p);
    SubsetSize(set i | 0 <= i < |p| :: p[i], Numbers(n));
  }

  lemma {:induction false} CountsDistinct(p: seq<nat>)
    requires NoRepeats(p)
    ensures |set i | 0 <= i < |p| :: p[i]| == |p|
  {
    if p != [] {
      var last := |p| - 1;
      CountsDistinct(p[..last]);
      assert (set i | 0 <= i < |p| :: p[i]) == (set i | 0 <= i < last :: p[..last][i]) + {p[last]};
    }
  }

  lemma {:induction false} SubsetSize(a: set<nat>, b: set<nat>)
    requires a <= b
    ensures |a| <= |b|
  {
    if a != {} {
      var x :| x in a;
      SubsetSize(a - {x}, b - {x});
    }
  }

  lemma PathIsShort(g: Edges, n: nat, p: seq<nat>)
    requires LeavesBelow(g, n) && IsPath(g, p) && NoRepeats(p)
    ensures |p| <= n + 1
  {
    forall i | 0 <= i < |p| - 1 ensures p[i] < n {
      assert (p[i], p[i + 1]) in g;
    }
    Pigeonhole(p[..|p| - 1], n);
  }

  ghost predicate Progressive(g: Edges, good: iset<nat>) {
    forall a: nat | (forall b: nat | (a, b) in g :: b in good) :: a in good
  }

  /** Induction along the edges: what holds of an offset whenever it holds of all its successors holds where there is no
      loop.  `p` is the way there. */
  lemma {:induction false} LoopFreeInduction(g: Edges, good: iset<nat>, n: nat, p: seq<nat>)
    requires LeavesBelow(g, n) && IsPath(g, p) && NoLoop(g, p[0]) && Progressive(g, good)
    ensures p[|p| - 1] in good
    decreases n + 1 - |p|
  {
    hide LeavesBelow, Progressive, NoLoop;
    var a := p[|p| - 1];
    forall b: nat | (a, b) in g ensures b in good {
      assert IsPath(g, p + [b]);
      assert NoRepeats(p + [b]) by { NoRepeatsOn(g, p + [b]); }
      PathIsShort(g, n, p + [b]);
      LoopFreeInduction(g, good, n, p + [b]);
    }
    Progress(g, good, a);
  }

  lemma NoRepeatsOn(g: Edges, p: seq<nat>)
    requires IsPath(g, p) && NoLoop(g, p[0])
    ensures NoRepeats(p)
  {
  }

  lemma Progress(g: Edges, good: iset<nat>, a: nat)
    requires Progressive(g, good) && forall b: nat | (a, b) in g :: b in good
    ensures a in good
  {
  }

  /** A number of steps that suffices for an offset, and one less for its successors. */
  ghost predicate Ranked(g: Edges, ranks: Edges) {
    forall a: nat, b: nat, f: nat | (a, f) in ranks && (a, b) in g :: f > 0 && (b, f - 1) in ranks
  }

  lemma {:induction false} RankAlong(g: Edges, ranks: Edges, p: seq<nat>, f: nat)
    requires Ranked(g, ranks) && IsPath(g, p) && (p[0], f) in ranks
    ensures |p| - 1 <= f && (p[|p| - 1], f - (|p| - 1)) in ranks
    decreases |p|
  {
    if |p| > 1 {
      assert (p[0], p[0 + 1]) in g;
      assert IsPath(g, p[1..]) by {
        forall i | 0 <= i < |p| - 2 ensures (p[1..][i], p[1..][i + 1]) in g {
          assert (p[i + 1], p[i + 1 + 1]) in g;
        }
      }
      RankAlong(g, ranks, p[1..], f - 1);
    }
  }

  lemma {:induction false} LoopHasNoRank(g: Edges, ranks: Edges, p: seq<nat>, f: nat)
    requires Ranked(g, ranks) && IsPath(g, p) && |p| > 1 && p[0] == p[|p| - 1]
    ensures (p[0], f) !in ranks
    decreases f
  {
    if (p[0], f) in ranks {
      RankAlong(g, ranks, p, f);
      LoopHasNoRank(g, ranks, p, f - (|p| - 1));
    }
  }

  lemma RankedHasNoLoop(g: Edges, ranks: Edges, a: nat, f: nat)
    requires Ranked(g, ranks) && (a, f) in ranks
    ensures NoLoop(g, a)
  {
    forall p: seq<nat> | IsPath(g, p) && p[0] == a ensures NoRepeats(p) {
      forall i, j | 0 <= i < j < |p| ensures p[i] != p[j] {
        assert IsPath(g, p[..i + 1]);
        RankAlong(g, ranks, p[..i + 1], f);
        if p[i] == p[j] {
          var loop := p[i..j + 1];
          assert IsPath(g, loop) by {
            forall k | 0 <= k < |loop| - 1 ensures (loop[k], loop[k + 1]) in g {
              assert (p[i + k], p[i + k + 1]) in g;
            }
          }
          LoopHasNoRank(g, ranks, loop, f - i);
        }
      }
    }
  }
}
