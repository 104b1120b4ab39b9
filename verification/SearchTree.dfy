/**
  The binary search tree over the bits of an address: the descent, the IPv4 start node, and the answer of a lookup.
 */
module SearchTree {
  import opened Bytes

  /** The two records of a node. */
  datatype Node = Node(left: nat, right: nat)

  /** The nodes of the tree, by number.  A record below the node count is a node number. */
  type Tree = seq<Node>

  type Bits = seq<bool>

  function Record(n: Node, bit: bool): nat {
    if bit then n.right else n.left
  }

  /** How a descent ends: at a record that is no node, after so many bits; at a zero record; or out of bits. */
  datatype End = Leaf(record: nat, depth: nat) | ZeroRecord | OutOfBits

  /** The search lookup algorithm, from node `v` with `at` bits used. */
  function Walk(t: Tree, v: nat, bits: Bits, at: nat): (end: End)
    requires v < |t| && at <= |bits|
    ensures end.Leaf? ==> at < end.depth <= |bits| && |t| <= end.record
    decreases |bits| - at
  {
    if at == |bits| then OutOfBits
    else
      var r := Record(t[v], bits[at]);
      if r == 0 then ZeroRecord else if r >= |t| then Leaf(r, at + 1) else Walk(t, r, bits, at + 1)
  }

  // ----- lookup results -----

  /** MMDB_lookup_result_s, without the handle it repeats. */
  datatype LookupResult = LookupResult(foundEntry: bool, offset: nat, netmask: nat)

  const NO_RESULT := LookupResult(false, 0, 0)

  /** populate_result: `netmask` is subtracted from the depth of the tree, in 16 bits. */
  function Populate(nodeCount: nat, dataSize: nat, depth: nat, value: nat, netmask: nat): (Status, LookupResult) {
    var offset := (value - nodeCount) % U32_RANGE;
    if offset > dataSize then (CorruptSearchTree, NO_RESULT)
    else (Success, LookupResult(offset > 0, offset, (depth - netmask) % U16_RANGE))
  }

  /** What a lookup answers for a descent that ended so. */
  function Answer(nodeCount: nat, dataSize: nat, end: End): (Status, LookupResult) {
    match end
    case Leaf(record, depth) =>
      var offset := (record - nodeCount) % U32_RANGE;
      if offset > dataSize then (CorruptSearchTree, NO_RESULT)
      else (Success, LookupResult(offset > 0, offset, depth))
    case _ => (CorruptSearchTree, NO_RESULT)
  }

  /** Whether a descent that ended so is answered with corruption. */
  predicate Corrupt(nodeCount: nat, dataSize: nat, end: End) {
    match end
    case Leaf(record, _) => (record - nodeCount) % U32_RANGE > dataSize
    case _ => true
  }

  /** Lookup by the plain descent from the root. */
  function Lookup(t: Tree, dataSize: nat, bits: Bits): (Status, LookupResult)
    requires t != []
  {
    Answer(|t|, dataSize, Walk(t, 0, bits, 0))
  }

  /** What a search reads at its i-th node: the next node, or at the last one the record it ends with. */
  function ReadNext(path: seq<nat>, record: nat, i: nat): nat {
    if i + 1 < |path| then path[i + 1] else record
  }

  /** The i-th node of a search, and what is read there. */
  ghost predicate VisitAt(t: Tree, bits: Bits, path: seq<nat>, record: nat, i: nat)
    requires i < |path| && i < |bits|
  {
    path[i] < |t| && (i > 0 ==> path[i] != 0) && Record(t[path[i]], bits[i]) == ReadNext(path, record, i)
  }

  /** The descent from node `v` as the nodes it visits and the record it ends with. */
  lemma {:induction false} SearchPath(t: Tree, v: nat, bits: Bits) returns (path: seq<nat>, record: nat)
    requires v < |t| && bits != []
    ensures 0 < |path| <= |bits| && path[0] == v && forall i | 0 <= i < |path| :: VisitAt(t, bits, path, record, i)
    ensures record == 0 || record >= |t| || |path| == |bits|
    ensures Walk(t, v, bits, 0) ==
              if record == 0 then ZeroRecord else if record >= |t| then Leaf(record, |path|) else OutOfBits
    decreases |bits|
  {
    hide VisitAt;
    path, record := [v], Record(t[v], bits[0]);
    if 0 < record < |t| && |bits| > 1 {
      var rest, next := path, record;
      rest, record := SearchPath(t, next, bits[1..]);
      WalkLater(t, next, bits, 1);
      path := [v] + rest;
      forall i | 0 < i < |path| ensures VisitAt(t, bits, path, record, i) {
        VisitBehind(t, bits, rest, record, v, i - 1);
      }
    }
    FirstVisit(t, bits, path, record);
  }

  lemma FirstVisit(t: Tree, bits: Bits, path: seq<nat>, record: nat)
    requires path != [] && bits != [] && path[0] < |t| && Record(t[path[0]], bits[0]) == ReadNext(path, record, 0)
    ensures VisitAt(t, bits, path, record, 0)
  {
  }

  lemma VisitBehind(t: Tree, bits: Bits, rest: seq<nat>, record: nat, v: nat, i: nat)
    requires i < |rest| && i + 1 < |bits| && rest[0] != 0 && VisitAt(t, bits[1..], rest, record, i)
    ensures VisitAt(t, bits, [v] + rest, record, i + 1)
  {
  }

  /** A descent that begins after the first `n` bits is one over the other bits, with its depth counted from there. */
  lemma {:induction false} WalkLater(t: Tree, v: nat, bits: Bits, at: nat)
    requires v < |t| && 0 < at <= |bits|
    ensures Walk(t, v, bits, at) == match Walk(t, v, bits[1..], at - 1)
                                    case Leaf(record, depth) => Leaf(record, depth + 1)
                                    case end => end
    decreases |bits| - at
  {
    if at < |bits| {
      var r := Record(t[v], bits[at]);
      if 0 < r < |t| {
        WalkLater(t, r, bits, at + 1);
      }
    }
  }

  // ----- netmask soundness -----

  /** Every address that shares the first `depth` bits ends at the same record after the same number of bits. */
  lemma {:induction false} WalkDependsOnPrefix(t: Tree, v: nat, bits: Bits, bits': Bits, at: nat)
    requires v < |t| && at <= |bits| == |bits'|
    requires var end := Walk(t, v, bits, at); end.Leaf? && bits[..end.depth] == bits'[..end.depth]
    ensures Walk(t, v, bits', at) == Walk(t, v, bits, at)
    decreases |bits| - at
  {
    var end := Walk(t, v, bits, at);
    assert bits[at] == bits[..end.depth][at] == bits'[at];
    var r := Record(t[v], bits[at]);
    if 0 < r < |t| {
      WalkDependsOnPrefix(t, r, bits, bits', at + 1);
    }
  }

  /** Netmask soundness for lookups from the root. */
  lemma NetmaskSound(t: Tree, dataSize: nat, bits: Bits, bits': Bits)
    requires t != [] && |bits| == |bits'|
    requires var (status, result) := Lookup(t, dataSize, bits);
             status == Success && result.netmask <= |bits| && bits[..result.netmask] == bits'[..result.netmask]
    ensures Lookup(t, dataSize, bits') == Lookup(t, dataSize, bits)
  {
    WalkDependsOnPrefix(t, 0, bits, bits', 0);
  }

  // ----- the IPv4 start node -----

  /** MMDB_ipv4_start_node_s. */
  datatype StartNode = StartNode(nodeValue: nat, netmask: nat)

  /** The loop of find_ipv4_start_node from node `v` after `i` left steps.  It checks for no zero record. */
  function StartFrom(t: Tree, v: nat, i: nat): (s: StartNode)
    requires v < |t| && i <= 96
    ensures i <= s.netmask <= 96 && (s.netmask == 96 <==> s.nodeValue < |t|)
    decreases 96 - i
  {
    if i == 96 then StartNode(v, 96)
    else if t[v].left >= |t| then StartNode(t[v].left, i)
    else StartFrom(t, t[v].left, i + 1)
  }

  /** The answer find_ipv4_start_node computes from the file. */
  function FreshStart(t: Tree): StartNode
    requires t != []
  {
    StartFrom(t, 0, 0)
  }

  /** No zero record on the first 96 left steps. */
  predicate NoZeroOnLeft(t: Tree, v: nat, i: nat)
    requires v < |t| && i <= 96
    decreases 96 - i
  {
    i == 96 || (t[v].left != 0 && (t[v].left < |t| ==> NoZeroOnLeft(t, t[v].left, i + 1)))
  }

  /** ::a.b.c.d, 96 zero bits and the 32 bits of the IPv4 address. */
  predicate IsMapped(bits: Bits) {
    |bits| == 128 && forall k | 0 <= k < 96 :: !bits[k]
  }

  /** What find_address_in_search_tree does for AF_INET in an IPv6 database, given what it sees of the cache. */
  function LookupFrom(t: Tree, dataSize: nat, start: StartNode, bits: Bits): (Status, LookupResult)
    requires |bits| == 128 && start.netmask <= 96
  {
    if start.nodeValue >= |t| then Populate(|t|, dataSize, 128, start.nodeValue, start.netmask)
    else Answer(|t|, dataSize, Walk(t, start.nodeValue, bits, start.netmask))
  }

  lemma {:induction false} StartFollowsWalk(t: Tree, v: nat, i: nat, bits: Bits)
    requires v < |t| && i <= 96 && IsMapped(bits) && NoZeroOnLeft(t, v, i)
    ensures var s := StartFrom(t, v, i);
            Walk(t, v, bits, i) ==
              if s.nodeValue < |t| then Walk(t, s.nodeValue, bits, 96) else Leaf(s.nodeValue, s.netmask + 1)
    decreases 96 - i
  {
    if i < 96 {
      assert !bits[i];
      if t[v].left < |t| {
        StartFollowsWalk(t, t[v].left, i + 1, bits);
      }
    }
  }

  /** The shortcut refines the plain descent: without a zero record on the way it gives the same status, found_entry and
      offset, and on success the same netmask exactly when the start node is a node of the tree. */
  lemma ShortcutRefinesDescent(t: Tree, dataSize: nat, bits: Bits)
    requires t != [] && IsMapped(bits) && NoZeroOnLeft(t, 0, 0)
    ensures var (status, result) := LookupFrom(t, dataSize, FreshStart(t), bits);
            var (status', result') := Lookup(t, dataSize, bits);
            && status == status' && result.foundEntry == result'.foundEntry && result.offset == result'.offset
            && (status == Success ==> (result.netmask == result'.netmask <==> FreshStart(t).nodeValue < |t|))
  {
    StartFollowsWalk(t, 0, 0, bits);
  }

  /** The early-out of the shortcut reports 128 - i where the descent reports i + 1. */
  lemma EarlyOutNetmask(t: Tree, dataSize: nat, bits: Bits)
    requires t != [] && IsMapped(bits) && NoZeroOnLeft(t, 0, 0) && FreshStart(t).nodeValue >= |t|
    requires Lookup(t, dataSize, bits).0 == Success
    ensures LookupFrom(t, dataSize, FreshStart(t), bits).1.netmask == 128 - FreshStart(t).netmask
    ensures Lookup(t, dataSize, bits).1.netmask == FreshStart(t).netmask + 1
  {
    StartFollowsWalk(t, 0, 0, bits);
  }

  /** A tree of one node without data: the early-out reports netmask 128, the descent of any address netmask 1. */
  lemma EarlyOutExample(dataSize: nat, bits: Bits)
    requires IsMapped(bits)
    ensures LookupFrom([Node(1, 1)], dataSize, FreshStart([Node(1, 1)]), bits) == (Success, LookupResult(false, 0, 128))
    ensures Lookup([Node(1, 1)], dataSize, bits) == (Success, LookupResult(false, 0, 1))
  {
  }

  lemma {:induction false} ZeroOnLeftIsCorrupt(t: Tree, v: nat, i: nat, bits: Bits)
    requires v < |t| && i <= 96 && IsMapped(bits) && !NoZeroOnLeft(t, v, i)
    ensures Walk(t, v, bits, i) == ZeroRecord
    decreases 96 - i
  {
    assert !bits[i];
    if t[v].left != 0 {
      ZeroOnLeftIsCorrupt(t, t[v].left, i + 1, bits);
    }
  }

  /** Walking left out of the tree takes as many steps wherever the count begins. */
  lemma {:induction false} StartShifts(t: Tree, v: nat, i: nat, j: nat)
    requires v < |t| && i <= j <= 96
    ensures var s := StartFrom(t, v, j);
            s.nodeValue >= |t| ==> StartFrom(t, v, i) == s.(netmask := s.netmask - (j - i))
    decreases 96 - j
  {
    if j < 96 && t[v].left < |t| {
      StartShifts(t, t[v].left, i + 1, j + 1);
    }
  }

  /** A zero record leads the left walk back to the root. */
  lemma {:induction false} ZeroReturnsToRoot(t: Tree, v: nat, i: nat) returns (j: nat)
    requires v < |t| && i <= 96 && !NoZeroOnLeft(t, v, i)
    ensures i < j <= 96 && StartFrom(t, v, i) == StartFrom(t, 0, j)
    decreases 96 - i
  {
    j := i + 1;
    if t[v].left != 0 {
      j := ZeroReturnsToRoot(t, t[v].left, i + 1);
    }
  }

  /** With a zero record on the way the left walk goes round inside the tree, so the start node is a node. */
  lemma ZeroStaysInTree(t: Tree)
    requires t != [] && !NoZeroOnLeft(t, 0, 0)
    ensures FreshStart(t).nodeValue < |t|
  {
    var j := ZeroReturnsToRoot(t, 0, 0);
    StartShifts(t, 0, 0, j);
  }

  /** The shortcut and the plain descent give the same status, found_entry and offset. */
  ghost predicate ShortcutAgrees(t: Tree, dataSize: nat, bits: Bits)
    requires t != [] && |bits| == 128
  {
    var (status, result) := LookupFrom(t, dataSize, FreshStart(t), bits);
    var (status', result') := Lookup(t, dataSize, bits);
    status == status' && result.foundEntry == result'.foundEntry && result.offset == result'.offset
  }

  /** When the shortcut and the descent agree: exactly when no left record on the way is zero, or the descent of the
      32 bits of the address from the start node ends in corruption.  With a zero record on the way the descent from
      the root always does. */
  lemma ShortcutAgreesExactly(t: Tree, dataSize: nat, bits: Bits)
    requires t != [] && IsMapped(bits)
    ensures !NoZeroOnLeft(t, 0, 0) ==>
              FreshStart(t).nodeValue < |t| && Lookup(t, dataSize, bits) == (CorruptSearchTree, NO_RESULT)
    ensures ShortcutAgrees(t, dataSize, bits) <==>
              NoZeroOnLeft(t, 0, 0) || Corrupt(|t|, dataSize, Walk(t, FreshStart(t).nodeValue, bits, 96))
  {
    if NoZeroOnLeft(t, 0, 0) {
      ShortcutRefinesDescent(t, dataSize, bits);
    } else {
      ZeroStaysInTree(t);
      ZeroOnLeftIsCorrupt(t, 0, 0, bits);
    }
  }

  /** Netmask soundness for IPv4 lookups that begin at a start node of the tree. */
  lemma NetmaskSoundFromStart(t: Tree, dataSize: nat, bits: Bits, bits': Bits)
    requires t != [] && IsMapped(bits) && IsMapped(bits') && FreshStart(t).nodeValue < |t|
    requires var (status, result) := LookupFrom(t, dataSize, FreshStart(t), bits);
             status == Success && result.netmask <= 128 && bits[..result.netmask] == bits'[..result.netmask]
    ensures LookupFrom(t, dataSize, FreshStart(t), bits') == LookupFrom(t, dataSize, FreshStart(t), bits)
  {
    WalkDependsOnPrefix(t, FreshStart(t).nodeValue, bits, bits', 96);
  }

  lemma {:induction false} LoopsOnRoot(t: Tree, i: nat)
    requires t != [] && t[0].left == 0 && i <= 96
    ensures StartFrom(t, 0, i) == StartNode(0, 96)
    decreases 96 - i
  {
    if i < 96 {
      LoopsOnRoot(t, i + 1);
    }
  }

  /** A tree of one node whose left record is 0: the descent of ::128.0.0.0 reports corruption, the shortcut finds
      data. */
  lemma ShortcutMissesZeroRecord(dataSize: nat)
    requires 16 <= dataSize
    ensures var t := [Node(0, 17)];
            var bits := seq(128, i => i == 96);
            && IsMapped(bits) && Lookup(t, dataSize, bits).0 == CorruptSearchTree
            && LookupFrom(t, dataSize, FreshStart(t), bits) == (Success, LookupResult(true, 16, 97))
  {
    var t := [Node(0, 17)];
    var bits := seq(128, i => i == 96);
    LoopsOnRoot(t, 0);
    assert !bits[0] && bits[96];
  }
}
