/**
  The IPv4 start-node cache under any number of threads.  find_ipv4_start_node tests one member of the shared struct,
  fills it with two stores, and returns it with two loads, in either order; nothing is locked.  A state machine runs
  those steps in every interleaving, assuming sequential consistency.
 */
module CacheRace {
  import opened Bytes
  import opened SearchTree

  /** Where a thread is in find_ipv4_start_node.  `AtCopy` holds the members loaded so far. */
  datatype Thread =
    | AtTest
    | AtStoreValue
    | AtStoreNetmask
    | AtCopy(filled: bool, value: Loaded, netmask: Loaded)
    | Returned(filled: bool, view: StartNode)

  datatype Loaded = NotYet | Got(n: nat)

  datatype State = State(cache: StartNode, threads: seq<Thread>)

  /** The cache as MMDB_open leaves it. */
  const UNSET := StartNode(0, 0)

  ghost predicate Init(s: State, cache: StartNode) {
    s.cache == cache && forall i | 0 <= i < |s.threads| :: s.threads[i] == AtTest
  }

  /** What one thread can do next, given the cache: its next place and the cache afterwards.  Between the test and the
      first store the thread computes the fresh answer from the file, which no other thread can influence. */
  ghost predicate ThreadStep(answer: StartNode, cache: StartNode, th: Thread, cache': StartNode, th': Thread) {
    match th
    case AtTest =>
      cache' == cache && th' == if cache.nodeValue != 0 then AtCopy(false, NotYet, NotYet) else AtStoreValue
    case AtStoreValue => cache' == cache.(nodeValue := answer.nodeValue) && th' == AtStoreNetmask
    case AtStoreNetmask => cache' == cache.(netmask := answer.netmask) && th' == AtCopy(true, NotYet, NotYet)
    case AtCopy(filled, value, netmask) =>
      && cache' == cache
      && (|| (value.NotYet? && th' == AtCopy(filled, Got(cache.nodeValue), netmask))
          || (netmask.NotYet? && th' == AtCopy(filled, value, Got(cache.netmask)))
          || (value.Got? && netmask.Got? && th' == Returned(filled, StartNode(value.n, netmask.n))))
    case Returned(_, _) => cache' == cache && th' == AtTest
  }

  ghost predicate Step(answer: StartNode, s: State, s': State, i: nat) {
    && i < |s.threads| && |s'.threads| == |s.threads|
    && ThreadStep(answer, s.cache, s.threads[i], s'.cache, s'.threads[i])
    && s'.threads == s.threads[i := s'.threads[i]]
  }

  ghost predicate SomeStep(answer: StartNode, s: State, s': State) {
    exists i: nat :: Step(answer, s, s', i)
  }

  /** A run: a start state and any number of steps by any of the threads. */
  ghost predicate Run(answer: StartNode, cache: StartNode, states: seq<State>) {
    && states != [] && Init(states[0], cache)
    && forall k | 0 <= k < |states| - 1 :: SomeStep(answer, states[k], states[k + 1])
  }

  /** What holds of every thread: a thread that filled, or is about to return what it filled, sees only the fresh
      answer; any other reader sees the fresh value with the fresh netmask or with the zero of the unset cache. */
  ghost predicate ThreadOk(answer: StartNode, cache: StartNode, th: Thread) {
    match th
    case AtTest => true
    case AtStoreValue => true
    case AtStoreNetmask => cache.nodeValue == answer.nodeValue
    case AtCopy(filled, value, netmask) =>
      && cache.nodeValue == answer.nodeValue
      && (value.Got? ==> value.n == answer.nodeValue)
      && (netmask.Got? ==> netmask.n == answer.netmask || (!filled && netmask.n == 0))
      && (filled ==> cache.netmask == answer.netmask)
      && (!filled ==> answer.nodeValue != 0)
    case Returned(filled, view) =>
      && view.nodeValue == answer.nodeValue
      && (view.netmask == answer.netmask || (!filled && view.netmask == 0 && answer.nodeValue != 0))
  }

  ghost predicate Inv(answer: StartNode, s: State) {
    && s.cache.nodeValue in {0, answer.nodeValue}
    && s.cache.netmask in {0, answer.netmask}
    && forall i | 0 <= i < |s.threads| :: ThreadOk(answer, s.cache, s.threads[i])
  }

  lemma StepKeepsInv(answer: StartNode, s: State, s': State, i: nat)
    requires Inv(answer, s) && Step(answer, s, s', i)
    ensures Inv(answer, s')
  {
    forall j | 0 <= j < |s'.threads| ensures ThreadOk(answer, s'.cache, s'.threads[j]) {
      assert ThreadOk(answer, s.cache, s.threads[i]);
      assert ThreadOk(answer, s.cache, s.threads[j]);
    }
  }

  /** Safety over every interleaving, from an unset or a filled cache. */
  lemma {:induction false} RunsKeepInv(answer: StartNode, cache: StartNode, states: seq<State>, k: nat)
    requires Run(answer, cache, states) && cache in {UNSET, answer} && k < |states|
    ensures Inv(answer, states[k])
  {
    if k > 0 {
      RunsKeepInv(answer, cache, states, k - 1);
      assert SomeStep(answer, states[k - 1], states[k - 1 + 1]);
      var i: nat :| Step(answer, states[k - 1], states[k - 1 + 1], i);
      StepKeepsInv(answer, states[k - 1], states[k], i);
    }
  }

  /** What a thread can return: the fresh answer if it filled the cache, else possibly the fresh value with netmask 0.
      */
  lemma ReturnsInRuns(answer: StartNode, cache: StartNode, states: seq<State>, k: nat, i: nat)
    requires Run(answer, cache, states) && cache in {UNSET, answer}
    requires k < |states| && i < |states[k].threads| && states[k].threads[i].Returned?
    ensures states[k].threads[i].filled ==> states[k].threads[i].view == answer
    ensures states[k].threads[i].view in {answer, StartNode(answer.nodeValue, 0)}
  {
    RunsKeepInv(answer, cache, states, k);
    assert ThreadOk(answer, states[k].cache, states[k].threads[i]);
  }

  /** Every thread returns the fresh answer in every interleaving. */
  ghost predicate AlwaysFresh(answer: StartNode, cache: StartNode) {
    forall states: seq<State>, k: nat, i: nat |
      Run(answer, cache, states) && k < |states| && i < |states[k].threads| && states[k].threads[i].Returned? ::
      states[k].threads[i].view == answer
  }

  /** Two threads: one stores the value, the other tests and copies before the netmask is stored. */
  function TornRun(answer: StartNode): seq<State> {
    var half := StartNode(answer.nodeValue, 0);
    [ State(UNSET, [AtTest, AtTest]),
      State(UNSET, [AtStoreValue, AtTest]),
      State(half, [AtStoreNetmask, AtTest]),
      State(half, [AtStoreNetmask, AtCopy(false, NotYet, NotYet)]),
      State(half, [AtStoreNetmask, AtCopy(false, Got(answer.nodeValue), NotYet)]),
      State(half, [AtStoreNetmask, AtCopy(false, Got(answer.nodeValue), Got(0))]),
      State(half, [AtStoreNetmask, Returned(false, half)]) ]
  }

  lemma TornRunIsRun(answer: StartNode)
    requires answer.nodeValue != 0
    ensures Run(answer, UNSET, TornRun(answer))
  {
    var r := TornRun(answer);
    assert Step(answer, r[0], r[0 + 1], 0);
    assert Step(answer, r[1], r[1 + 1], 0);
    assert Step(answer, r[2], r[2 + 1], 1);
    assert Step(answer, r[3], r[3 + 1], 1);
    assert Step(answer, r[4], r[4 + 1], 1);
    assert Step(answer, r[5], r[5 + 1], 1);
  }

  /** The documentation promises thread safety.  The cache keeps that promise exactly when it is already filled before
      the threads start, or one of the two members of the fresh answer is zero, so that no half-filled cache differs
      from it in effect. */
  lemma ThreadSafeExactly(answer: StartNode, cache: StartNode)
    requires cache in {UNSET, answer}
    ensures AlwaysFresh(answer, cache) <==> cache == answer || answer.nodeValue == 0 || answer.netmask == 0
  {
    if cache == answer || answer.nodeValue == 0 || answer.netmask == 0 {
      forall states: seq<State>, k: nat, i: nat |
        Run(answer, cache, states) && k < |states| && i < |states[k].threads| && states[k].threads[i].Returned?
        ensures states[k].threads[i].view == answer
      {
        if cache == answer {
          FilledStaysFresh(answer, states, k);
          assert ThreadFresh(answer, states[k].threads[i]);
        } else {
          RunsKeepInv(answer, cache, states, k);
          assert ThreadOk(answer, states[k].cache, states[k].threads[i]);
        }
      }
    } else {
      TornRunIsRun(answer);
      assert TornRun(answer)[6].threads[1].Returned?;
    }
  }

  ghost predicate ThreadFresh(answer: StartNode, th: Thread) {
    match th
    case AtCopy(_, value, netmask) =>
      value in {NotYet, Got(answer.nodeValue)} && netmask in {NotYet, Got(answer.netmask)}
    case Returned(_, view) => view == answer
    case _ => true
  }

  /** From a filled cache nothing else is ever seen. */
  lemma {:induction false} FilledStaysFresh(answer: StartNode, states: seq<State>, k: nat)
    requires Run(answer, answer, states) && k < |states|
    ensures states[k].cache == answer
    ensures forall i | 0 <= i < |states[k].threads| :: ThreadFresh(answer, states[k].threads[i])
  {
    if k > 0 {
      FilledStaysFresh(answer, states, k - 1);
      assert SomeStep(answer, states[k - 1], states[k - 1 + 1]);
      var i: nat :| Step(answer, states[k - 1], states[k - 1 + 1], i);
      assert ThreadFresh(answer, states[k - 1].threads[i]);
    }
  }

  // ----- what a torn view does to a lookup -----

  /** A lookup that begins outside the tree with a torn view reports netmask 128 instead of 128 - netmask. */
  lemma TornEarlyOut(t: Tree, dataSize: nat, bits: Bits)
    requires t != [] && |bits| == 128 && FreshStart(t).nodeValue >= |t| && FreshStart(t).netmask != 0
    requires LookupFrom(t, dataSize, FreshStart(t), bits).0 == Success
    ensures var torn := StartNode(FreshStart(t).nodeValue, 0);
            && LookupFrom(t, dataSize, torn, bits).1.netmask == 128
            && LookupFrom(t, dataSize, FreshStart(t), bits).1.netmask != 128
  {
  }

  /** A tree of two nodes without data: the right netmask is 127, the torn one 128. */
  lemma TornEarlyOutExample(dataSize: nat, bits: Bits)
    requires |bits| == 128
    ensures var t := [Node(1, 2), Node(2, 2)];
            && FreshStart(t) == StartNode(2, 1)
            && LookupFrom(t, dataSize, FreshStart(t), bits) == (Success, LookupResult(false, 0, 127))
            && LookupFrom(t, dataSize, StartNode(2, 0), bits) == (Success, LookupResult(false, 0, 128))
  {
  }

  lemma {:induction false} WalkOnZeros(t: Tree, v: nat, zeros: Bits, at: nat, bits: Bits, at': nat)
    requires v < |t| && at <= |zeros| && at' + (|zeros| - at) <= |bits|
    requires forall k | at <= k < |zeros| :: !zeros[k]
    requires forall k | at' <= k < at' + (|zeros| - at) :: !bits[k]
    requires !Walk(t, v, zeros, at).OutOfBits?
    ensures var end, end' := Walk(t, v, zeros, at), Walk(t, v, bits, at');
            if end.Leaf? then end' == Leaf(end.record, end.depth - at + at') else end' == ZeroRecord
    decreases |zeros| - at
  {
    var r := t[v].left;
    if 0 < r < |t| {
      WalkOnZeros(t, r, zeros, at + 1, bits, at' + 1);
    }
  }

  /** A lookup that begins at a start node of the tree with a torn view walks 96 zero bits a second time.  Unless the
      tree is too deep for its own addresses, it never gets past the first 32 of them: every IPv4 address is then
      answered as 0.0.0.0 would be, with a netmask of at most 32 where the right one is above 96. */
  lemma TornDescent(t: Tree, dataSize: nat, bits: Bits, zero: Bits)
    requires t != [] && IsMapped(bits) && FreshStart(t).nodeValue < |t|
    requires |zero| == 128 && forall k | 0 <= k < 128 :: !zero[k]
    requires !Walk(t, FreshStart(t).nodeValue, zero, 96).OutOfBits?
    ensures var torn := StartNode(FreshStart(t).nodeValue, 0);
            var (status, result) := LookupFrom(t, dataSize, torn, bits);
            var (status', result') := LookupFrom(t, dataSize, FreshStart(t), bits);
            && status == LookupFrom(t, dataSize, FreshStart(t), zero).0
            && (status == Success ==>
                 && result == LookupFrom(t, dataSize, FreshStart(t), zero).1.(netmask := result.netmask)
                 && result.netmask <= 32)
            && (status' == Success ==> result'.netmask > 96)
  {
    WalkOnZeros(t, FreshStart(t).nodeValue, zero, 96, bits, 0);
  }

  /** A path of 96 left steps to the IPv4 start node, which has data for 0.0.0.0/1 and none for 128.0.0.0/1. */
  const LONG_TREE: Tree := seq(97, i requires 0 <= i < 97 => if i < 96 then Node(i + 1, 97) else Node(114, 97))

  lemma {:induction false} LongTreeStart(i: nat)
    requires i <= 96
    ensures StartFrom(LONG_TREE, i, i) == StartNode(96, 96)
    decreases 96 - i
  {
    if i < 96 {
      assert LONG_TREE[i].left == i + 1;
      LongTreeStart(i + 1);
    }
  }

  /** The wrong answer of a torn descent: an address in 128.0.0.0/1 gets the data of 0.0.0.0/1, with netmask 1. */
  lemma TornDescentExample(dataSize: nat, bits: Bits)
    requires IsMapped(bits) && bits[96] && 17 <= dataSize
    ensures FreshStart(LONG_TREE) == StartNode(96, 96)
    ensures LookupFrom(LONG_TREE, dataSize, FreshStart(LONG_TREE), bits) == (Success, LookupResult(false, 0, 97))
    ensures LookupFrom(LONG_TREE, dataSize, StartNode(96, 0), bits) == (Success, LookupResult(true, 17, 1))
  {
    LongTreeStart(0);
    assert !bits[0] && LONG_TREE[96] == Node(114, 97);
  }
}
