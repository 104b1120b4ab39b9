/**
  The subnets of a search tree.  `Regions` lists them by depth-first enumeration, without looking at addresses; the
  lemmas show that lookups report exactly these subnets and that they tile the address space.
 */
module Regions {
  import opened Bytes
  import opened SearchTree

  /** A block of addresses, by prefix, and how the descent of each of them ends. */
  datatype Region = Region(prefix: Bits, end: End)

  /** The regions below node `v`, which is reached by `prefix`, in a space of addresses of `depth` bits. */
  function Below(t: Tree, v: nat, prefix: Bits, depth: nat): seq<Region>
    requires v < |t| && |prefix| <= depth
    decreases depth - |prefix|, 1
  {
    if |prefix| == depth then [Region(prefix, OutOfBits)]
    else Side(t, v, prefix, depth, false) + Side(t, v, prefix, depth, true)
  }

  function Side(t: Tree, v: nat, prefix: Bits, depth: nat, bit: bool): seq<Region>
    requires v < |t| && |prefix| < depth
    decreases depth - |prefix|, 0
  {
    var r, longer := Record(t[v], bit), prefix + [bit];
    if r == 0 then [Region(longer, ZeroRecord)]
    else if r >= |t| then [Region(longer, Leaf(r, |longer|))]
    else Below(t, r, longer, depth)
  }

  /** How many addresses the regions hold altogether. */
  function Addresses(regions: seq<Region>, depth: nat): nat {
    if regions == [] then 0
    else
      (if |regions[0].prefix| <= depth then Pow2(depth - |regions[0].prefix|) else 0)
        + Addresses(regions[1..], depth)
  }

  lemma {:induction false} AddressesAdd(a: seq<Region>, b: seq<Region>, depth: nat)
    ensures Addresses(a + b, depth) == Addresses(a, depth) + Addresses(b, depth)
  {
    if a == [] {
      assert a + b == b;
    } else {
      assert (a + b)[1..] == a[1..] + b;
      AddressesAdd(a[1..], b, depth);
    }
  }

  /** The sizes of the regions sum to the size of the space they were enumerated for. */
  lemma {:induction false} RegionsFillSpace(t: Tree, v: nat, prefix: Bits, depth: nat)
    requires v < |t| && |prefix| <= depth
    ensures Addresses(Below(t, v, prefix, depth), depth) == Pow2(depth - |prefix|)
    decreases depth - |prefix|, 1
  {
    if |prefix| < depth {
      SideFillsHalf(t, v, prefix, depth, false);
      SideFillsHalf(t, v, prefix, depth, true);
      AddressesAdd(Side(t, v, prefix, depth, false), Side(t, v, prefix, depth, true), depth);
    }
  }

  lemma {:induction false} SideFillsHalf(t: Tree, v: nat, prefix: Bits, depth: nat, bit: bool)
    requires v < |t| && |prefix| < depth
    ensures Addresses(Side(t, v, prefix, depth, bit), depth) == Pow2(depth - |prefix| - 1)
    decreases depth - |prefix|, 0
  {
    var r := Record(t[v], bit);
    if 0 < r < |t| {
      RegionsFillSpace(t, r, prefix + [bit], depth);
    }
  }

  ghost predicate AllExtend(regions: seq<Region>, prefix: Bits, depth: nat) {
    forall i | 0 <= i < |regions| :: prefix <= regions[i].prefix && |regions[i].prefix| <= depth
  }

  lemma {:induction false} RegionsExtend(t: Tree, v: nat, prefix: Bits, depth: nat)
    requires v < |t| && |prefix| <= depth
    ensures AllExtend(Below(t, v, prefix, depth), prefix, depth)
    decreases depth - |prefix|, 1
  {
    if |prefix| < depth {
      SideExtends(t, v, prefix, depth, false);
      SideExtends(t, v, prefix, depth, true);
    }
  }

  lemma {:induction false} SideExtends(t: Tree, v: nat, prefix: Bits, depth: nat, bit: bool)
    requires v < |t| && |prefix| < depth
    ensures AllExtend(Side(t, v, prefix, depth, bit), prefix + [bit], depth)
    ensures AllExtend(Side(t, v, prefix, depth, bit), prefix, depth)
    decreases depth - |prefix|, 0
  {
    var r := Record(t[v], bit);
    if 0 < r < |t| {
      RegionsExtend(t, r, prefix + [bit], depth);
    }
  }

  /** Two blocks are disjoint when neither prefix extends the other. */
  ghost predicate Apart(a: Bits, b: Bits) {
    !(a <= b) && !(b <= a)
  }

  ghost predicate PairwiseApart(regions: seq<Region>) {
    forall i, j | 0 <= i < j < |regions| :: Apart(regions[i].prefix, regions[j].prefix)
  }

  lemma {:induction false} RegionsApart(t: Tree, v: nat, prefix: Bits, depth: nat)
    requires v < |t| && |prefix| <= depth
    ensures PairwiseApart(Below(t, v, prefix, depth))
    decreases depth - |prefix|
  {
    if |prefix| < depth {
      var a, b := Side(t, v, prefix, depth, false), Side(t, v, prefix, depth, true);
      SideExtends(t, v, prefix, depth, false);
      SideExtends(t, v, prefix, depth, true);
      if 0 < t[v].left < |t| { RegionsApart(t, t[v].left, prefix + [false], depth); }
      if 0 < t[v].right < |t| { RegionsApart(t, t[v].right, prefix + [true], depth); }
      forall i, j | 0 <= i < |a| && 0 <= j < |b| ensures Apart(a[i].prefix, b[j].prefix) {
        assert a[i].prefix[|prefix|] == (prefix + [false])[|prefix|];
        assert b[j].prefix[|prefix|] == (prefix + [true])[|prefix|];
      }
      assert PairwiseApart(a) && PairwiseApart(b);
      ApartSides(a, b);
    }
  }

  lemma ApartSides(a: seq<Region>, b: seq<Region>)
    requires PairwiseApart(a) && PairwiseApart(b)
    requires forall i, j | 0 <= i < |a| && 0 <= j < |b| :: Apart(a[i].prefix, b[j].prefix)
    ensures PairwiseApart(a + b)
  {
  }

  /** Every address lies in a region, and its descent ends as the region says.  `i` is the number of that region. */
  lemma {:induction false} RegionOf(t: Tree, v: nat, prefix: Bits, bits: Bits) returns (i: nat)
    requires v < |t| && prefix <= bits
    ensures var regions := Below(t, v, prefix, |bits|);
            i < |regions| && regions[i].prefix <= bits && regions[i].end == Walk(t, v, bits, |prefix|)
            && (regions[i].end.Leaf? ==> regions[i].end.depth == |regions[i].prefix|)
    decreases |bits| - |prefix|
  {
    i := 0;
    if |prefix| < |bits| {
      var bit := bits[|prefix|];
      var r := Record(t[v], bit);
      assert prefix + [bit] <= bits;
      if 0 < r < |t| {
        i := RegionOf(t, r, prefix + [bit], bits);
      }
      if bit {
        i := i + |Side(t, v, prefix, |bits|, false)|;
      }
    }
  }

  /** The region of an address is the only one it lies in. */
  lemma OneRegion(t: Tree, v: nat, prefix: Bits, bits: Bits, j: nat)
    requires v < |t| && prefix <= bits
    requires var regions := Below(t, v, prefix, |bits|); j < |regions| && regions[j].prefix <= bits
    ensures Below(t, v, prefix, |bits|)[j].end == Walk(t, v, bits, |prefix|)
  {
    var i := RegionOf(t, v, prefix, bits);
    RegionsApart(t, v, prefix, |bits|);
    OnlyOne(Below(t, v, prefix, |bits|), i, j, bits);
  }

  /** The regions of the whole tree. */
  function All(t: Tree, depth: nat): seq<Region>
    requires t != []
  {
    Below(t, 0, [], depth)
  }

  /** Tiling: an address lies in exactly one region, the descent of the address ends as that region says, and the
      netmask a successful lookup reports is the length of its prefix. */
  lemma LookupsReportRegions(t: Tree, dataSize: nat, bits: Bits) returns (i: nat)
    requires t != []
    ensures var regions := All(t, |bits|);
            && i < |regions| && regions[i].prefix <= bits
            && (forall j | 0 <= j < |regions| && regions[j].prefix <= bits :: j == i)
            && Lookup(t, dataSize, bits) == Answer(|t|, dataSize, regions[i].end)
            && (Lookup(t, dataSize, bits).0 == Success ==>
                 Lookup(t, dataSize, bits).1.netmask == |regions[i].prefix|)
  {
    i := RegionOf(t, 0, [], bits);
    RegionsApart(t, 0, [], |bits|);
    var regions := All(t, |bits|);
    forall j | 0 <= j < |regions| && regions[j].prefix <= bits ensures j == i {
      OnlyOne(regions, i, j, bits);
    }
  }

  lemma OnlyOne(regions: seq<Region>, i: nat, j: nat, bits: Bits)
    requires PairwiseApart(regions) && i < |regions| && j < |regions|
    requires regions[i].prefix <= bits && regions[j].prefix <= bits
    ensures i == j
  {
    Comparable(regions[i].prefix, regions[j].prefix, bits);
  }

  lemma Comparable(a: Bits, b: Bits, whole: Bits)
    requires a <= whole && b <= whole
    ensures a <= b || b <= a
  {
    if |a| <= |b| {
      assert a == whole[..|a|] == b[..|a|];
    } else {
      assert b == whole[..|b|] == a[..|b|];
    }
  }

  /** The subnets lookups can return. */
  function Subnets(t: Tree, dataSize: nat, regions: seq<Region>): seq<Region> {
    if regions == [] then []
    else (if Corrupt(|t|, dataSize, regions[0].end) then [] else [regions[0]]) + Subnets(t, dataSize, regions[1..])
  }

  ghost predicate SomeCorrupt(t: Tree, dataSize: nat, regions: seq<Region>) {
    exists i :: 0 <= i < |regions| && Corrupt(|t|, dataSize, regions[i].end)
  }

  /** The subnets hold as many addresses as the regions exactly when no region is corrupt. */
  lemma {:induction false} NothingDropped(t: Tree, dataSize: nat, regions: seq<Region>, depth: nat)
    requires forall i | 0 <= i < |regions| :: |regions[i].prefix| <= depth
    ensures var sum, all := Addresses(Subnets(t, dataSize, regions), depth), Addresses(regions, depth);
            if SomeCorrupt(t, dataSize, regions) then sum < all else sum == all
  {
    if regions != [] {
      var first, rest := regions[0], regions[1..];
      NothingDropped(t, dataSize, rest, depth);
      SomeCorruptStep(t, dataSize, regions);
      var subnets := Subnets(t, dataSize, rest);
      assert ([first] + subnets)[1..] == subnets && [] + subnets == subnets;
    }
  }

  lemma SomeCorruptStep(t: Tree, dataSize: nat, regions: seq<Region>)
    requires regions != []
    ensures SomeCorrupt(t, dataSize, regions) <==>
              Corrupt(|t|, dataSize, regions[0].end) || SomeCorrupt(t, dataSize, regions[1..])
  {
    if SomeCorrupt(t, dataSize, regions[1..]) {
      var i :| 0 <= i < |regions| - 1 && Corrupt(|t|, dataSize, regions[1..][i].end);
      assert regions[i + 1] == regions[1..][i];
    }
    if SomeCorrupt(t, dataSize, regions) && !Corrupt(|t|, dataSize, regions[0].end) {
      var i :| 0 <= i < |regions| && Corrupt(|t|, dataSize, regions[i].end);
      assert regions[1..][i - 1] == regions[i];
    }
  }

  /** An address in a given block. */
  function Padded(prefix: Bits, depth: nat): (bits: Bits)
    requires |prefix| <= depth
    ensures |bits| == depth && prefix <= bits
  {
    prefix + seq(depth - |prefix|, _ => false)
  }

  /** No address of the block ends in corruption below node `v`. */
  ghost predicate BlockAnswers(t: Tree, dataSize: nat, v: nat, prefix: Bits, depth: nat)
    requires v < |t| && |prefix| <= depth
  {
    forall bits: Bits | |bits| == depth && prefix <= bits :: !Corrupt(|t|, dataSize, Walk(t, v, bits, |prefix|))
  }

  lemma BlockRegions(t: Tree, dataSize: nat, v: nat, prefix: Bits, depth: nat)
    requires v < |t| && |prefix| <= depth
    ensures BlockAnswers(t, dataSize, v, prefix, depth) <==> !SomeCorrupt(t, dataSize, Below(t, v, prefix, depth))
  {
    hide Corrupt, Below;
    var regions := Below(t, v, prefix, depth);
    RegionsExtend(t, v, prefix, depth);
    if SomeCorrupt(t, dataSize, regions) {
      var i :| 0 <= i < |regions| && Corrupt(|t|, dataSize, regions[i].end);
      var bits := Padded(regions[i].prefix, depth);
      Comparable(prefix, regions[i].prefix, bits);
      OneRegion(t, v, prefix, bits, i);
      assert prefix <= bits;
    }
    if !BlockAnswers(t, dataSize, v, prefix, depth) {
      var bits: Bits :| |bits| == depth && prefix <= bits && Corrupt(|t|, dataSize, Walk(t, v, bits, |prefix|));
      var i := RegionOf(t, v, prefix, bits);
      assert Corrupt(|t|, dataSize, regions[i].end);
    }
  }

  /** The sizes of the subnets that lookups below node `v` return sum to the whole block if, and only if, no address
      of the block ends in corruption. */
  lemma SubnetsTile(t: Tree, dataSize: nat, v: nat, prefix: Bits, depth: nat)
    requires v < |t| && |prefix| <= depth
    ensures Addresses(Subnets(t, dataSize, Below(t, v, prefix, depth)), depth) == Pow2(depth - |prefix|) <==>
              BlockAnswers(t, dataSize, v, prefix, depth)
  {
    hide Below, BlockAnswers, SomeCorrupt;
    RegionsExtend(t, v, prefix, depth);
    RegionsFillSpace(t, v, prefix, depth);
    NothingDropped(t, dataSize, Below(t, v, prefix, depth), depth);
    BlockRegions(t, dataSize, v, prefix, depth);
  }

  // ----- the whole tree, and the IPv4 part of it -----

  /** Lookups from the root: the subnets fill the address space exactly when every lookup succeeds. */
  lemma AllSubnetsTile(t: Tree, dataSize: nat, depth: nat)
    requires t != []
    ensures Addresses(Subnets(t, dataSize, All(t, depth)), depth) == Pow2(depth) <==>
              forall bits: Bits | |bits| == depth :: Lookup(t, dataSize, bits).0 == Success
  {
    hide Below;
    SubnetsTile(t, dataSize, 0, [], depth);
    assert BlockAnswers(t, dataSize, 0, [], depth) <==>
           forall bits: Bits | |bits| == depth :: Lookup(t, dataSize, bits).0 == Success;
  }

  const NINETY_SIX_ZEROS: Bits := seq(96, _ => false)

  lemma MappedBlock(bits: Bits)
    ensures IsMapped(bits) <==> |bits| == 128 && NINETY_SIX_ZEROS <= bits
  {
    if IsMapped(bits) {
      assert bits[..96] == NINETY_SIX_ZEROS;
    }
    if |bits| == 128 && NINETY_SIX_ZEROS <= bits {
      forall k | 0 <= k < 96 ensures !bits[k] {
        assert bits[k] == NINETY_SIX_ZEROS[k];
      }
    }
  }

  /** IPv4 lookups in an IPv6 database whose start node is a node: the subnets below it hold all 2^32 addresses exactly
      when every IPv4 lookup succeeds. */
  lemma Ipv4SubnetsTile(t: Tree, dataSize: nat)
    requires t != [] && FreshStart(t).nodeValue < |t|
    ensures var regions := Below(t, FreshStart(t).nodeValue, NINETY_SIX_ZEROS, 128);
            Addresses(Subnets(t, dataSize, regions), 128) == U32_RANGE <==>
              forall bits: Bits | IsMapped(bits) :: LookupFrom(t, dataSize, FreshStart(t), bits).0 == Success
  {
    hide Below, StartFrom, Corrupt;
    var v := FreshStart(t).nodeValue;
    SubnetsTile(t, dataSize, v, NINETY_SIX_ZEROS, 128);
    Pow2Of32();
    forall bits: Bits ensures IsMapped(bits) <==> |bits| == 128 && NINETY_SIX_ZEROS <= bits {
      MappedBlock(bits);
    }
    forall bits: Bits | IsMapped(bits)
      ensures LookupFrom(t, dataSize, FreshStart(t), bits).0 == Success <==>
                !Corrupt(|t|, dataSize, Walk(t, v, bits, 96))
    {
      FromStartAnswers(t, dataSize, bits);
    }
  }

  lemma FromStartAnswers(t: Tree, dataSize: nat, bits: Bits)
    requires t != [] && |bits| == 128 && FreshStart(t).nodeValue < |t|
    ensures LookupFrom(t, dataSize, FreshStart(t), bits).0 == Success <==>
              !Corrupt(|t|, dataSize, Walk(t, FreshStart(t).nodeValue, bits, 96))
  {
  }

  lemma Pow2Of32()
    ensures Pow2(32) == U32_RANGE
  {
    assert Pow2(8) == 256;
    assert Pow2(16) == 65536;
    assert Pow2(24) == 16777216;
  }

  /** When the IPv4 shortcut agrees with the descent on every IPv4 address of a tree: exactly when no left record on
      the way is zero, or nothing below the start node has an answer. */
  lemma ShortcutAlwaysAgrees(t: Tree, dataSize: nat)
    requires t != []
    ensures !NoZeroOnLeft(t, 0, 0) ==> FreshStart(t).nodeValue < |t|
    ensures (forall bits: Bits | IsMapped(bits) :: ShortcutAgrees(t, dataSize, bits)) <==>
              NoZeroOnLeft(t, 0, 0)
              || Subnets(t, dataSize, Below(t, FreshStart(t).nodeValue, NINETY_SIX_ZEROS, 128)) == []
  {
    hide Below, FreshStart, Corrupt, ShortcutAgrees, NoZeroOnLeft;
    if NoZeroOnLeft(t, 0, 0) {
      forall bits: Bits | IsMapped(bits) ensures ShortcutAgrees(t, dataSize, bits) {
        ShortcutAgreesExactly(t, dataSize, bits);
      }
    } else {
      ZeroStaysInTree(t);
      var v := FreshStart(t).nodeValue;
      var regions := Below(t, v, NINETY_SIX_ZEROS, 128);
      NoSubnets(t, dataSize, regions);
      forall bits: Bits | IsMapped(bits)
        ensures exists i :: 0 <= i < |regions| && regions[i].end == Walk(t, v, bits, 96)
        ensures ShortcutAgrees(t, dataSize, bits) <==> Corrupt(|t|, dataSize, Walk(t, v, bits, 96))
      {
        MappedBlock(bits);
        var i := RegionOf(t, v, NINETY_SIX_ZEROS, bits);
        ShortcutAgreesExactly(t, dataSize, bits);
      }
      RegionsExtend(t, v, NINETY_SIX_ZEROS, 128);
      forall i | 0 <= i < |regions|
        ensures exists bits: Bits :: IsMapped(bits) && regions[i].end == Walk(t, v, bits, 96)
      {
        var bits := Padded(regions[i].prefix, 128);
        Comparable(NINETY_SIX_ZEROS, regions[i].prefix, bits);
        assert NINETY_SIX_ZEROS <= bits;
        MappedBlock(bits);
        OneRegion(t, v, NINETY_SIX_ZEROS, bits, i);
      }
    }
  }

  lemma {:induction false} NoSubnets(t: Tree, dataSize: nat, regions: seq<Region>)
    ensures Subnets(t, dataSize, regions) == [] <==>
              forall i | 0 <= i < |regions| :: Corrupt(|t|, dataSize, regions[i].end)
  {
    if regions != [] {
      NoSubnets(t, dataSize, regions[1..]);
      forall i | 0 <= i < |regions| - 1 ensures regions[1..][i] == regions[i + 1] {
      }
      assert forall i | 0 < i < |regions| :: regions[i] == regions[1..][i - 1];
    }
  }
}
