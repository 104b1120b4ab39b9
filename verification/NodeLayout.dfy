/**
  How nodes lie in the file, for records of 24, 28 and 32 bits (section "Node Layout" of the MaxMind DB File Format
  Specification 2.0), and the record getters of record_info_for_database.
 */
module NodeLayout {
  import opened Bytes
  import opened SearchTree

  /** The bytes of one node: record_length, for the three record sizes the library reads. */
  predicate KnownLength(length: nat) {
    6 <= length <= 8
  }

  /** get_left_28_bit_record: the high nibble of the middle byte tops the left record. */
  function GetLeft28(mem: seq<byte>, at: nat): nat
    requires at + 4 <= |mem|
  {
    var middle: nat := mem[at + 3];
    GetUint24(mem, at) + middle / 16 * U24_RANGE
  }

  /** get_right_28_bit_record: the low nibble tops the right record. */
  function GetRight28(mem: seq<byte>, at: nat): nat
    requires at + 4 <= |mem|
  {
    GetUint32(mem, at) % U28_RANGE
  }

  /** right_record_offset, zero for a record length the library does not know. */
  function RightRecordOffset(length: nat): nat {
    if length == 6 || length == 7 then 3 else if length == 8 then 4 else 0
  }

  /** The bytes a record getter reads.  At 28 bits both getters read the middle byte. */
  function RecordBytes(length: nat): nat
    requires KnownLength(length)
  {
    length - RightRecordOffset(length)
  }

  function LeftRecord(mem: seq<byte>, length: nat, at: nat): nat
    requires KnownLength(length) && at + RecordBytes(length) <= |mem|
  {
    if length == 6 then GetUint24(mem, at) else if length == 7 then GetLeft28(mem, at) else GetUint32(mem, at)
  }

  /** The right record getter, applied at the start of the right record. */
  function RightRecord(mem: seq<byte>, length: nat, at: nat): nat
    requires KnownLength(length) && at + RecordBytes(length) <= |mem|
  {
    if length == 6 then GetUint24(mem, at) else if length == 7 then GetRight28(mem, at) else GetUint32(mem, at)
  }

  function NodeAt(mem: seq<byte>, length: nat, at: nat): Node
    requires KnownLength(length) && at + length <= |mem|
  {
    Node(LeftRecord(mem, length, at), RightRecord(mem, length, at + RightRecordOffset(length)))
  }

  lemma RecordsFit(mem: seq<byte>, length: nat, at: nat)
    requires KnownLength(length) && at + length <= |mem|
    ensures NodeAt(mem, length, at).left < U32_RANGE && NodeAt(mem, length, at).right < U32_RANGE
  {
  }

  /** The two records of a node, from its bytes. */
  lemma NodeFromBytes(mem: seq<byte>, at: nat)
    ensures at + 6 <= |mem| ==>
              NodeAt(mem, 6, at) == Node(BigEndian(mem[at..at + 3]), BigEndian(mem[at + 3..at + 6]))
    ensures at + 7 <= |mem| ==>
              var middle: nat := mem[at + 3];
              NodeAt(mem, 7, at) == Node(middle / 16 * 0x100_0000 + BigEndian(mem[at..at + 3]),
                                         middle % 16 * 0x100_0000 + BigEndian(mem[at + 4..at + 7]))
    ensures at + 8 <= |mem| ==>
              NodeAt(mem, 8, at) == Node(BigEndian(mem[at..at + 4]), BigEndian(mem[at + 4..at + 8]))
  {
    hide BigEndian;
    BigEndianOfWidth(mem, at);
    BigEndianOfWidth(mem, at + 3);
    BigEndianOfWidth(mem, at + 4);
    if at + 7 <= |mem| {
      var middle: nat := mem[at + 3];
      assert GetUint32(mem, at + 3) == middle * U24_RANGE + GetUint24(mem, at + 4);
      Nibbles(middle / 16, middle % 16, GetUint24(mem, at + 4));
    }
  }

  // ----- packing -----

  function RecordRange(length: nat): nat {
    if length == 6 then U24_RANGE else if length == 7 then U28_RANGE else U32_RANGE
  }

  predicate NodeFits(length: nat, n: Node) {
    KnownLength(length) && n.left < RecordRange(length) && n.right < RecordRange(length)
  }

  /** The bytes of a node, big-endian; at 28 bits the top nibbles of both records share the middle byte. */
  function Pack(length: nat, n: Node): (s: seq<byte>)
    requires NodeFits(length, n)
    ensures |s| == length
  {
    if length == 6 then Put24(n.left) + Put24(n.right)
    else if length == 7 then
      Put24(n.left % U24_RANGE) + [n.left / U24_RANGE * 16 + n.right / U24_RANGE] + Put24(n.right % U24_RANGE)
    else Put32(n.left) + Put32(n.right)
  }

  function PackAll(length: nat, t: seq<Node>): seq<byte>
    requires forall n | n in t :: NodeFits(length, n)
  {
    if t == [] then [] else Pack(length, t[0]) + PackAll(length, t[1..])
  }

  lemma SameBytes(mem: seq<byte>, at: nat, s: seq<byte>)
    requires at + |s| <= |mem| && mem[at..at + |s|] == s
    ensures forall i | 0 <= i < |s| :: mem[at + i] == s[i]
  {
    forall i | 0 <= i < |s| ensures mem[at + i] == s[i] {
      assert mem[at..at + |s|][i] == mem[at + i];
    }
  }

  /** Reading a packed node back returns the pair. */
  lemma UnpackPack(mem: seq<byte>, length: nat, at: nat, n: Node)
    requires NodeFits(length, n) && at + length <= |mem| && mem[at..at + length] == Pack(length, n)
    ensures NodeAt(mem, length, at) == n
  {
    SameBytes(mem, at, Pack(length, n));
    var s := Pack(length, n);
    if length == 6 {
      Unpack24(s, n);
    } else if length == 7 {
      Unpack28(s, n);
    } else {
      Unpack32(s, n);
    }
    NodeOfBytes(mem, length, at, s);
  }

  lemma NodeOfBytes(mem: seq<byte>, length: nat, at: nat, s: seq<byte>)
    requires KnownLength(length) && |s| == length && at + length <= |mem|
    requires forall i | 0 <= i < |s| :: mem[at + i] == s[i]
    ensures NodeAt(mem, length, at) == NodeAt(s, length, 0)
  {
    assert mem[at] == s[0] && mem[at + 1] == s[1] && mem[at + 2] == s[2] && mem[at + 3] == s[3];
    assert mem[at + 4] == s[4] && mem[at + 5] == s[5];
    assert length > 6 ==> mem[at + 6] == s[6];
    assert length > 7 ==> mem[at + 7] == s[7];
  }

  lemma Unpack24(s: seq<byte>, n: Node)
    requires NodeFits(6, n) && s == Pack(6, n)
    ensures NodeAt(s, 6, 0) == n
  {
    var l, r := Put24(n.left), Put24(n.right);
    assert s[0] == l[0] && s[1] == l[1] && s[2] == l[2] && s[3] == r[0] && s[4] == r[1] && s[5] == r[2];
  }

  lemma Unpack28(s: seq<byte>, n: Node)
    requires NodeFits(7, n) && s == Pack(7, n)
    ensures NodeAt(s, 7, 0) == n
  {
    var l, r := Put24(n.left % U24_RANGE), Put24(n.right % U24_RANGE);
    var top: nat, top': nat := n.left / U24_RANGE, n.right / U24_RANGE;
    assert s[0] == l[0] && s[1] == l[1] && s[2] == l[2] && s[4] == r[0] && s[5] == r[1] && s[6] == r[2];
    assert s[3] == top * 16 + top';
    Nibbles(top, top', GetUint24(r, 0));
  }

  lemma Nibbles(hi: nat, lo: nat, rest: nat)
    requires hi < 16 && lo < 16 && rest < U24_RANGE
    ensures (hi * 16 + lo) / 16 == hi
    ensures ((hi * 16 + lo) * U24_RANGE + rest) % U28_RANGE == lo * U24_RANGE + rest
  {
  }

  lemma Unpack32(s: seq<byte>, n: Node)
    requires NodeFits(8, n) && s == Pack(8, n)
    ensures NodeAt(s, 8, 0) == n
  {
    var l, r := Put32(n.left), Put32(n.right);
    assert s[0] == l[0] && s[1] == l[1] && s[2] == l[2] && s[3] == l[3];
    assert s[4] == r[0] && s[5] == r[1] && s[6] == r[2] && s[7] == r[3];
  }

  /** Every byte string of the right length is the packing of the node read from it. */
  lemma PackUnpack(s: seq<byte>, length: nat)
    requires KnownLength(length) && |s| == length
    ensures NodeFits(length, NodeAt(s, length, 0)) && Pack(length, NodeAt(s, length, 0)) == s
  {
    var n := NodeAt(s, length, 0);
    if length == 6 {
      Put24Get(s[..3]);
      Put24Get(s[3..]);
    } else if length == 7 {
      PackUnpack28(s);
    } else {
      Put32Get(s[..4]);
      Put32Get(s[4..]);
    }
  }

  lemma PackUnpack28(s: seq<byte>)
    requires |s| == 7
    ensures NodeFits(7, NodeAt(s, 7, 0)) && Pack(7, NodeAt(s, 7, 0)) == s
  {
    hide Put24;
    var middle: nat := s[3];
    Halves(middle, GetUint24(s, 0), GetUint24(s, 4));
    assert GetUint32(s, 3) == middle * U24_RANGE + GetUint24(s, 4);
    Put24Get(s[..3]);
    Put24Get(s[4..]);
  }

  lemma Halves(middle: nat, left: nat, right: nat)
    requires middle < 256 && left < U24_RANGE && right < U24_RANGE
    ensures var l, r := left + middle / 16 * U24_RANGE, (middle * U24_RANGE + right) % U28_RANGE;
            && l < U28_RANGE && l % U24_RANGE == left && l / U24_RANGE == middle / 16
            && r < U28_RANGE && r % U24_RANGE == right && r / U24_RANGE == middle % 16
  {
    var hi, lo := middle / 16, middle % 16;
    Nibbles(hi, lo, right);
  }

  lemma {:induction false} PackAllLength(length: nat, t: seq<Node>)
    requires forall m | m in t :: NodeFits(length, m)
    ensures |PackAll(length, t)| == |t| * length
  {
    hide Pack, NodeFits;
    if t != [] {
      PackAllLength(length, t[1..]);
      Multiples(0, |t|, length);
    }
  }

  lemma {:induction false} PackAllSlice(length: nat, t: seq<Node>, n: nat)
    requires (forall m | m in t :: NodeFits(length, m)) && n < |t|
    ensures |PackAll(length, t)| == |t| * length && n * length + length <= |t| * length
    ensures PackAll(length, t)[n * length..n * length + length] == Pack(length, t[n])
    decreases |t|
  {
    hide Pack, NodeFits;
    PackAllLength(length, t);
    Multiples(n, |t|, length);
    var first, rest := Pack(length, t[0]), PackAll(length, t[1..]);
    assert PackAll(length, t) == first + rest;
    if n == 0 {
      SliceOfPrefix(first, rest, 0, length);
      assert first[0..length] == first;
    } else {
      PackAllSlice(length, t[1..], n - 1);
      SliceOfSuffix(first, rest, (n - 1) * length, length);
    }
  }

  lemma SliceOfPrefix(a: seq<byte>, b: seq<byte>, at: nat, n: nat)
    requires at + n <= |a|
    ensures (a + b)[at..at + n] == a[at..at + n]
  {
  }

  lemma SliceOfSuffix(a: seq<byte>, b: seq<byte>, at: nat, n: nat)
    requires at + n <= |b|
    ensures (a + b)[|a| + at..|a| + at + n] == b[at..at + n]
  {
  }

  /** Reading node `n` of a file that begins with packed nodes. */
  lemma PackedNode(file: seq<byte>, length: nat, t: seq<Node>, rest: seq<byte>, n: nat, at: nat)
    requires KnownLength(length) && n < |t| && (forall m | m in t :: NodeFits(length, m))
    requires file == PackAll(length, t) + rest && at == n * length
    ensures at + length <= |file| && NodeAt(file, length, at) == t[n]
  {
    hide PackAll, Pack, NodeAt, NodeFits, KnownLength;
    PackAllSlice(length, t, n);
    PackedAt(file, length, PackAll(length, t), rest, at, t[n]);
  }

  lemma PackedAt(file: seq<byte>, length: nat, packed: seq<byte>, rest: seq<byte>, at: nat, node: Node)
    requires NodeFits(length, node) && file == packed + rest && at + length <= |packed|
    requires packed[at..at + length] == Pack(length, node)
    ensures at + length <= |file| && NodeAt(file, length, at) == node
  {
    hide Pack, NodeAt;
    SliceOfPrefix(packed, rest, at, length);
    UnpackPack(file, length, at, node);
  }

  lemma Multiples(n: nat, count: nat, length: nat)
    requires n < count
    ensures n * length + length <= count * length
    ensures count * length == length + (count - 1) * length
    ensures n > 0 ==> n * length == length + (n - 1) * length
  {
    assert n * length + length == (n + 1) * length;
    Scale(n + 1, count, length);
  }
}
