/**
  The bits of an address, in the order the search tree is descended: most significant first.
 */
module Addresses {
  import opened Bytes
  import opened SearchTree

  /** Bit `k` of an address, the most significant bit of each byte first. */
  function BitOf(address: seq<byte>, k: nat): bool
    requires k < 8 * |address|
  {
    var b: nat := address[k / 8];
    b / Pow2(7 - k % 8) % 2 == 1
  }

  function BitsOf(address: seq<byte>): (bits: Bits)
    ensures |bits| == 8 * |address|
  {
    seq(8 * |address|, k requires 0 <= k < 8 * |address| => BitOf(address, k))
  }

  // ----- the bits are the binary digits of the address -----

  /** The number a sequence of bits denotes, most significant bit first. */
  function BinaryValue(bits: Bits): nat {
    if bits == [] then 0 else BinaryValue(bits[..|bits| - 1]) * 2 + if bits[|bits| - 1] then 1 else 0
  }

  lemma {:induction false} BinaryDigit(bits: Bits, k: nat)
    requires k < |bits|
    ensures bits[k] <==> BinaryValue(bits) / Pow2(|bits| - 1 - k) % 2 == 1
    decreases |bits|
  {
    var rest, last: nat := bits[..|bits| - 1], if bits[|bits| - 1] then 1 else 0;
    assert BinaryValue(bits) == BinaryValue(rest) * 2 + last;
    if k == |bits| - 1 {
      assert Pow2(0) == 1;
    } else {
      BinaryDigit(rest, k);
      DropDigit(2, BinaryValue(rest), last, Pow2(|rest| - 1 - k));
    }
  }

  /** A number written in binary with a given number of bits. */
  function Binary(n: nat, width: nat): (bits: Bits)
    ensures |bits| == width
  {
    if width == 0 then [] else Binary(n / 2, width - 1) + [n % 2 == 1]
  }

  lemma {:induction false} BinaryAt(n: nat, width: nat, i: nat)
    requires i < width
    ensures Binary(n, width)[i] <==> n / Pow2(width - 1 - i) % 2 == 1
    decreases width
  {
    if i == width - 1 {
      assert Pow2(0) == 1;
    } else {
      BinaryAt(n / 2, width - 1, i);
      DropDigit(2, n / 2, n % 2, Pow2(width - 2 - i));
    }
  }

  /** Writing a number behind other bits shifts them. */
  lemma {:induction false} BinaryAppended(bits: Bits, n: nat, width: nat)
    requires n < Pow2(width)
    ensures BinaryValue(bits + Binary(n, width)) == BinaryValue(bits) * Pow2(width) + n
    decreases width
  {
    var whole := bits + Binary(n, width);
    if width == 0 {
      assert whole == bits;
    } else {
      BinaryAppended(bits, n / 2, width - 1);
      assert whole[..|whole| - 1] == bits + Binary(n / 2, width - 1);
      assert BinaryValue(bits) * Pow2(width) == BinaryValue(bits) * Pow2(width - 1) * 2;
    }
  }

  lemma BitInByte(address: seq<byte>, j: nat, i: nat)
    requires j < |address| && i < 8
    ensures 8 * j + i < 8 * |address| && (BitsOf(address)[8 * j + i] <==> address[j] / Pow2(7 - i) % 2 == 1)
  {
    Place(j, i);
  }

  /** The eight bits that the byte at `j` contributes to an address: the one worth 128 comes first. */
  lemma BitsOfByte(address: seq<byte>, j: nat)
    requires j < |address|
    ensures var bits, b: nat := BitsOf(address), address[j];
            && bits[8 * j] == (b >= 128) && bits[8 * j + 1] == (b / 64 % 2 == 1)
            && bits[8 * j + 2] == (b / 32 % 2 == 1) && bits[8 * j + 3] == (b / 16 % 2 == 1)
            && bits[8 * j + 4] == (b / 8 % 2 == 1) && bits[8 * j + 5] == (b / 4 % 2 == 1)
            && bits[8 * j + 6] == (b / 2 % 2 == 1) && bits[8 * j + 7] == (b % 2 == 1)
  {
    hide BitOf, Pow2;
    Powers();
    TopBit(address[j]);
    BitInByte(address, j, 0);
    BitInByte(address, j, 1);
    BitInByte(address, j, 2);
    BitInByte(address, j, 3);
    BitInByte(address, j, 4);
    BitInByte(address, j, 5);
    BitInByte(address, j, 6);
    BitInByte(address, j, 7);
  }

  lemma ByteInBinary(address: seq<byte>, j: nat)
    requires j < |address|
    ensures BitsOf(address)[8 * j..8 * j + 8] == Binary(address[j], 8)
  {
    hide BitOf, Pow2, Binary;
    var bits := BitsOf(address)[8 * j..8 * j + 8];
    forall i | 0 <= i < 8 ensures bits[i] == Binary(address[j], 8)[i] {
      BitInByte(address, j, i);
      BinaryAt(address[j], 8, i);
    }
  }

  lemma Powers()
    ensures Pow2(0) == 1 && Pow2(1) == 2 && Pow2(2) == 4 && Pow2(3) == 8
    ensures Pow2(4) == 16 && Pow2(5) == 32 && Pow2(6) == 64 && Pow2(7) == 128 && Pow2(8) == 256
  {
  }

  lemma Place(j: nat, i: nat)
    requires i < 8
    ensures (8 * j + i) / 8 == j && (8 * j + i) % 8 == i
  {
  }

  lemma TopBit(n: nat)
    requires n < 256
    ensures n / 128 % 2 == 1 <==> n >= 128
  {
  }

  /** The bits of an address denote the same number as its bytes. */
  lemma {:induction false} BitsDenoteAddress(address: seq<byte>)
    ensures BinaryValue(BitsOf(address)) == BigEndian(address)
    decreases |address|
  {
    hide BinaryValue, BitOf, Binary;
    if address == [] {
      NoBits();
    } else {
      var last := |address| - 1;
      var rest := address[..last];
      ByteInBinary(address, last);
      var bits := BitsOf(address);
      forall k | 0 <= k < 8 * last ensures bits[k] == BitsOf(rest)[k] {
        SameBit(rest, address, k);
      }
      assert bits == BitsOf(rest) + bits[8 * last..8 * last + 8];
      BitsDenoteAddress(rest);
      Powers();
      BinaryAppended(BitsOf(rest), address[last], 8);
    }
  }

  lemma NoBits()
    ensures BinaryValue([]) == 0
  {
  }

  lemma SameBit(rest: seq<byte>, address: seq<byte>, k: nat)
    requires rest <= address && k < 8 * |rest|
    ensures BitOf(address, k) == BitOf(rest, k)
  {
  }

  /** The bit looked at after `k` others is the binary digit of the address at that place. */
  lemma BitIsDigit(address: seq<byte>, k: nat)
    requires k < 8 * |address|
    ensures BitsOf(address)[k] <==> BigEndian(address) / Pow2(8 * |address| - 1 - k) % 2 == 1
  {
    BitsDenoteAddress(address);
    BinaryDigit(BitsOf(address), k);
  }

  // ----- IPv4 addresses in an IPv6 tree -----

  const TWELVE_ZEROS: seq<byte> := [0, 0, 0, 0, 0, 0, 0, 0, 0, 0, 0, 0]

  lemma MappedAddress(address: seq<byte>)
    requires |address| == 4
    ensures IsMapped(BitsOf(TWELVE_ZEROS + address))
    ensures forall k | 0 <= k < 32 :: BitsOf(TWELVE_ZEROS + address)[96 + k] == BitsOf(address)[k]
  {
    var whole := TWELVE_ZEROS + address;
    forall k | 0 <= k < 96 ensures !BitsOf(whole)[k] {
      assert whole[k / 8] == 0;
    }
    forall k | 0 <= k < 32 ensures BitsOf(whole)[96 + k] == BitsOf(address)[k] {
      assert whole[(96 + k) / 8] == address[k / 8];
    }
  }
}
