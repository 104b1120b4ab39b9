/**
  Bytes and the big-endian readers of maxminddb.c.  Machine integers are modelled as `int` with the
  wrap-around written out where C has it.
 */
module Bytes {

  type byte = b: int | 0 <= b < 256

  const U16_RANGE: int := 0x1_0000
  const U24_RANGE: int := 0x100_0000
  const U28_RANGE: int := 0x1000_0000
  const U31_RANGE: int := 0x8000_0000
  const U32_RANGE: int := 0x1_0000_0000

  /** Every status the modelled functions return.  Two are not codes of the library.  `Undefined` marks the runs on
      which the C code reads memory outside the mapped file or follows a null pointer; `Wrapped` marks the point where
      skipping meets a field whose end does not fit 32 bits. */
  datatype Status =
    | Success
    | CorruptSearchTree
    | OutOfMemory
    | UnknownDatabaseFormat
    | InvalidData
    | InvalidLookupPath
    | LookupPathDoesNotMatchData
    | InvalidNodeNumber
    | Undefined
    | Wrapped

  function GetUint16(mem: seq<byte>, at: nat): nat
    requires at + 2 <= |mem|
  {
    var b0: nat, b1: nat := mem[at], mem[at + 1];
    b0 * 256 + b1
  }

  function GetUint24(mem: seq<byte>, at: nat): nat
    requires at + 3 <= |mem|
  {
    var b0: nat, b1: nat, b2: nat := mem[at], mem[at + 1], mem[at + 2];
    b0 * 65536 + b1 * 256 + b2
  }

  function GetUint32(mem: seq<byte>, at: nat): nat
    requires at + 4 <= |mem|
  {
    var b0: nat, b1: nat, b2: nat, b3: nat := mem[at], mem[at + 1], mem[at + 2], mem[at + 3];
    b0 * 16777216 + b1 * 65536 + b2 * 256 + b3
  }

  /** The number a byte string denotes, most significant byte first. */
  function BigEndian(s: seq<byte>): nat {
    if s == [] then 0 else BigEndian(s[..|s| - 1]) * 256 + s[|s| - 1]
  }

  function Pow2(n: nat): (p: nat)
    ensures p > 0
  {
    if n == 0 then 1 else 2 * Pow2(n - 1)
  }

  function Pow256(n: nat): nat {
    if n == 0 then 1 else 256 * Pow256(n - 1)
  }

  lemma {:induction false} BigEndianBound(s: seq<byte>)
    ensures BigEndian(s) < Pow256(|s|)
  {
    if s != [] {
      BigEndianBound(s[..|s| - 1]);
    }
  }

  lemma {:induction false} Pow256Monotone(m: nat, n: nat)
    requires m <= n
    ensures Pow256(m) <= Pow256(n)
    decreases n - m
  {
    if m < n {
      Pow256Monotone(m, n - 1);
    }
  }

  /** Dropping the last digit of a number in any base. */
  lemma DropDigit(base: nat, n: nat, digit: nat, p: nat)
    requires digit < base && p > 0
    ensures base * p > 0 && (n * base + digit) / (base * p) == n / p
  {
    var q, r := n / p, n % p;
    assert n * base + digit == q * (base * p) + (r * base + digit) by {
      assert n == q * p + r;
      assert n * base == (q * p) * base + r * base;
      assert (q * p) * base == q * (base * p);
    }
    Below(r, p, base, digit);
    Quotient(q, base * p, r * base + digit);
  }

  lemma Below(r: nat, p: nat, base: nat, digit: nat)
    requires r < p && digit < base
    ensures r * base + digit < base * p
  {
    assert (r + 1) * base <= p * base;
  }

  lemma Quotient(q: nat, m: nat, r: nat)
    requires r < m
    ensures (q * m + r) / m == q
  {
    var x, y := (q * m + r) / m, (q * m + r) % m;
    assert x * m + y == q * m + r;
    if q < x {
      Scale(q + 1, x, m);
    } else if x < q {
      Scale(x + 1, q, m);
    }
  }

  lemma Scale(a: nat, b: nat, c: nat)
    requires a <= b
    ensures a * c <= b * c
  {
  }

  /** Byte `i` of a number written most significant byte first is its digit to the base 256 at that place. */
  lemma {:induction false} BigEndianDigit(s: seq<byte>, i: nat)
    requires i < |s|
    ensures Pow256(|s| - 1 - i) > 0 && BigEndian(s) / Pow256(|s| - 1 - i) % 256 == s[i]
    decreases |s|
  {
    var rest, last: nat := s[..|s| - 1], s[|s| - 1];
    var n := BigEndian(rest);
    assert BigEndian(s) == n * 256 + last;
    if i == |s| - 1 {
      assert Pow256(0) == 1;
    } else {
      BigEndianDigit(rest, i);
      DropDigit(256, n, last, Pow256(|rest| - 1 - i));
    }
  }

  /** The fixed-width readers read the same numbers. */
  lemma BigEndianOfWidth(mem: seq<byte>, at: nat)
    ensures at + 1 <= |mem| ==> BigEndian(mem[at..at + 1]) == mem[at]
    ensures at + 2 <= |mem| ==> BigEndian(mem[at..at + 2]) == GetUint16(mem, at)
    ensures at + 3 <= |mem| ==> BigEndian(mem[at..at + 3]) == GetUint24(mem, at)
    ensures at + 4 <= |mem| ==> BigEndian(mem[at..at + 4]) == GetUint32(mem, at)
  {
    if at + 1 <= |mem| { OneByteMore(mem, at, 0); }
    if at + 2 <= |mem| { OneByteMore(mem, at, 1); }
    if at + 3 <= |mem| { OneByteMore(mem, at, 2); }
    if at + 4 <= |mem| { OneByteMore(mem, at, 3); }
  }

  lemma OneByteMore(mem: seq<byte>, at: nat, n: nat)
    requires at + n < |mem|
    ensures BigEndian(mem[at..at + n + 1]) == BigEndian(mem[at..at + n]) * 256 + mem[at + n]
  {
    assert mem[at..at + n + 1][..n] == mem[at..at + n];
  }

  /** get_uintX (width 8) and get_uint128 (width 16): the shift drops what leaves the accumulator. */
  method GetUintX(mem: seq<byte>, at: nat, length: nat, width: nat) returns (value: nat)
    requires at + length <= |mem| && length <= width
    ensures value == BigEndian(mem[at..at + length])
  {
    value := 0;
    for i := 0 to length
      invariant value == BigEndian(mem[at..at + i])
    {
      assert mem[at..at + i + 1][..i] == mem[at..at + i];
      BigEndianBound(mem[at..at + i + 1]);
      Pow256Monotone(i + 1, width);
      Small(BigEndian(mem[at..at + i + 1]), Pow256(width));
      value := (value * 256 + mem[at + i]) % Pow256(width);
    }
  }

  lemma Small(n: nat, m: nat)
    requires n < m
    ensures n % m == n
  {
  }

  /** get_sintX narrows the unsigned value to a 32-bit two's complement integer. */
  function ToInt32(n: nat): (r: int)
    requires n < U32_RANGE
    ensures -U31_RANGE <= r < U31_RANGE && (r - n) % U32_RANGE == 0
  {
    if n < U31_RANGE then n else n - U32_RANGE
  }

  // Fixed-width writers, used by the encoders that the readers are proved against.

  function Put16(n: nat): (s: seq<byte>)
    requires n < U16_RANGE
    ensures |s| == 2 && GetUint16(s, 0) == n
  {
    [n / 256, n % 256]
  }

  function Put24(n: nat): (s: seq<byte>)
    requires n < U24_RANGE
    ensures |s| == 3 && GetUint24(s, 0) == n
  {
    [n / 256 / 256, n / 256 % 256, n % 256]
  }

  function Put32(n: nat): (s: seq<byte>)
    requires n < U32_RANGE
    ensures |s| == 4 && GetUint32(s, 0) == n
  {
    [n / 256 / 256 / 256, n / 256 / 256 % 256, n / 256 % 256, n % 256]
  }

  // The readers and writers undo each other the other way round, too.

  lemma Put16Get(s: seq<byte>)
    requires |s| == 2
    ensures GetUint16(s, 0) < U16_RANGE && Put16(GetUint16(s, 0)) == s
  {
  }

  lemma Put24Get(s: seq<byte>)
    requires |s| == 3
    ensures GetUint24(s, 0) < U24_RANGE && Put24(GetUint24(s, 0)) == s
  {
  }

  lemma Put32Get(s: seq<byte>)
    requires |s| == 4
    ensures GetUint32(s, 0) < U32_RANGE && Put32(GetUint32(s, 0)) == s
  {
    var n, b0: nat, b1: nat, b2: nat := GetUint32(s, 0), s[0], s[1], s[2];
    assert n / 256 == b0 * 65536 + b1 * 256 + b2;
    assert n / 256 / 256 == b0 * 256 + b1;
  }
}
