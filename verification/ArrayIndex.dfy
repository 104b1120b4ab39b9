/**
  How lookup_path_in_array reads an array index: strtol in the C locale with a 64-bit long, narrowed to int.
 */
module ArrayIndex {
  import opened Bytes

  const LONG_MAX: int := 0x7fff_ffff_ffff_ffff

  predicate IsSpace(b: byte) {
    b == 32 || 9 <= b <= 13
  }

  predicate IsDigit(b: byte) {
    48 <= b <= 57
  }

  /** The first position from `i` on that is not a space. */
  function SkipSpaces(s: seq<byte>, i: nat): (j: nat)
    requires i <= |s|
    ensures i <= j <= |s|
    decreases |s| - i
  {
    if i < |s| && IsSpace(s[i]) then SkipSpaces(s, i + 1) else i
  }

  function DigitsEnd(s: seq<byte>, i: nat): (j: nat)
    requires i <= |s|
    ensures i <= j <= |s| && (forall k | i <= k < j :: IsDigit(s[k])) && (j < |s| ==> !IsDigit(s[j]))
    decreases |s| - i
  {
    if i < |s| && IsDigit(s[i]) then DigitsEnd(s, i + 1) else i
  }

  predicate AllDigits(s: seq<byte>) {
    forall k | 0 <= k < |s| :: IsDigit(s[k])
  }

  function DecimalValue(s: seq<byte>): nat
    requires AllDigits(s)
  {
    if s == [] then 0 else DecimalValue(s[..|s| - 1]) * 10 + (s[|s| - 1] - 48)
  }

  datatype Parsed = Parsed(value: int, firstInvalid: nat, outOfRange: bool)

  function Strtol(s: seq<byte>): Parsed {
    var start := SkipSpaces(s, 0);
    var negative := start < |s| && s[start] == 45;
    var digits := if start < |s| && (s[start] == 45 || s[start] == 43) then start + 1 else start;
    var end := DigitsEnd(s, digits);
    if end == digits then Parsed(0, 0, false)
    else
      var n: int := DecimalValue(s[digits..end]);
      if negative then if n > LONG_MAX + 1 then Parsed(-LONG_MAX - 1, end, true) else Parsed(-n, end, false)
      else if n > LONG_MAX then Parsed(LONG_MAX, end, true) else Parsed(n, end, false)
  }

  datatype Index = Rejected(status: Status) | Index(n: nat)

  /** The index lookup_path_in_array works with, before it is compared with the size. */
  function ReadIndex(s: seq<byte>): Index {
    var p := Strtol(s);
    var narrowed := ToInt32(p.value % U32_RANGE);
    if narrowed < 0 || p.outOfRange then Rejected(InvalidLookupPath)
    else if p.firstInvalid < |s| then Rejected(LookupPathDoesNotMatchData)
    else Index(narrowed)
  }

  lemma DigitsReadFrom(s: seq<byte>, i: nat, end: nat)
    requires i <= end <= |s| && (forall k | i <= k < end :: IsDigit(s[k])) && (end < |s| ==> !IsDigit(s[end]))
    ensures DigitsEnd(s, i) == end
    decreases end - i
  {
  }

  /** The digits of a number, most significant first, without leading zeros. */
  function Decimal(n: nat): (s: seq<byte>)
    ensures s != [] && AllDigits(s)
  {
    if n < 10 then [48 + n] else Decimal(n / 10) + [48 + n % 10]
  }

  lemma {:induction false} DecimalRoundTrip(n: nat)
    ensures DecimalValue(Decimal(n)) == n
  {
    if n >= 10 {
      DecimalRoundTrip(n / 10);
      var s := Decimal(n);
      assert s[..|s| - 1] == Decimal(n / 10);
    } else {
      assert Decimal(n)[..0] == [];
    }
  }

  /** A nonempty string of digits is read as the number it denotes exactly when that number is below 2^31.  Larger
      ones are rejected or, when bit 31 is clear, taken for the number modulo 2^32. */
  lemma DigitsIndex(s: seq<byte>)
    requires s != [] && AllDigits(s)
    ensures var n := DecimalValue(s);
            && (ReadIndex(s) == Index(n) <==> n < U31_RANGE)
            && ReadIndex(s) == if n <= LONG_MAX && n % U32_RANGE < U31_RANGE then Index(n % U32_RANGE)
                               else Rejected(InvalidLookupPath)
  {
    hide ReadIndex, DecimalValue;
    NumberRead([], [], s, []);
    assert [] + [] + s + [] == s;
  }

  lemma IndexOfDecimal(n: nat)
    ensures ReadIndex(Decimal(n)) == Index(n) <==> n < U31_RANGE
  {
    DecimalRoundTrip(n);
    DigitsIndex(Decimal(n));
  }

  /** Index 2^32 is taken for 0, and so is the empty string. */
  lemma IndexAliases()
    ensures ReadIndex(Decimal(U32_RANGE)) == Index(0) && ReadIndex([]) == Index(0)
  {
    DecimalRoundTrip(U32_RANGE);
    DigitsIndex(Decimal(U32_RANGE));
  }

  /** A minus sign and digits are an invalid path, unless the number modulo 2^32 is 0 or above 2^31. */
  lemma NegativeIndex(s: seq<byte>)
    requires s != [] && AllDigits(s)
    ensures ReadIndex([45] + s) == Rejected(InvalidLookupPath) <==>
              DecimalValue(s) > LONG_MAX + 1 || 0 < DecimalValue(s) % U32_RANGE <= U31_RANGE
  {
    hide ReadIndex, DecimalValue;
    NumberRead([], [45], s, []);
    assert [] + [45] + s + [] == [45] + s;
    Negated(DecimalValue(s));
  }

  lemma Negated(n: int)
    ensures -n % U32_RANGE >= U31_RANGE <==> 0 < n % U32_RANGE <= U31_RANGE
  {
    var q, r := n / U32_RANGE, n % U32_RANGE;
    assert -n == U32_RANGE * (-q - 1) + (U32_RANGE - r);
    assert -n % U32_RANGE == if r == 0 then 0 else U32_RANGE - r;
  }

  lemma SignOfInt32(n: nat)
    requires n < U32_RANGE
    ensures ToInt32(n) < 0 <==> n >= U31_RANGE
  {
  }

  /** Digits with something else behind them do not match any element. */
  lemma TrailingCharacters(s: seq<byte>, t: seq<byte>)
    requires s != [] && AllDigits(s) && DecimalValue(s) < U31_RANGE && t != [] && !IsDigit(t[0])
    ensures ReadIndex(s + t) == Rejected(LookupPathDoesNotMatchData)
  {
    hide ReadIndex, DecimalValue;
    NumberRead([], [], s, t);
    assert [] + [] + s + t == s + t;
  }

  /** A nonempty string that does not begin with a space, a sign or a digit does not match any element. */
  lemma NoNumber(s: seq<byte>)
    requires s != [] && !IsSpace(s[0]) && !IsDigit(s[0]) && s[0] != 43 && s[0] != 45
    ensures ReadIndex(s) == Rejected(LookupPathDoesNotMatchData)
  {
  }

  // ----- every string -----

  /** The white space of the C locale. */
  predicate Blank(s: seq<byte>) {
    forall k | 0 <= k < |s| :: s[k] in {9, 10, 11, 12, 13, 32}
  }

  predicate StartsWithDigit(s: seq<byte>) {
    s != [] && s[0] in {48, 49, 50, 51, 52, 53, 54, 55, 56, 57}
  }

  lemma {:induction false} SpacesSkipped(s: seq<byte>, i: nat, end: nat)
    requires i <= end <= |s| && Blank(s[i..end]) && (end < |s| ==> s[end] !in {9, 10, 11, 12, 13, 32})
    ensures SkipSpaces(s, i) == end
    decreases end - i
  {
    if i < end {
      assert s[i] == s[i..end][0];
      assert Blank(s[i + 1..end]) by {
        assert s[i + 1..end] == s[i..end][1..];
      }
      SpacesSkipped(s, i + 1, end);
    }
  }

  /** What is read of white space, an optional sign, digits, and anything behind them: the number, refused when it
      does not fit 64 bits or when bit 31 of its two's complement is set, and else taken modulo 2^32. */
  lemma NumberRead(spaces: seq<byte>, sign: seq<byte>, s: seq<byte>, t: seq<byte>)
    requires Blank(spaces) && sign in {[], [43], [45]} && s != [] && AllDigits(s) && !StartsWithDigit(t)
    ensures var value: int := DecimalValue(s);
            var n := if sign == [45] then -value else value;
            ReadIndex(spaces + sign + s + t) ==
              if n < -0x8000_0000_0000_0000 || n > 0x7fff_ffff_ffff_ffff || n % 0x1_0000_0000 >= 0x8000_0000
              then Rejected(InvalidLookupPath)
              else if t != [] then Rejected(LookupPathDoesNotMatchData)
              else Index(n % 0x1_0000_0000)
  {
    hide DecimalValue, ToInt32;
    var whole := spaces + sign + s + t;
    var start := |spaces| + |sign|;
    var end := start + |s|;
    assert whole[0..|spaces|] == spaces && whole[start..end] == s;
    FirstCharacter(spaces, sign, s, t);
    SpacesSkipped(whole, 0, |spaces|);
    forall k | start <= k < end ensures IsDigit(whole[k]) {
      assert whole[k] == s[k - start];
    }
    DigitsReadFrom(whole, start, end);
    var value: int := DecimalValue(s);
    var n := if sign == [45] then -value else value;
    SignOfInt32(n % U32_RANGE);
    NarrowedKeeps(n % U32_RANGE);
  }

  lemma NarrowedKeeps(n: nat)
    requires n < U32_RANGE
    ensures ToInt32(n) >= 0 ==> ToInt32(n) == n
  {
  }

  lemma FirstCharacter(spaces: seq<byte>, sign: seq<byte>, s: seq<byte>, t: seq<byte>)
    requires sign in {[], [43], [45]} && s != [] && AllDigits(s)
    ensures var whole, i := spaces + sign + s + t, |spaces|;
            && whole[i] !in {9, 10, 11, 12, 13, 32}
            && (whole[i] == 45 <==> sign == [45]) && (whole[i] == 43 <==> sign == [43])
  {
    var whole, i := spaces + sign + s + t, |spaces|;
    assert whole[i] == if sign == [] then s[0] else sign[0];
  }

  /** Without a digit after the white space and the sign no number is read: only the empty string is index 0. */
  lemma NoNumberRead(spaces: seq<byte>, sign: seq<byte>, t: seq<byte>)
    requires Blank(spaces) && sign in {[], [43], [45]} && !StartsWithDigit(t)
    requires sign == [] && t != [] ==> t[0] !in {9, 10, 11, 12, 13, 32, 43, 45}
    ensures ReadIndex(spaces + sign + t) ==
              if spaces + sign + t == [] then Index(0) else Rejected(LookupPathDoesNotMatchData)
  {
    var whole := spaces + sign + t;
    var start := |spaces| + |sign|;
    assert whole[0..|spaces|] == spaces;
    assert |spaces| < |whole| ==> whole[|spaces|] == if sign == [] then t[0] else sign[0];
    SpacesSkipped(whole, 0, |spaces|);
    assert start < |whole| ==> whole[start] == t[0];
    DigitsReadFrom(whole, start, start);
  }

  /** A number is read digit by digit, the most significant first. */
  lemma {:induction false} DecimalDigit(s: seq<byte>, i: nat)
    requires AllDigits(s) && i < |s|
    ensures Pow10(|s| - 1 - i) > 0 && DecimalValue(s) / Pow10(|s| - 1 - i) % 10 == s[i] - 48
    decreases |s|
  {
    var rest, last: nat := s[..|s| - 1], s[|s| - 1] - 48;
    var n := DecimalValue(rest);
    assert DecimalValue(s) == n * 10 + last;
    if i == |s| - 1 {
      assert Pow10(0) == 1;
    } else {
      DecimalDigit(rest, i);
      DropDigit(10, n, last, Pow10(|rest| - 1 - i));
    }
  }

  function Pow10(n: nat): nat {
    if n == 0 then 1 else 10 * Pow10(n - 1)
  }
}
