/**
  The data section as the MaxMind DB File Format Specification 2.0 describes it ("Output Data Section"): an encoder for
  fields, the tree of values a position denotes, and the theorem that decode_one reads back what the encoder wrote.
 */
module Layout {
  import opened Bytes
  import opened Decode

  // ----- values -----

  /** What a scalar field means.  Floating point numbers keep their bytes. */
  datatype Scalar =
    | Str(text: seq<byte>)
    | Dbl(raw: seq<byte>)
    | Bin(raw: seq<byte>)
    | Unsigned(bits: nat, n: nat)
    | Signed(i: int)
    | Bool(b: bool)
    | Flt(raw: seq<byte>)
    | Opaque(typ: nat)

  /** A pointer-free value.  The items of a map are key, value, key, value, ... */
  datatype Value =
    | Leaf(s: Scalar)
    | MapValue(items: seq<Value>)
    | ArrayValue(items: seq<Value>)

  /** How a value lies in the section.  A `Ref` is a pointer field together with the layout of what it points to. */
  datatype Layout =
    | Field(typ: nat, payload: seq<byte>)
    | Flag(on: bool)
    | MapOf(items: seq<Layout>)
    | ArrayOf(items: seq<Layout>)
    | Ref(form: nat, spare: nat, base: nat, target: Layout)

  predicate IsNode(d: Layout) {
    d.MapOf? || d.ArrayOf?
  }

  function TypeOf(d: Layout): nat {
    match d
    case Field(typ, _) => typ
    case Flag(_) => TYPE_BOOLEAN
    case MapOf(_) => TYPE_MAP
    case ArrayOf(_) => TYPE_ARRAY
    case Ref(_, _, _, _) => TYPE_POINTER
  }

  function ScalarOf(typ: nat, payload: seq<byte>): Scalar {
    if typ == TYPE_UTF8_STRING then Str(payload)
    else if typ == TYPE_DOUBLE then Dbl(payload)
    else if typ == TYPE_BYTES then Bin(payload)
    else if typ == TYPE_UINT16 then Unsigned(16, BigEndian(payload))
    else if typ == TYPE_UINT32 then Unsigned(32, BigEndian(payload))
    else if typ == TYPE_UINT64 then Unsigned(64, BigEndian(payload))
    else if typ == TYPE_UINT128 then Unsigned(128, BigEndian(payload))
    else if typ == TYPE_INT32 then
      var n := BigEndian(payload);
      Signed(if |payload| == 4 && payload[0] >= 128 then n - U32_RANGE else n)
    else if typ == TYPE_FLOAT then Flt(payload)
    else Opaque(typ)
  }

  /** The pointer-free value a layout stands for. */
  function Erase(d: Layout): Value
    decreases d
  {
    match d
    case Field(typ, payload) => Leaf(ScalarOf(typ, payload))
    case Flag(on) => Leaf(Bool(on))
    case MapOf(items) => MapValue(EraseAll(items))
    case ArrayOf(items) => ArrayValue(EraseAll(items))
    case Ref(_, _, _, target) => Erase(target)
  }

  function EraseAll(items: seq<Layout>): (vs: seq<Value>)
    ensures |vs| == |items|
    ensures forall i | 0 <= i < |items| :: vs[i] == Erase(items[i])
    decreases items
  {
    if items == [] then [] else [Erase(items[0])] + EraseAll(items[1..])
  }

  // ----- the encoder -----

  function SizeCode(size: nat): nat {
    if size < 29 then size else if size < 285 then 29 else if size < 65821 then 30 else 31
  }

  function SizeBytes(size: nat): (s: seq<byte>)
    requires size <= MAX_SIZE
    ensures |s| == ExtraSizeBytes(SizeCode(size))
  {
    if size < 29 then []
    else if size < 285 then [size - 29]
    else if size < 65821 then Put16(size - 285)
    else Put24(size - 65821)
  }

  function TypeBytes(typ: nat, code: nat): (s: seq<byte>)
    requires 2 <= typ < 263 && code < 32
  {
    if typ <= 7 then [typ * 32 + code] else [code, typ - 7]
  }

  /** Control byte, extended type byte and size bytes. */
  function Header(typ: nat, size: nat): seq<byte>
    requires 2 <= typ < 263 && size <= MAX_SIZE
  {
    TypeBytes(typ, SizeCode(size)) + SizeBytes(size)
  }

  predicate PointerFits(form: nat, spare: nat, base: nat) {
    match form
    case 0 => spare == 0 && base < 2048
    case 1 => spare == 0 && 2048 <= base < 526336
    case 2 => spare == 0 && 526336 <= base < 134744064
    case 3 => spare < 8 && base < U32_RANGE
    case _ => false
  }

  /** The three low bits of a pointer's control byte: the top of the value, or ignored bits in the last form. */
  function PointerLow(form: nat, spare: nat, base: nat): (low: nat)
    requires PointerFits(form, spare, base)
    ensures low < 8
  {
    match form
    case 0 => base / 256
    case 1 => (base - 2048) / U16_RANGE
    case 2 => (base - 526336) / U24_RANGE
    case _ => spare
  }

  function PointerTail(form: nat, spare: nat, base: nat): (s: seq<byte>)
    requires PointerFits(form, spare, base)
    ensures |s| == form + 1
  {
    match form
    case 0 => [base % 256]
    case 1 => Put16((base - 2048) % U16_RANGE)
    case 2 => Put24((base - 526336) % U24_RANGE)
    case _ => Put32(base)
  }

  /** The four pointer forms of the section "Pointers". */
  function PointerBytes(form: nat, spare: nat, base: nat): (s: seq<byte>)
    requires PointerFits(form, spare, base)
    ensures |s| == form + 2
  {
    [32 + form * 8 + PointerLow(form, spare, base)] + PointerTail(form, spare, base)
  }

  predicate FieldFits(typ: nat, size: nat) {
    && 2 <= typ < 263 && !IsContainer(typ) && typ != TYPE_BOOLEAN
    && size <= MAX_SIZE && PayloadFits(typ, size)
  }

  /** The payload lengths the specification gives for numbers. */
  predicate PayloadFits(typ: nat, size: nat) {
    && (typ == TYPE_UINT16 ==> size <= 2)
    && (typ in {TYPE_UINT32, TYPE_INT32} ==> size <= 4)
    && (typ == TYPE_UINT64 ==> size <= 8)
    && (typ == TYPE_UINT128 ==> size <= 16)
    && (typ == TYPE_FLOAT ==> size == 4)
    && (typ == TYPE_DOUBLE ==> size == 8)
  }

  // ----- a section that holds a layout -----

  ghost predicate Holds(mem: seq<byte>, at: nat, s: seq<byte>) {
    at + |s| <= |mem| && mem[at..at + |s|] == s
  }

  lemma HoldsAt(mem: seq<byte>, at: nat, s: seq<byte>, i: nat)
    requires Holds(mem, at, s) && i < |s|
    ensures at + i < |mem| && mem[at + i] == s[i]
  {
    assert mem[at..at + |s|][i] == s[i];
  }

  lemma HoldsParts(mem: seq<byte>, at: nat, a: seq<byte>, b: seq<byte>)
    requires Holds(mem, at, a + b)
    ensures Holds(mem, at, a) && Holds(mem, at + |a|, b)
  {
    assert mem[at..at + |a + b|][..|a|] == a;
    assert mem[at..at + |a + b|][|a|..] == b;
    assert mem[at..at + |a + b|][..|a|] == mem[at..at + |a|];
    assert mem[at..at + |a + b|][|a|..] == mem[at + |a|..at + |a| + |b|];
  }

  lemma HoldsWhole(mem: seq<byte>, at: nat, a: seq<byte>, b: seq<byte>)
    requires Holds(mem, at, a) && Holds(mem, at + |a|, b)
    ensures Holds(mem, at, a + b)
  {
  }

  /** The counts and payload sizes of one field can be written down. */
  predicate HeadFits(d: Layout) {
    match d
    case Field(typ, payload) => FieldFits(typ, |payload|)
    case Flag(_) => true
    case MapOf(items) => |items| % 2 == 0 && |items| / 2 <= MAX_SIZE
    case ArrayOf(items) => |items| <= MAX_SIZE
    case Ref(form, spare, base, _) => PointerFits(form, spare, base) && base + SEPARATOR < U32_RANGE
  }

  /** The bytes of one field, without the items of a container. */
  function Head(d: Layout): seq<byte>
    requires HeadFits(d)
  {
    match d
    case Field(typ, payload) => Header(typ, |payload|) + payload
    case Flag(on) => Header(TYPE_BOOLEAN, if on then 1 else 0)
    case MapOf(items) => Header(TYPE_MAP, |items| / 2)
    case ArrayOf(items) => Header(TYPE_ARRAY, |items|)
    case Ref(form, spare, base, _) => PointerBytes(form, spare, base)
  }

  /** The section holds the layout `d` at offset `at`.  The base of a pointer counts from the end of the separator. */
  ghost predicate WellFormed(mem: seq<byte>, at: nat, d: Layout)
    decreases d
  {
    && HeadFits(d) && Holds(mem, at, Head(d))
    && match d
       case Field(_, _) => true
       case Flag(_) => true
       case MapOf(items) => WellFormedItems(mem, at + |Head(d)|, items)
       case ArrayOf(items) => WellFormedItems(mem, at + |Head(d)|, items)
       case Ref(_, _, base, target) => WellFormed(mem, base + SEPARATOR, target)
  }

  ghost predicate WellFormedItems(mem: seq<byte>, at: nat, items: seq<Layout>)
    decreases items
  {
    items == [] ||
    (WellFormed(mem, at, items[0]) && WellFormedItems(mem, at + |Encode(items[0])|, items[1..]))
  }

  /** The bytes a layout takes in its parent's stream.  A pointer takes only its own bytes. */
  function Encode(d: Layout): seq<byte>
    decreases d
  {
    if !HeadFits(d) then [] else if IsNode(d) then Head(d) + EncodeAll(d.items) else Head(d)
  }

  function EncodeAll(items: seq<Layout>): seq<byte>
    decreases items
  {
    if items == [] then [] else Encode(items[0]) + EncodeAll(items[1..])
  }

  /** Every field of the stream can be written down. */
  predicate Fits(d: Layout)
    decreases d
  {
    HeadFits(d) && (IsNode(d) ==> FitsAll(d.items))
  }

  predicate FitsAll(items: seq<Layout>)
    decreases items
  {
    items == [] || (Fits(items[0]) && FitsAll(items[1..]))
  }

  lemma {:induction false} WellFormedEncodes(mem: seq<byte>, at: nat, d: Layout)
    requires WellFormed(mem, at, d)
    ensures Fits(d) && Holds(mem, at, Encode(d))
    decreases d
  {
    hide Head;
    if IsNode(d) {
      WellFormedEncodesAll(mem, at + |Head(d)|, d.items);
      HoldsWhole(mem, at, Head(d), EncodeAll(d.items));
    }
  }

  lemma {:induction false} WellFormedEncodesAll(mem: seq<byte>, at: nat, items: seq<Layout>)
    requires WellFormedItems(mem, at, items) && at <= |mem|
    ensures FitsAll(items) && Holds(mem, at, EncodeAll(items))
    decreases items
  {
    hide Head;
    if items != [] {
      WellFormedEncodes(mem, at, items[0]);
      WellFormedEncodesAll(mem, at + |Encode(items[0])|, items[1..]);
      HoldsWhole(mem, at, Encode(items[0]), EncodeAll(items[1..]));
    }
  }

  /** What the pointers of a layout lead to is held by the section. */
  ghost predicate TargetsHold(mem: seq<byte>, d: Layout)
    decreases d
  {
    (d.Ref? ==> WellFormed(mem, d.base + SEPARATOR, d.target)) && (IsNode(d) ==> TargetsHoldAll(mem, d.items))
  }

  ghost predicate TargetsHoldAll(mem: seq<byte>, items: seq<Layout>)
    decreases items
  {
    items == [] || (TargetsHold(mem, items[0]) && TargetsHoldAll(mem, items[1..]))
  }

  /** Conversely, writing the encoding of any layout whose fields fit, with its pointers leading to layouts, makes the
      section hold it: every value has well-formed sections. */
  lemma {:induction false} EncodingIsWellFormed(mem: seq<byte>, at: nat, d: Layout)
    requires Fits(d) && Holds(mem, at, Encode(d)) && TargetsHold(mem, d)
    ensures WellFormed(mem, at, d)
    decreases d
  {
    hide Head, Holds;
    if IsNode(d) {
      HoldsParts(mem, at, Head(d), EncodeAll(d.items));
      EncodingsAreWellFormed(mem, at + |Head(d)|, d.items);
    }
  }

  lemma {:induction false} EncodingsAreWellFormed(mem: seq<byte>, at: nat, items: seq<Layout>)
    requires FitsAll(items) && Holds(mem, at, EncodeAll(items)) && TargetsHoldAll(mem, items)
    ensures WellFormedItems(mem, at, items)
    decreases items
  {
    hide Head, Holds;
    if items != [] {
      HoldsParts(mem, at, Encode(items[0]), EncodeAll(items[1..]));
      EncodingIsWellFormed(mem, at, items[0]);
      EncodingsAreWellFormed(mem, at + |Encode(items[0])|, items[1..]);
    }
  }

  /** The specification's rules beyond the encoding: a pointer never points to a pointer, a map key is a string or a
      pointer to one. */
  ghost predicate Conforms(d: Layout)
    decreases d
  {
    match d
    case Field(_, _) => true
    case Flag(_) => true
    case MapOf(items) =>
      ConformsAll(items) && KeysAreStrings(items)
    case ArrayOf(items) => ConformsAll(items)
    case Ref(_, _, _, target) => !target.Ref? && Conforms(target)
  }

  ghost predicate KeysAreStrings(items: seq<Layout>) {
    forall i | 0 <= i < |items| && i % 2 == 0 :: Target(items[i]).Field? && Target(items[i]).typ == TYPE_UTF8_STRING
  }

  ghost predicate ConformsAll(items: seq<Layout>)
    decreases items
  {
    items == [] || (Conforms(items[0]) && ConformsAll(items[1..]))
  }

  /** The layout behind at most one pointer, and where it lies. */
  function Target(d: Layout): Layout {
    if d.Ref? then d.target else d
  }

  function TargetAt(at: nat, d: Layout): nat {
    if d.Ref? then d.base + SEPARATOR else at
  }

  /** Separator, the string "a", and an array of two pointers to it. */
  const SHARED: seq<byte> := [0, 0, 0, 0, 0, 0, 0, 0, 0, 0, 0, 0, 0, 0, 0, 0, 65, 97, 2, 4, 32, 0, 32, 0]

  /** A conforming section in which one value is shared. */
  lemma SharedSection()
    ensures var a := Ref(0, 0, 0, Field(TYPE_UTF8_STRING, [97]));
            && WellFormed(SHARED, 18, ArrayOf([a, a])) && Conforms(ArrayOf([a, a]))
            && Erase(ArrayOf([a, a])) == ArrayValue([Leaf(Str([97])), Leaf(Str([97]))])
  {
    var text := Field(TYPE_UTF8_STRING, [97]);
    var a := Ref(0, 0, 0, text);
    var items := [a, a];
    assert SHARED[16..18] == Head(text);
    assert WellFormed(SHARED, 16, text);
    assert SHARED[18..20] == Head(ArrayOf(items)) && SHARED[20..22] == Head(a) && SHARED[22..24] == Head(a);
    var rest := items[1..];
    assert rest == [a] && rest[1..] == [];
    assert WellFormed(SHARED, 22, a) && WellFormedItems(SHARED, 24, rest[1..]);
    assert WellFormedItems(SHARED, 22, rest);
    assert ConformsAll(rest[1..]) && ConformsAll(rest);
    assert EraseAll(rest[1..]) == [] && EraseAll(rest) == [Erase(a)];
  }

  // ----- what a decoded entry says -----

  /** What a consumer of MMDB_entry_data_s learns from one entry. */
  datatype Item =
    | ScalarItem(s: Scalar)
    | MapHead(pairs: nat)
    | ArrayHead(count: nat)
    | Unreadable

  /** The string a utf8_string entry points to, when it lies inside the section. */
  predicate HasText(mem: seq<byte>, e: Entry) {
    match e.datum
    case EmptyText => e.dataSize == 0
    case Text(start) => start + e.dataSize <= |mem|
    case _ => false
  }

  function TextOf(mem: seq<byte>, e: Entry): seq<byte>
    requires HasText(mem, e)
  {
    if e.datum.EmptyText? then [] else mem[e.datum.textStart..e.datum.textStart + e.dataSize]
  }

  function Meaning(mem: seq<byte>, e: Entry): Item {
    if e.typ == TYPE_MAP then MapHead(e.dataSize)
    else if e.typ == TYPE_ARRAY then ArrayHead(e.dataSize)
    else if e.typ == TYPE_UTF8_STRING then if HasText(mem, e) then ScalarItem(Str(TextOf(mem, e))) else Unreadable
    else if e.typ == TYPE_BYTES then
      if e.datum.Blob? && e.datum.blobStart + e.dataSize <= |mem|
      then ScalarItem(Bin(mem[e.datum.blobStart..e.datum.blobStart + e.dataSize])) else Unreadable
    else if e.typ == TYPE_DOUBLE then if e.datum.Double? then ScalarItem(Dbl(e.datum.raw)) else Unreadable
    else if e.typ == TYPE_FLOAT then if e.datum.Float? then ScalarItem(Flt(e.datum.raw)) else Unreadable
    else if e.typ == TYPE_UINT16 then if e.datum.UInt16? then ScalarItem(Unsigned(16, e.datum.u16)) else Unreadable
    else if e.typ == TYPE_UINT32 then if e.datum.UInt32? then ScalarItem(Unsigned(32, e.datum.u32)) else Unreadable
    else if e.typ == TYPE_UINT64 then if e.datum.UInt64? then ScalarItem(Unsigned(64, e.datum.u64)) else Unreadable
    else if e.typ == TYPE_UINT128 then if e.datum.UInt128? then ScalarItem(Unsigned(128, e.datum.u128)) else Unreadable
    else if e.typ == TYPE_INT32 then if e.datum.Int32? then ScalarItem(Signed(e.datum.i32)) else Unreadable
    else if e.typ == TYPE_BOOLEAN then if e.datum.Boolean? then ScalarItem(Bool(e.datum.b)) else Unreadable
    else ScalarItem(Opaque(e.typ))
  }

  /** Overwriting offset_to_next does not change what an entry says. */
  lemma MeaningIgnoresNext(mem: seq<byte>, e: Entry, next: nat)
    ensures Meaning(mem, e.(offsetToNext := next)) == Meaning(mem, e)
  {
  }

  /** What an entry says does not depend on the members its decoding left stale. */
  lemma MeaningIsSettled(mem: seq<byte>, e: Entry, e': Entry)
    requires Settled(e) == Settled(e')
    ensures Meaning(mem, e) == Meaning(mem, e')
  {
    SettledParts(e, e');
  }

  /** What the first entry of a layout that is not a pointer should say. */
  function HeadItem(d: Layout): Item
    requires !d.Ref?
  {
    match d
    case Field(typ, payload) => ScalarItem(ScalarOf(typ, payload))
    case Flag(on) => ScalarItem(Bool(on))
    case MapOf(items) => MapHead(|items| / 2)
    case ArrayOf(items) => ArrayHead(|items|)
  }

  // ----- decode_one reads back what the encoder wrote -----

  lemma DecodeHeader(mem: seq<byte>, at: nat, typ: nat, size: nat)
    requires 2 <= typ < 263 && size <= MAX_SIZE && Holds(mem, at, Header(typ, size))
    ensures HasType(mem, at) && TypeAt(mem, at) == typ
    ensures mem[at] % 32 == SizeCode(size)
    ensures BodyAt(mem, at) + ExtraSizeBytes(SizeCode(size)) == at + |Header(typ, size)| <= |mem|
    ensures SizeAt(mem, SizeCode(size), BodyAt(mem, at)) == size
  {
    var code := SizeCode(size);
    var t, s := TypeBytes(typ, code), SizeBytes(size);
    HoldsParts(mem, at, t, s);
    HoldsAt(mem, at, t, 0);
    if typ > 7 {
      HoldsAt(mem, at, t, 1);
    }
    HoldsSize(mem, at + |t|, s);
  }

  lemma HoldsSize(mem: seq<byte>, at: nat, s: seq<byte>)
    requires Holds(mem, at, s)
    ensures |s| >= 1 ==> mem[at] == s[0]
    ensures |s| >= 2 ==> GetUint16(mem, at) == GetUint16(s, 0)
    ensures |s| >= 3 ==> GetUint24(mem, at) == GetUint24(s, 0)
    ensures |s| >= 4 ==> GetUint32(mem, at) == GetUint32(s, 0)
  {
    forall i | 0 <= i < |s| ensures mem[at + i] == s[i] {
      HoldsAt(mem, at, s, i);
    }
    if |s| >= 2 { HoldsAt(mem, at, s, 1); }
    if |s| >= 3 { HoldsAt(mem, at, s, 2); }
    if |s| >= 4 { HoldsAt(mem, at, s, 3); }
  }

  /** Every pointer form reads back as the pointer that was written. */
  lemma DecodePointer(mem: seq<byte>, at: nat, form: nat, spare: nat, base: nat)
    requires PointerFits(form, spare, base) && Holds(mem, at, PointerBytes(form, spare, base))
    ensures HasType(mem, at) && TypeAt(mem, at) == TYPE_POINTER && BodyAt(mem, at) == at + 1
    ensures mem[at] / 8 % 4 == form && at + form + 2 <= |mem|
    ensures PointerTarget(mem, mem[at], form, at + 1) == (SEPARATOR + base) % U32_RANGE
  {
    var low, tail := PointerLow(form, spare, base), PointerTail(form, spare, base);
    var ctrl: byte := 32 + form * 8 + low;
    HoldsParts(mem, at, [ctrl], tail);
    HoldsAt(mem, at, [ctrl], 0);
    HoldsSize(mem, at + 1, tail);
    ControlParts(form, low);
    PointerValue(form, spare, base);
  }

  lemma ControlParts(form: nat, low: nat)
    requires form < 4 && low < 8
    ensures var ctrl := 32 + form * 8 + low; ctrl / 32 == TYPE_POINTER && ctrl / 8 % 4 == form && ctrl % 8 == low
  {
  }

  lemma PointerValue(form: nat, spare: nat, base: nat)
    requires PointerFits(form, spare, base)
    ensures var low, tail := PointerLow(form, spare, base), PointerTail(form, spare, base);
            && (form == 0 ==> low * 256 + tail[0] == base)
            && (form == 1 ==> 2048 + low * 65536 + GetUint16(tail, 0) == base)
            && (form == 2 ==> 526336 + low * 16777216 + GetUint24(tail, 0) == base)
            && (form == 3 ==> GetUint32(tail, 0) == base)
  {
    if form == 0 {
      assert base / 256 * 256 + base % 256 == base;
    }
  }

  /** A payload short enough for its type is not changed by the narrowing cast. */
  lemma PayloadBounds(typ: nat, payload: seq<byte>)
    requires SizeAllowed(typ, |payload|)
    ensures typ == TYPE_UINT16 ==> BigEndian(payload) < U16_RANGE
    ensures typ == TYPE_UINT32 || typ == TYPE_INT32 ==> BigEndian(payload) < U32_RANGE
    ensures typ == TYPE_INT32 ==> (BigEndian(payload) >= U31_RANGE <==> |payload| == 4 && payload[0] >= 128)
  {
    BigEndianBound(payload);
    if typ == TYPE_UINT16 {
      Pow256Monotone(|payload|, 2);
      assert Pow256(2) == U16_RANGE;
    }
    if typ == TYPE_UINT32 || typ == TYPE_INT32 {
      Pow256Monotone(|payload|, 4);
      Pow256Values();
    }
    if typ == TYPE_INT32 {
      SignBit(payload);
    }
  }

  lemma Pow256Values()
    ensures Pow256(3) == U24_RANGE && Pow256(4) == U32_RANGE
  {
    assert Pow256(1) == 256;
    assert Pow256(2) == 65536;
    assert Pow256(3) == 16777216;
  }

  lemma SignBit(payload: seq<byte>)
    requires |payload| <= 4
    ensures BigEndian(payload) >= U31_RANGE <==> |payload| == 4 && payload[0] >= 128
  {
    BigEndianBound(payload);
    Pow256Values();
    if |payload| < 4 {
      Pow256Monotone(|payload|, 3);
    } else {
      var p3, p2, p1 := payload[..3], payload[..2], payload[..1];
      assert p3[..2] == p2 && p2[..1] == p1 && p1[..0] == [];
      assert BigEndian(p1) == payload[0];
      assert BigEndian(p2) == BigEndian(p1) * 256 + payload[1];
      assert BigEndian(p3) == BigEndian(p2) * 256 + payload[2];
      assert BigEndian(payload) == BigEndian(p3) * 256 + payload[3];
    }
  }

  /** The number a payload denotes in two's complement of its own width. */
  function TwosComplement(payload: seq<byte>): int {
    if payload != [] && payload[0] >= 128 then BigEndian(payload) - Pow256(|payload|) else BigEndian(payload)
  }

  /** The specification stores negative numbers in two's complement.  get_sintX does not extend the sign of payloads
      shorter than 4 bytes, so int32 fields mean what the specification says exactly in these cases. */
  lemma SignedExactly(payload: seq<byte>)
    requires |payload| <= 4
    ensures ScalarOf(TYPE_INT32, payload) == Signed(TwosComplement(payload)) <==>
              payload == [] || |payload| == 4 || payload[0] < 128
  {
    Pow256Values();
  }

  /** The field round trip: wherever the encoder wrote a field, decode_one recovers its type, size and value, and the
      next offset is one past what was written (past the header, for a container). */
  lemma DecodeLayout(mem: seq<byte>, at: nat, d: Layout, before: Entry)
    requires |mem| < U32_RANGE && HeadFits(d) && Holds(mem, at, Head(d))
    ensures DecodeSpec(mem, at, before).0 == Success
    ensures var e := DecodeSpec(mem, at, before).1;
            && e.hasData && e.offset == at && e.typ == TypeOf(d)
            && e.offsetToNext == at + |Head(d)|
            && (if d.Ref? then e.datum == Pointer(d.base + SEPARATOR) else Meaning(mem, e) == HeadItem(d))
  {
    hide DecodeSpec, DecodeSized, HasType, PointerTarget, Header, PointerBytes;
    match d
    case Field(typ, payload) =>
      DecodeField(mem, at, typ, payload, before);
    case Flag(on) =>
      DecodeHeaderOnly(mem, at, TYPE_BOOLEAN, if on then 1 else 0, before);
    case MapOf(items) =>
      DecodeHeaderOnly(mem, at, TYPE_MAP, |items| / 2, before);
    case ArrayOf(items) =>
      DecodeHeaderOnly(mem, at, TYPE_ARRAY, |items|, before);
    case Ref(form, spare, base, _) =>
      DecodeRef(mem, at, form, spare, base, before);
  }

  /** A field that is all header. */
  lemma DecodeHeaderOnly(mem: seq<byte>, at: nat, typ: nat, size: nat, before: Entry)
    requires IsContainer(typ) || typ == TYPE_BOOLEAN
    requires size <= MAX_SIZE && Holds(mem, at, Header(typ, size))
    ensures DecodeSpec(mem, at, before).0 == Success
    ensures var e := DecodeSpec(mem, at, before).1;
            && e.hasData && e.offset == at && e.typ == typ && e.offsetToNext == at + |Header(typ, size)|
            && if IsContainer(typ) then e.dataSize == size else e.datum == Boolean(size != 0)
  {
    hide Header, SizeAt;
    DecodeHeader(mem, at, typ, size);
  }

  lemma DecodeRef(mem: seq<byte>, at: nat, form: nat, spare: nat, base: nat, before: Entry)
    requires PointerFits(form, spare, base) && base + SEPARATOR < U32_RANGE
    requires Holds(mem, at, PointerBytes(form, spare, base))
    ensures DecodeSpec(mem, at, before).0 == Success
    ensures var e := DecodeSpec(mem, at, before).1;
            && e.hasData && e.offset == at && e.typ == TYPE_POINTER && e.datum == Pointer(base + SEPARATOR)
            && e.offsetToNext == at + |PointerBytes(form, spare, base)|
  {
    hide PointerBytes, PointerTarget, DecodeSized;
    DecodePointer(mem, at, form, spare, base);
    Small(SEPARATOR + base, U32_RANGE);
  }

  lemma DecodeField(mem: seq<byte>, at: nat, typ: nat, payload: seq<byte>, before: Entry)
    requires |mem| < U32_RANGE && FieldFits(typ, |payload|) && Holds(mem, at, Header(typ, |payload|) + payload)
    ensures DecodeSpec(mem, at, before).0 == Success
    ensures var e := DecodeSpec(mem, at, before).1;
            && e.hasData && e.offset == at && e.typ == typ
            && e.offsetToNext == at + |Header(typ, |payload|) + payload|
            && Meaning(mem, e) == ScalarItem(ScalarOf(typ, payload))
  {
    var start := at + |Header(typ, |payload|)|;
    HoldsParts(mem, at, Header(typ, |payload|), payload);
    DecodeHeader(mem, at, typ, |payload|);
    assert mem[start..start + |payload|] == payload;
    var typed := before.(offset := at, hasData := true, typ := typ);
    assert DecodeSpec(mem, at, before) == DecodeSized(mem, typ, |payload|, start, typed);
    DecodeFieldSized(mem, typ, payload, start, typed);
  }

  lemma DecodeFieldSized(mem: seq<byte>, typ: nat, payload: seq<byte>, start: nat, typed: Entry)
    requires |mem| < U32_RANGE && FieldFits(typ, |payload|) && typed.typ == typ
    requires start + |payload| <= |mem| && mem[start..start + |payload|] == payload
    ensures var (status, e) := DecodeSized(mem, typ, |payload|, start, typed);
            && status == Success && e.hasData == typed.hasData && e.offset == typed.offset && e.typ == typ
            && e.offsetToNext == start + |payload|
            && Meaning(mem, e) == ScalarItem(ScalarOf(typ, payload))
  {
    PayloadBounds(typ, payload);
  }

  /** A number announced with a length its type does not allow is rejected, whatever follows. */
  lemma WrongLengthRejected(mem: seq<byte>, at: nat, typ: nat, size: nat, before: Entry)
    requires 2 <= typ < 263 && size <= MAX_SIZE && Holds(mem, at, Header(typ, size)) && !PayloadFits(typ, size)
    ensures DecodeSpec(mem, at, before).0 == InvalidData
  {
    DecodeHeader(mem, at, typ, size);
  }

  // ----- pointers, the other way round -----

  /** Below 134744064 every pointer value has exactly one of the three short forms. */
  lemma ShortFormsTile(base: nat)
    requires base < 134744064
    ensures exists form: nat :: form < 3 && PointerFits(form, 0, base)
    ensures forall f: nat, g: nat | f < 3 && g < 3 && PointerFits(f, 0, base) && PointerFits(g, 0, base) :: f == g
  {
    assert PointerFits(if base < 2048 then 0 else if base < 526336 then 1 else 2, 0, base);
  }

  /** Whatever bytes a short pointer holds, its value is in the range of its form and is written back as those bytes. */
  lemma ShortPointerRoundTrip(form: nat, low: nat, tail: seq<byte>)
    requires form < 3 && low < 8 && |tail| == form + 1
    ensures var ctrl: byte := 32 + form * 8 + low;
            var target := PointerTarget(tail, ctrl, form, 0);
            && target >= SEPARATOR && PointerFits(form, 0, target - SEPARATOR)
            && PointerBytes(form, 0, target - SEPARATOR) == [ctrl] + tail
  {
    hide PointerBytes, PointerTarget, ShortBase;
    ShortPointerBytes(form, low, tail);
    ShortTarget(form, low, tail);
  }

  lemma ShortTarget(form: nat, low: nat, tail: seq<byte>)
    requires form < 3 && low < 8 && |tail| == form + 1
    ensures PointerTarget(tail, 32 + form * 8 + low, form, 0) == SEPARATOR + ShortBase(form, low, tail)
  {
    ControlParts(form, low);
  }

  /** The value of a short pointer, by its form. */
  function ShortBase(form: nat, low: nat, tail: seq<byte>): nat
    requires form < 3 && |tail| == form + 1
  {
    if form == 0 then var b: nat := tail[0]; low * 256 + b
    else if form == 1 then 2048 + low * U16_RANGE + GetUint16(tail, 0)
    else 526336 + low * U24_RANGE + GetUint24(tail, 0)
  }

  lemma ShortPointerBytes(form: nat, low: nat, tail: seq<byte>)
    requires form < 3 && low < 8 && |tail| == form + 1
    ensures var base := ShortBase(form, low, tail);
            PointerFits(form, 0, base) && PointerBytes(form, 0, base) == [32 + form * 8 + low] + tail
  {
    if form == 1 {
      TopAndRest(low, GetUint16(tail, 0));
      Put16Get(tail);
    } else if form == 2 {
      TopAndRest(low, GetUint24(tail, 0));
      Put24Get(tail);
    } else {
      var b: nat := tail[0];
      assert (low * 256 + b) / 256 == low && (low * 256 + b) % 256 == b;
    }
  }

  lemma TopAndRest(top: nat, rest: nat)
    ensures rest < U16_RANGE ==>
              (top * U16_RANGE + rest) / U16_RANGE == top && (top * U16_RANGE + rest) % U16_RANGE == rest
    ensures rest < U24_RANGE ==>
              (top * U24_RANGE + rest) / U24_RANGE == top && (top * U24_RANGE + rest) % U24_RANGE == rest
  {
  }

  /** The long form holds any 32-bit value; the target wraps around exactly in the last 16 of them. */
  lemma LongPointer(mem: seq<byte>, at: nat, spare: nat, base: nat)
    requires PointerFits(3, spare, base) && Holds(mem, at, PointerBytes(3, spare, base))
    ensures HasType(mem, at) && at + 5 <= |mem|
    ensures PointerTarget(mem, mem[at], 3, at + 1) == SEPARATOR + base <==> base < U32_RANGE - SEPARATOR
  {
    DecodePointer(mem, at, 3, spare, base);
  }
}
