/**
  The table of data types and the size and pointer encodings of the MaxMind DB File Format Specification 2.0 (section
  "Data Field Format"), in numbers, against what decode_one reads.  Nothing here uses the decoder's own names for the
  types, or the encoder.
 */
module FieldTable {
  import opened Bytes
  import opened Decode
  import opened Layout

  function Num(mem: seq<byte>, i: nat): nat
    requires i < |mem|
  {
    mem[i]
  }

  /** The bytes at `at` announce a field of type number `t` with `size` bytes of payload, or that many items, from
      `start` on. */
  predicate HeaderAt(mem: seq<byte>, at: nat, t: nat, size: nat, start: nat) {
    && at < |mem|
    && var ctrl: nat := Num(mem, at);
       var body := if ctrl < 32 then at + 2 else at + 1;
       && body <= |mem|
       && t == (if ctrl < 32 then 7 + Num(mem, at + 1) else ctrl / 32)
       && SizeField(mem, ctrl % 32, body, size, start)
  }

  predicate SizeField(mem: seq<byte>, n: nat, body: nat, size: nat, start: nat) {
    if n < 29 then size == n && start == body
    else if n == 29 then body + 1 <= |mem| && size == 29 + Num(mem, body) && start == body + 1
    else if n == 30 then
      body + 2 <= |mem| && size == 285 + Num(mem, body) * 256 + Num(mem, body + 1) && start == body + 2
    else
      && body + 3 <= |mem| && start == body + 3
      && size == 65821 + Num(mem, body) * 65536 + Num(mem, body + 1) * 256 + Num(mem, body + 2)
  }

  /** The control bytes of the table, with sizes below 29. */
  lemma ControlBytes(mem: seq<byte>, at: nat, n: nat)
    requires n < 29 && at < |mem|
    ensures Num(mem, at) == 64 + n ==> HeaderAt(mem, at, 2, n, at + 1)
    ensures Num(mem, at) == 96 + n ==> HeaderAt(mem, at, 3, n, at + 1)
    ensures Num(mem, at) == 128 + n ==> HeaderAt(mem, at, 4, n, at + 1)
    ensures Num(mem, at) == 160 + n ==> HeaderAt(mem, at, 5, n, at + 1)
    ensures Num(mem, at) == 192 + n ==> HeaderAt(mem, at, 6, n, at + 1)
    ensures Num(mem, at) == 224 + n ==> HeaderAt(mem, at, 7, n, at + 1)
    ensures at + 1 < |mem| && Num(mem, at) == n ==> HeaderAt(mem, at, 7 + Num(mem, at + 1), n, at + 2)
  {
  }

  /** The announced field, as far as decode_one has come when it knows the size. */
  lemma HeaderRead(mem: seq<byte>, at: nat, t: nat, size: nat, start: nat, before: Entry)
    requires HeaderAt(mem, at, t, size, start) && t != 1
    ensures size <= 16843036 && start <= |mem|
    ensures DecodeSpec(mem, at, before) ==
              DecodeSized(mem, t, size, start, before.(offset := at, hasData := true, typ := t))
  {
    hide DecodeSized;
  }

  /** A decode that succeeded, described the field at `at` and left this next offset. */
  ghost predicate Reads(mem: seq<byte>, at: nat, t: nat, r: (Status, Entry), item: Item, next: nat) {
    && r.0 == Success && r.1.hasData && r.1.offset == at && r.1.typ == t && r.1.offsetToNext == next
    && Meaning(mem, r.1) == item
  }

  /** A decode that was refused after the type had been stored. */
  ghost predicate Refuses(at: nat, t: nat, r: (Status, Entry), before: Entry) {
    r == (InvalidData, before.(hasData := true, offset := at, typ := t))
  }

  ghost predicate ReadsWhen(fits: bool, mem: seq<byte>, at: nat, t: nat, r: (Status, Entry), before: Entry, item: Item,
                            next: nat) {
    if fits then Reads(mem, at, t, r, item, next) else Refuses(at, t, r, before)
  }

  /** Types without a payload of their own: 7 is a map of `size` pairs, 11 an array, 14 a boolean, true unless the
      size is zero. */
  lemma HeaderTypes(mem: seq<byte>, at: nat, t: nat, size: nat, start: nat, before: Entry)
    requires HeaderAt(mem, at, t, size, start)
    ensures t == 7 ==> Reads(mem, at, 7, DecodeSpec(mem, at, before), MapHead(size), start)
    ensures t == 11 ==> Reads(mem, at, 11, DecodeSpec(mem, at, before), ArrayHead(size), start)
    ensures t == 14 ==> Reads(mem, at, 14, DecodeSpec(mem, at, before), ScalarItem(Bool(size != 0)), start)
  {
    hide DecodeSpec, HeaderAt;
    if t != 1 {
      HeaderRead(mem, at, t, size, start, before);
    }
  }

  /** Types with a payload: 2 is a string, 3 a double, 4 a byte string, 15 a float; 5, 6, 9 and 10 are unsigned
      numbers of 16, 32, 64 and 128 bits, 8 a signed one of 32 bits.  Numbers of a wrong length are invalid; any other
      type is unknown and skipped. */
  lemma PayloadTypes(mem: seq<byte>, at: nat, t: nat, size: nat, start: nat, before: Entry)
    requires HeaderAt(mem, at, t, size, start) && start + size <= |mem| < 0x1_0000_0000
    ensures var r, p, next := DecodeSpec(mem, at, before), mem[start..start + size], start + size;
            && (t == 2 ==> Reads(mem, at, 2, r, ScalarItem(Str(p)), next))
            && (t == 3 ==> ReadsWhen(size == 8, mem, at, 3, r, before, ScalarItem(Dbl(p)), next))
            && (t == 4 ==> Reads(mem, at, 4, r, ScalarItem(Bin(p)), next))
            && (t == 15 ==> ReadsWhen(size == 4, mem, at, 15, r, before, ScalarItem(Flt(p)), next))
            && (t == 12 || t == 13 || t > 15 ==> Reads(mem, at, t, r, ScalarItem(Opaque(t)), next))
  {
    hide DecodeSpec, HeaderAt;
    if t != 1 {
      HeaderRead(mem, at, t, size, start, before);
      assert size == 0 ==> mem[start..start + size] == [];
    }
  }

  lemma NumberTypes(mem: seq<byte>, at: nat, t: nat, size: nat, start: nat, before: Entry)
    requires HeaderAt(mem, at, t, size, start) && start + size <= |mem| < 0x1_0000_0000
    ensures var r, p, next := DecodeSpec(mem, at, before), mem[start..start + size], start + size;
            var n := BigEndian(p);
            var signed := if n < 0x8000_0000 then n else n - 0x1_0000_0000;
            && (t == 5 ==> ReadsWhen(size <= 2, mem, at, 5, r, before, ScalarItem(Unsigned(16, n)), next))
            && (t == 6 ==> ReadsWhen(size <= 4, mem, at, 6, r, before, ScalarItem(Unsigned(32, n)), next))
            && (t == 9 ==> ReadsWhen(size <= 8, mem, at, 9, r, before, ScalarItem(Unsigned(64, n)), next))
            && (t == 10 ==> ReadsWhen(size <= 16, mem, at, 10, r, before, ScalarItem(Unsigned(128, n)), next))
            && (t == 8 ==> ReadsWhen(size <= 4, mem, at, 8, r, before, ScalarItem(Signed(signed)), next))
  {
    hide DecodeSpec, HeaderAt, BigEndian;
    if t in {5, 6, 8, 9, 10} {
      HeaderRead(mem, at, t, size, start, before);
      if SizeAllowed(t, size) {
        PayloadBounds(t, mem[start..start + size]);
      }
    }
  }

  ghost predicate PointsTo(at: nat, r: (Status, Entry), value: nat, bytes: nat) {
    && r.0 == Success && r.1.hasData && r.1.offset == at && r.1.typ == 1 && r.1.dataSize == bytes
    && r.1.datum == Pointer((value + 16) % 0x1_0000_0000) && r.1.offsetToNext == at + 1 + bytes
  }

  /** The value of a pointer field whose control byte is 32 + c: the position counted from the end of the separator. */
  function PointerValueAt(mem: seq<byte>, at: nat, c: nat): nat
    requires c < 32 && at + c / 8 + 2 <= |mem|
  {
    var b1 := Num(mem, at + 1);
    if c < 8 then c * 256 + b1
    else
      var b2 := Num(mem, at + 2);
      if c < 16 then 2048 + (c - 8) * 65536 + b1 * 256 + b2
      else
        var b3 := Num(mem, at + 3);
        if c < 24 then 526336 + (c - 16) * 16777216 + b1 * 65536 + b2 * 256 + b3
        else b1 * 16777216 + b2 * 65536 + b3 * 256 + Num(mem, at + 4)
  }

  /** The four pointer forms, with 1, 2, 3 and 4 bytes after the control byte. */
  lemma PointerForms(mem: seq<byte>, at: nat, c: nat, before: Entry)
    requires c < 32 && at + c / 8 + 2 <= |mem| && Num(mem, at) == 32 + c
    ensures PointsTo(at, DecodeSpec(mem, at, before), PointerValueAt(mem, at, c), c / 8 + 1)
  {
    hide PointerTarget, PointerValueAt;
    FormOf(c);
    PointerTargets(mem, at, c);
  }

  lemma FormOf(c: nat)
    requires c < 32
    ensures (32 + c) / 32 == 1 && (32 + c) / 8 % 4 == c / 8 && (32 + c) % 8 == c - 8 * (c / 8)
  {
  }

  lemma PointerTargets(mem: seq<byte>, at: nat, c: nat)
    requires c < 32 && at + c / 8 + 2 <= |mem| && Num(mem, at) == 32 + c
    ensures PointerTarget(mem, mem[at], c / 8, at + 1) == (PointerValueAt(mem, at, c) + 16) % 0x1_0000_0000
  {
    FormOf(c);
  }

  /** Only an offset beyond the end of the section is refused before anything is read; the struct is left alone. */
  lemma StartRefused(mem: seq<byte>, at: nat, before: Entry)
    ensures at > |mem| ==> DecodeSpec(mem, at, before) == (InvalidData, before)
    ensures at == |mem| ==> DecodeSpec(mem, at, before) == (Undefined, before.(offset := at, hasData := true))
  {
  }
}
