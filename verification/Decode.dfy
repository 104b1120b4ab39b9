/**
  The data-section decoder: decode_one and decode_one_follow, which overwrite one MMDB_entry_data_s in place.
  `DecodeSpec` says what one call leaves in the struct, stale members included.
 */
module Decode {
  import opened Bytes

  const TYPE_EXTENDED: nat := 0
  const TYPE_POINTER: nat := 1
  const TYPE_UTF8_STRING: nat := 2
  const TYPE_DOUBLE: nat := 3
  const TYPE_BYTES: nat := 4
  const TYPE_UINT16: nat := 5
  const TYPE_UINT32: nat := 6
  const TYPE_MAP: nat := 7
  const TYPE_INT32: nat := 8
  const TYPE_UINT64: nat := 9
  const TYPE_UINT128: nat := 10
  const TYPE_ARRAY: nat := 11
  const TYPE_BOOLEAN: nat := 14
  const TYPE_FLOAT: nat := 15

  /** The largest payload a control byte can announce: 65821 + 0xffffff. */
  const MAX_SIZE: nat := 16843036

  /** MMDB_DATA_SECTION_SEPARATOR: pointers count from the byte after the separator. */
  const SEPARATOR: nat := 16

  /** The union inside MMDB_entry_data_s.  Strings and byte strings are addresses into the section. */
  datatype Datum =
    | Zeroed
    | Pointer(target: nat)
    | EmptyText
    | Text(textStart: nat)
    | Double(raw: seq<byte>)
    | Blob(blobStart: nat)
    | UInt16(u16: nat)
    | UInt32(u32: nat)
    | Int32(i32: int)
    | UInt64(u64: nat)
    | UInt128(u128: nat)
    | Boolean(b: bool)
    | Float(raw: seq<byte>)

  /** A snapshot of MMDB_entry_data_s. */
  datatype Entry = Entry(hasData: bool, datum: Datum, offset: nat, offsetToNext: nat, dataSize: nat, typ: nat)

  /** What memset and calloc leave. */
  const ZERO_ENTRY := Entry(false, Zeroed, 0, 0, 0, 0)

  class EntryData {
    var hasData: bool
    var datum: Datum
    var offset: nat
    var offsetToNext: nat
    var dataSize: nat
    var typ: nat

    /** A local variable in C: nothing is known about what its members hold. */
    constructor Local() {
    }

    function View(): Entry
      reads this
    {
      Entry(hasData, datum, offset, offsetToNext, dataSize, typ)
    }

    method Clear()
      modifies this
      ensures View() == ZERO_ENTRY
      ensures !hasData && datum == Zeroed && offset == 0 && offsetToNext == 0 && dataSize == 0 && typ == 0
    {
      hasData, datum, offset, offsetToNext, dataSize, typ := false, Zeroed, 0, 0, 0, 0;
    }

    method CopyFrom(that: EntryData)
      modifies this
      ensures View() == old(that.View())
    {
      hasData, datum, offset := that.hasData, that.datum, that.offset;
      offsetToNext, dataSize, typ := that.offsetToNext, that.dataSize, that.typ;
    }
  }

  predicate IsContainer(typ: nat) {
    typ == TYPE_MAP || typ == TYPE_ARRAY
  }

  // ----- the control byte -----

  predicate HasType(mem: seq<byte>, offset: nat) {
    offset < |mem| && (mem[offset] / 32 == TYPE_EXTENDED ==> offset + 1 < |mem|)
  }

  function TypeAt(mem: seq<byte>, offset: nat): nat
    requires HasType(mem, offset)
  {
    if mem[offset] / 32 == TYPE_EXTENDED then var raw: nat := mem[offset + 1]; 7 + raw else mem[offset] / 32
  }

  function BodyAt(mem: seq<byte>, offset: nat): nat
    requires HasType(mem, offset)
  {
    if mem[offset] / 32 == TYPE_EXTENDED then offset + 2 else offset + 1
  }

  /** How many bytes after the type bytes hold the size. */
  function ExtraSizeBytes(code: nat): nat {
    if code == 29 then 1 else if code == 30 then 2 else if code == 31 then 3 else 0
  }

  function SizeAt(mem: seq<byte>, code: nat, body: nat): (size: nat)
    requires code < 32 && body + ExtraSizeBytes(code) <= |mem|
    ensures size <= MAX_SIZE
  {
    if code == 29 then var b: nat := mem[body]; 29 + b
    else if code == 30 then 285 + GetUint16(mem, body)
    else if code == 31 then 65821 + GetUint24(mem, body)
    else code
  }

  /** The bytes a numeric payload may take; the decoder rejects anything longer. */
  predicate SizeAllowed(typ: nat, size: nat) {
    if typ == TYPE_UINT16 then size <= 2
    else if typ == TYPE_UINT32 || typ == TYPE_INT32 then size <= 4
    else if typ == TYPE_UINT64 then size <= 8
    else if typ == TYPE_UINT128 then size <= 16
    else if typ == TYPE_FLOAT then size == 4
    else if typ == TYPE_DOUBLE then size == 8
    else true
  }

  /** The types whose payload the decoder reads, rather than only pointing at it. */
  predicate ReadsPayload(typ: nat) {
    typ in {TYPE_UINT16, TYPE_UINT32, TYPE_INT32, TYPE_UINT64, TYPE_UINT128, TYPE_FLOAT, TYPE_DOUBLE}
  }

  /** The types for which the decoder stores a data_size. */
  predicate StoresSize(typ: nat) {
    typ in {TYPE_POINTER, TYPE_UTF8_STRING, TYPE_BYTES, TYPE_MAP, TYPE_ARRAY, TYPE_BOOLEAN}
  }

  // ----- decode_one -----

  function PointerTarget(mem: seq<byte>, ctrl: byte, form: nat, body: nat): nat
    requires form < 4 && body + form + 1 <= |mem|
  {
    var low: nat := ctrl % 8;
    var base: nat :=
      if form == 0 then var b: nat := mem[body]; low * 256 + b
      else if form == 1 then 2048 + low * 65536 + GetUint16(mem, body)
      else if form == 2 then 2048 + 524288 + low * 16777216 + GetUint24(mem, body)
      else GetUint32(mem, body);
    (SEPARATOR + base) % U32_RANGE
  }

  function ScalarDatum(mem: seq<byte>, typ: nat, start: nat, size: nat, stale: Datum): Datum
    requires SizeAllowed(typ, size) && (ReadsPayload(typ) ==> start + size <= |mem|)
  {
    if typ == TYPE_UINT16 then UInt16(BigEndian(mem[start..start + size]) % U16_RANGE)
    else if typ == TYPE_UINT32 then UInt32(BigEndian(mem[start..start + size]) % U32_RANGE)
    else if typ == TYPE_INT32 then Int32(ToInt32(BigEndian(mem[start..start + size]) % U32_RANGE))
    else if typ == TYPE_UINT64 then UInt64(BigEndian(mem[start..start + size]))
    else if typ == TYPE_UINT128 then UInt128(BigEndian(mem[start..start + size]))
    else if typ == TYPE_FLOAT then Float(mem[start..start + size])
    else if typ == TYPE_DOUBLE then Double(mem[start..start + size])
    else if typ == TYPE_UTF8_STRING then if size == 0 then EmptyText else Text(start)
    else if typ == TYPE_BYTES then Blob(start)
    else stale
  }

  /** decode_one from the switch on the type onwards, with the size known. */
  function DecodeSized(mem: seq<byte>, typ: nat, size: nat, start: nat, e: Entry): (Status, Entry) {
    if IsContainer(typ) then (Success, e.(dataSize := size, offsetToNext := start))
    else if typ == TYPE_BOOLEAN then
      (Success, e.(datum := Boolean(size != 0), dataSize := 0, offsetToNext := start))
    else if !SizeAllowed(typ, size) then (InvalidData, e)
    else if ReadsPayload(typ) && start + size > |mem| then (Undefined, e)
    else
      (Success, e.(
        datum := ScalarDatum(mem, typ, start, size, e.datum),
        dataSize := if typ == TYPE_UTF8_STRING || typ == TYPE_BYTES then size else e.dataSize,
        offsetToNext := (start + size) % U32_RANGE))
  }

  function DecodeSpec(mem: seq<byte>, offset: nat, before: Entry): (Status, Entry) {
    if offset > |mem| then (InvalidData, before)
    else
      var marked := before.(offset := offset, hasData := true);
      if !HasType(mem, offset) then (Undefined, marked)
      else
        var typ, body, ctrl := TypeAt(mem, offset), BodyAt(mem, offset), mem[offset];
        var typed := marked.(typ := typ);
        if typ == TYPE_POINTER then
          var form: nat := ctrl / 8 % 4;
          if body + form + 1 > |mem| then (Undefined, typed)
          else (Success, typed.(datum := Pointer(PointerTarget(mem, ctrl, form, body)),
                                dataSize := form + 1, offsetToNext := body + form + 1))
        else
          var code: nat := ctrl % 32;
          if body + ExtraSizeBytes(code) > |mem| then (Undefined, typed)
          else DecodeSized(mem, typ, SizeAt(mem, code, body), body + ExtraSizeBytes(code), typed)
  }

  /** Where a field ends in its own stream, without regard to 32 bits: past its header for a container, past its payload
      otherwise. */
  function FieldEnd(mem: seq<byte>, offset: nat): nat
    requires DecodeSpec(mem, offset, ZERO_ENTRY).0 == Success
  {
    var typ, body, ctrl := TypeAt(mem, offset), BodyAt(mem, offset), mem[offset];
    if typ == TYPE_POINTER then var form: nat := ctrl / 8 % 4; body + form + 1
    else
      var code: nat := ctrl % 32;
      var start := body + ExtraSizeBytes(code);
      if IsContainer(typ) || typ == TYPE_BOOLEAN then start else start + SizeAt(mem, code, body)
  }

  /** A decode that succeeds starts inside the section.  It moves forward exactly when the end of the field fits 32
      bits, as it does in any section that leaves room for one maximal payload below 4 GiB. */
  lemma DecodeAdvances(mem: seq<byte>, offset: nat, before: Entry)
    requires |mem| < U32_RANGE && DecodeSpec(mem, offset, before).0 == Success
    ensures offset < |mem| && DecodeSpec(mem, offset, before).1.offset == offset
    ensures DecodeSpec(mem, offset, ZERO_ENTRY).0 == Success
    ensures DecodeSpec(mem, offset, before).1.offsetToNext == FieldEnd(mem, offset) % U32_RANGE
    ensures offset < DecodeSpec(mem, offset, before).1.offsetToNext <==> FieldEnd(mem, offset) < U32_RANGE
    ensures FieldEnd(mem, offset) <= |mem| + MAX_SIZE
  {
    hide DecodeSized, PointerTarget, SizeAt;
    DecodeIgnoresOldContents(mem, offset, before, ZERO_ENTRY);
    if TypeAt(mem, offset) != TYPE_POINTER {
      var body, code: nat := BodyAt(mem, offset), mem[offset] % 32;
      var typed := before.(offset := offset, hasData := true, typ := TypeAt(mem, offset));
      SizedAdvances(mem, typed.typ, SizeAt(mem, code, body), body + ExtraSizeBytes(code), typed);
      Wraps(offset, FieldEnd(mem, offset));
    }
  }

  lemma SizedAdvances(mem: seq<byte>, typ: nat, size: nat, start: nat, e: Entry)
    requires start <= |mem| < U32_RANGE
    ensures var (status, e') := DecodeSized(mem, typ, size, start, e);
            status == Success ==>
              && e'.offset == e.offset
              && e'.offsetToNext ==
                   (if IsContainer(typ) || typ == TYPE_BOOLEAN then start else start + size) % U32_RANGE
  {
  }

  lemma Wraps(offset: nat, end: nat)
    requires offset < end <= U32_RANGE + MAX_SIZE && end <= offset + MAX_SIZE + 5
    ensures offset < end % U32_RANGE <==> end < U32_RANGE
  {
  }

  /** The offset of a string header six bytes below 4 GiB that announces the largest payload. */
  const WRAPPING: nat := 4294967290

  /** A field whose end wraps around: the next offset lies far in front of it. */
  lemma WrapExample(before: Entry)
    ensures var mem: seq<byte> := seq(WRAPPING + 5, i => if i == WRAPPING then 95 else 255);
            && DecodeSpec(mem, WRAPPING, before).0 == Success
            && DecodeSpec(mem, WRAPPING, before).1.offsetToNext == 16843034
  {
    var mem: seq<byte> := seq(WRAPPING + 5, i => if i == WRAPPING then 95 else 255);
    assert mem[WRAPPING] == 95 && mem[WRAPPING + 1] == 255 && mem[WRAPPING + 2] == 255 && mem[WRAPPING + 3] == 255;
    assert TypeAt(mem, WRAPPING) == TYPE_UTF8_STRING;
    assert SizeAt(mem, 31, WRAPPING + 1) == MAX_SIZE;
  }

  lemma DecodedPointer(mem: seq<byte>, offset: nat, before: Entry)
    ensures var (status, e) := DecodeSpec(mem, offset, before);
            status == Success && e.typ == TYPE_POINTER ==> e.datum.Pointer?
  {
  }

  method DecodeOne(mem: seq<byte>, at: nat, ed: EntryData) returns (status: Status)
    requires |mem| < U32_RANGE
    modifies ed
    ensures (status, ed.View()) == DecodeSpec(mem, at, old(ed.View()))
  {
    var offset := at;
    if offset > |mem| {
      return InvalidData;
    }
    ed.offset := offset;
    ed.hasData := true;
    if !HasType(mem, offset) {
      return Undefined;
    }
    var ctrl := mem[offset];
    offset := offset + 1;
    var typ: nat := ctrl / 32;
    if typ == TYPE_EXTENDED {
      var raw: nat := mem[offset];
      typ := 7 + raw;
      offset := offset + 1;
    }
    ed.typ := typ;
    if typ == TYPE_POINTER {
      var psize: nat := ctrl / 8 % 4;
      if offset + psize + 1 > |mem| {
        return Undefined;
      }
      ed.datum := Pointer(PointerTarget(mem, ctrl, psize, offset));
      ed.dataSize := psize + 1;
      ed.offsetToNext := offset + psize + 1;
      return Success;
    }
    var size: nat := ctrl % 32;
    if offset + ExtraSizeBytes(size) > |mem| {
      return Undefined;
    }
    match size {
      case 29 =>
        var b: nat := mem[offset];
        size := 29 + b;
        offset := offset + 1;
      case 30 =>
        size := 285 + GetUint16(mem, offset);
        offset := offset + 2;
      case 31 =>
        size := 65821 + GetUint24(mem, offset);
        offset := offset + 3;
      case _ =>
    }
    if typ == TYPE_MAP || typ == TYPE_ARRAY {
      ed.dataSize := size;
      ed.offsetToNext := offset;
      return Success;
    }
    if typ == TYPE_BOOLEAN {
      ed.datum := Boolean(size != 0);
      ed.dataSize := 0;
      ed.offsetToNext := offset;
      return Success;
    }
    status := DecodePayload(mem, typ, size, offset, ed);
  }

  /** The chain of numeric and string cases at the end of decode_one. */
  method DecodePayload(mem: seq<byte>, typ: nat, size: nat, offset: nat, ed: EntryData) returns (status: Status)
    requires !IsContainer(typ) && typ != TYPE_BOOLEAN
    modifies ed
    ensures (status, ed.View()) == DecodeSized(mem, typ, size, offset, old(ed.View()))
  {
    if !SizeAllowed(typ, size) {
      return InvalidData;
    }
    if ReadsPayload(typ) && offset + size > |mem| {
      return Undefined;
    }
    if typ == TYPE_UINT16 {
      var n := GetUintX(mem, offset, size, 8);
      ed.datum := UInt16(n % U16_RANGE);
    } else if typ == TYPE_UINT32 {
      var n := GetUintX(mem, offset, size, 8);
      ed.datum := UInt32(n % U32_RANGE);
    } else if typ == TYPE_INT32 {
      var n := GetUintX(mem, offset, size, 8);
      ed.datum := Int32(ToInt32(n % U32_RANGE));
    } else if typ == TYPE_UINT64 {
      var n := GetUintX(mem, offset, size, 8);
      ed.datum := UInt64(n);
    } else if typ == TYPE_UINT128 {
      var n := GetUintX(mem, offset, size, 16);
      ed.datum := UInt128(n);
    } else if typ == TYPE_FLOAT {
      ed.datum := Float(mem[offset..offset + size]);
    } else if typ == TYPE_DOUBLE {
      ed.datum := Double(mem[offset..offset + size]);
    } else if typ == TYPE_UTF8_STRING {
      ed.datum := if size == 0 then EmptyText else Text(offset);
      ed.dataSize := size;
    } else if typ == TYPE_BYTES {
      ed.datum := Blob(offset);
      ed.dataSize := size;
    }
    ed.offsetToNext := (offset + size) % U32_RANGE;
    return Success;
  }

  // ----- decode_one_follow -----

  /** One pointer is followed.  The next offset is the one after the pointer unless the target is a container,
      whose members come next. */
  function FollowSpec(mem: seq<byte>, offset: nat, before: Entry): (Status, Entry) {
    var (status, e) := DecodeSpec(mem, offset, before);
    if status != Success || e.typ != TYPE_POINTER then (status, e)
    else
      var (status', e') := DecodeSpec(mem, e.datum.target, e);
      if status' == Success && !IsContainer(e'.typ) then (Success, e'.(offsetToNext := e.offsetToNext))
      else (status', e')
  }

  method DecodeOneFollow(mem: seq<byte>, offset: nat, ed: EntryData) returns (status: Status)
    requires |mem| < U32_RANGE
    modifies ed
    ensures (status, ed.View()) == FollowSpec(mem, offset, old(ed.View()))
  {
    status := DecodeOne(mem, offset, ed);
    if status != Success {
      return;
    }
    if ed.typ == TYPE_POINTER {
      var next := ed.offsetToNext;
      status := DecodeOne(mem, ed.datum.target, ed);
      if status != Success {
        return;
      }
      if ed.typ != TYPE_MAP && ed.typ != TYPE_ARRAY {
        ed.offsetToNext := next;
      }
    }
  }

  // ----- what a decode determines -----

  /** A snapshot with the members decode_one left stale blanked out: data_size for types that do not store one, the
      union for types that do not write it. */
  function Settled(e: Entry): Entry {
    e.(dataSize := if StoresSize(e.typ) then e.dataSize else 0,
       datum := if IsContainer(e.typ) || !(StoresSize(e.typ) || ReadsPayload(e.typ)) then Zeroed else e.datum)
  }

  /** Equal snapshots of what was decoded agree on every member that was written. */
  lemma SettledParts(e0: Entry, e1: Entry)
    requires Settled(e0) == Settled(e1)
    ensures e0.typ == e1.typ && e0.offset == e1.offset && e0.offsetToNext == e1.offsetToNext
    ensures StoresSize(e0.typ) ==> e0.dataSize == e1.dataSize
    ensures !IsContainer(e0.typ) && (StoresSize(e0.typ) || ReadsPayload(e0.typ)) ==> e0.datum == e1.datum
  {
    assert Settled(e0).typ == Settled(e1).typ && Settled(e0).datum == Settled(e1).datum;
    assert Settled(e0).offset == Settled(e1).offset && Settled(e0).offsetToNext == Settled(e1).offsetToNext;
    assert Settled(e0).dataSize == Settled(e1).dataSize;
  }

  lemma DecodeIgnoresOldContents(mem: seq<byte>, offset: nat, e0: Entry, e1: Entry)
    ensures DecodeSpec(mem, offset, e0).0 == DecodeSpec(mem, offset, e1).0
    ensures DecodeSpec(mem, offset, e0).0 == Success ==>
              Settled(DecodeSpec(mem, offset, e0).1) == Settled(DecodeSpec(mem, offset, e1).1)
  {
  }

  lemma FollowIgnoresOldContents(mem: seq<byte>, offset: nat, e0: Entry, e1: Entry)
    ensures FollowSpec(mem, offset, e0).0 == FollowSpec(mem, offset, e1).0
    ensures FollowSpec(mem, offset, e0).0 == Success ==>
              Settled(FollowSpec(mem, offset, e0).1) == Settled(FollowSpec(mem, offset, e1).1)
  {
    var (s0, d0) := DecodeSpec(mem, offset, e0);
    var (s1, d1) := DecodeSpec(mem, offset, e1);
    DecodeIgnoresOldContents(mem, offset, e0, e1);
    if s0 == Success && d0.typ == TYPE_POINTER {
      assert Settled(d0).datum == Settled(d1).datum;
      DecodeIgnoresOldContents(mem, d0.datum.target, d0, d1);
    }
  }
}
