/**
  One record, byte by byte, through everything that reads it: a map with a number, and an array that shares the first
  key by a pointer.
 */
module Example {
  import opened Bytes
  import opened Decode
  import opened Layout
  import opened ArrayIndex
  import opened Lookup
  import opened LookupRefines
  import opened Flatten
  import opened Dump

  /** Sixteen separator bytes, and {"a": 443, "b": [true, -> "a"]} with the pointer at offset 28. */
  const RECORD: seq<byte> :=
    [0, 0, 0, 0, 0, 0, 0, 0, 0, 0, 0, 0, 0, 0, 0, 0,
     226, 65, 97, 162, 1, 187, 65, 98, 2, 4, 1, 7, 32, 1]

  const A: seq<byte> := [97]
  const B: seq<byte> := [98]

  function RecordArray(): Layout {
    ArrayOf([Flag(true), Ref(0, 0, 1, Field(2, A))])
  }

  function RecordLayout(): Layout {
    MapOf([Field(2, A), Field(5, [1, 187]), Field(2, B), RecordArray()])
  }

  function RecordElements(): Value {
    ArrayValue([Leaf(Bool(true)), Leaf(Str(A))])
  }

  function RecordValue(): Value {
    MapValue([Leaf(Str(A)), Leaf(Unsigned(16, 443)), Leaf(Str(B)), RecordElements()])
  }

  lemma FieldHeld(at: nat, typ: nat, payload: seq<byte>)
    requires typ in {2, 5} && 0 < |payload| <= 2 && at + 1 + |payload| <= |RECORD|
    requires RECORD[at] == 32 * typ + |payload| && RECORD[at + 1..at + 1 + |payload|] == payload
    ensures WellFormed(RECORD, at, Field(typ, payload)) && |Encode(Field(typ, payload))| == 1 + |payload|
    ensures Conforms(Field(typ, payload))
  {
    var d := Field(typ, payload);
    assert Head(d) == [32 * typ + |payload|] + payload;
    assert RECORD[at..at + 1 + |payload|] == [RECORD[at]] + RECORD[at + 1..at + 1 + |payload|];
  }

  lemma ArrayHeld()
    ensures WellFormed(RECORD, 24, RecordArray()) && Conforms(RecordArray())
    ensures Erase(RecordArray()) == RecordElements()
  {
    var on, ref := Flag(true), Ref(0, 0, 1, Field(2, A));
    var items := RecordArray().items;
    var rest := items[1..];
    assert rest == [ref] && rest[1..] == [];
    FieldHeld(17, 2, A);
    assert RECORD[24..26] == [2, 4] == Head(RecordArray());
    assert RECORD[26..28] == [1, 7] == Head(on) && RECORD[28..30] == [32, 1] == Head(ref);
    assert WellFormed(RECORD, 28, ref);
    assert WellFormedItems(RECORD, 30, rest[1..]) && WellFormedItems(RECORD, 28, rest);
    assert ConformsAll(rest[1..]) && ConformsAll(rest);
    assert Erase(ref) == Leaf(Str(A)) && EraseAll(items)[1] == Erase(ref) && EraseAll(items)[0] == Erase(on);
  }

  /** The section holds the record, and it conforms to the specification. */
  lemma RecordHeld()
    ensures WellFormed(RECORD, 16, RecordLayout()) && Conforms(RecordLayout())
    ensures Erase(RecordLayout()) == RecordValue()
  {
    hide Encode, RecordArray, WellFormed, Conforms, Erase, WellFormedItems, ConformsAll;
    ArrayHeld();
    FieldHeld(17, 2, A);
    assert RECORD[20..22] == [1, 187];
    FieldHeld(19, 5, [1, 187]);
    FieldHeld(22, 2, B);
    var list := RecordArray();
    var one, two := [list], [Field(2, B), list];
    var three := [Field(5, [1, 187])] + two;
    NoneHeld(24 + |Encode(list)|);
    OneMore(24, list, [], one);
    OneMore(22, Field(2, B), one, two);
    OneMore(19, Field(5, [1, 187]), two, three);
    OneMore(17, Field(2, A), three, RecordLayout().items);
    MapHeld(RecordLayout().items);
    RecordErased();
  }

  lemma NoneHeld(at: nat)
    ensures WellFormedItems(RECORD, at, []) && ConformsAll([])
  {
  }

  lemma OneMore(at: nat, d: Layout, rest: seq<Layout>, items: seq<Layout>)
    requires items == [d] + rest
    requires WellFormed(RECORD, at, d) && Conforms(d)
    requires WellFormedItems(RECORD, at + |Encode(d)|, rest) && ConformsAll(rest)
    ensures WellFormedItems(RECORD, at, items) && ConformsAll(items)
  {
    hide WellFormed, Conforms, Encode;
    assert items[1..] == rest;
  }

  lemma MapHeld(items: seq<Layout>)
    requires |items| == 4 && WellFormedItems(RECORD, 17, items) && ConformsAll(items)
    requires IsKey(items[0]) && IsKey(items[2])
    ensures WellFormed(RECORD, 16, MapOf(items)) && Conforms(MapOf(items))
  {
    hide WellFormedItems, ConformsAll;
    assert RECORD[16..17] == [226] == Head(MapOf(items));
  }

  predicate IsKey(d: Layout) {
    d.Field? && d.typ == 2
  }

  lemma RecordErased()
    ensures Erase(RecordLayout()) == RecordValue()
  {
    ArrayHeld();
    var items := RecordLayout().items;
    assert [1, 187][..1] == [1] && [1][..0] == [];
    Number443();
    assert EraseAll(items) == RecordValue().items;
  }

  lemma Number443()
    ensures BigEndian([1, 187]) == 443
  {
    BigEndianOfWidth([1, 187], 0);
    assert [1, 187][0..2] == [1, 187];
  }

  // ----- what each reader makes of it -----

  lemma RecordAnswers(path: Path)
    ensures Answers(RECORD, 16, path, Resolve(RecordValue(), path))
  {
    hide WellFormed, Conforms, RecordLayout, RecordValue, Resolve, Answers, Tidy, FirstObstacle;
    RecordHeld();
    ConformingIsTidy(RECORD, 16, RecordLayout());
    ConformingIsClear(RecordLayout(), path);
    AnswersExactly(RECORD, 16, RecordLayout(), path);
  }

  lemma SmallIndices()
    ensures ReadIndex([49]) == Index(1) && ReadIndex([50]) == Index(2)
    ensures ReadIndex([45, 49]) == Rejected(InvalidLookupPath)
  {
    assert [49][..0] == [] && [50][..0] == [];
    DigitsIndex([49]);
    DigitsIndex([50]);
    NegativeIndex([49]);
    assert [45] + [49] == [45, 49];
  }

  lemma RecordResolves()
    ensures Resolve(RecordValue(), [A]) == Here(Leaf(Unsigned(16, 443)))
    ensures Resolve(RecordValue(), [B, [49]]) == Here(Leaf(Str(A)))
    ensures Resolve(RecordValue(), [B, [50]]) == Missing(LookupPathDoesNotMatchData)
    ensures Resolve(RecordValue(), [B, [45, 49]]) == Missing(InvalidLookupPath)
    ensures Resolve(RecordValue(), [[99]]) == Missing(LookupPathDoesNotMatchData)
    ensures Resolve(RecordValue(), [A, [48]]) == Missing(LookupPathDoesNotMatchData)
  {
    hide ReadIndex;
    SmallIndices();
    assert [A][1..] == [] && [B, [49]][1..] == [[49]] && [B, [50]][1..] == [[50]] && [B, [45, 49]][1..] == [[45, 49]];
    assert [A, [48]][1..] == [[48]] && [[49]][1..] == [];
    var items := RecordValue().items;
    assert FirstKey(items, A, 0) == 0;
    assert FirstKey(items, B, 2) == 2 && FirstKey(items, B, 0) == 2;
    assert FirstKey(items, [99], 4) == 4 && FirstKey(items, [99], 2) == 4 && FirstKey(items, [99], 0) == 4;
  }

  /** Path lookup: the number is found, so is the string behind the pointer, and what is not there is refused. */
  lemma RecordLookups()
    ensures GetSpec(RECORD, 16, [A]).0 == Success
    ensures Meaning(RECORD, GotEntry(RECORD, 16, [A])) == ScalarItem(Unsigned(16, 443))
    ensures GetSpec(RECORD, 16, [B, [49]]).0 == Success
    ensures Meaning(RECORD, GotEntry(RECORD, 16, [B, [49]])) == ScalarItem(Str(A))
    ensures GetSpec(RECORD, 16, [B, [50]]).0 == LookupPathDoesNotMatchData
    ensures GetSpec(RECORD, 16, [B, [45, 49]]).0 == InvalidLookupPath
    ensures GetSpec(RECORD, 16, [[99]]).0 == LookupPathDoesNotMatchData
    ensures GetSpec(RECORD, 16, [A, [48]]).0 == LookupPathDoesNotMatchData
  {
    hide GetSpec, Meaning, Resolve, RecordValue;
    RecordResolves();
    RecordAnswers([A]);
    RecordAnswers([B, [49]]);
    RecordAnswers([B, [50]]);
    RecordAnswers([B, [45, 49]]);
    RecordAnswers([[99]]);
    RecordAnswers([A, [48]]);
  }

  /** The number lies at offset 19. */
  lemma RecordOffset()
    ensures GetSpec(RECORD, 16, [A]) == (Success, 19)
  {
    hide DecodeSpec, FollowSpec;
    ReadsHeader();
    ReadsKeyA();
    assert FindKey(RECORD, 17, 2, A) == (Success, 19);
    assert [A][1..] == [];
  }

  lemma ReadsHeader()
    ensures var (status, e) := FollowSpec(RECORD, 16, ZERO_ENTRY);
            status == Success && e.typ == TYPE_MAP && e.dataSize == 2 && e.offsetToNext == 17
    ensures FollowSpec(RECORD, 19, ZERO_ENTRY).0 == Success
  {
  }

  lemma ReadsKeyA()
    ensures var (status, k) := FollowSpec(RECORD, 17, ZERO_ENTRY);
            && status == Success && k.typ == TYPE_UTF8_STRING && k.dataSize == 1 && k.offsetToNext == 19
            && HasText(RECORD, k) && TextOf(RECORD, k) == A
  {
  }

  /** Flattening, with a pointer followed: header, key, value, in the order of the file. */
  lemma RecordFlattens(fuel: nat)
    requires fuel >= Weight(RecordLayout())
    ensures var r := FlatField(RECORD, 16, ZERO_ENTRY, fuel);
            && r.Ended? && r.status == Success && r.next == 30
            && Meanings(RECORD, r.entries) ==
               [MapHead(2), ScalarItem(Str(A)), ScalarItem(Unsigned(16, 443)),
                ScalarItem(Str(B)), ArrayHead(2), ScalarItem(Bool(true)), ScalarItem(Str(A))]
  {
    hide FlatField, WellFormed, Conforms, Meaning, Holds, Erase, Weight, Encode;
    RecordHeld();
    FlattensToPreorder(RECORD, 16, RecordLayout(), ZERO_ENTRY, fuel);
    RecordPreorder();
    RecordSize();
  }

  lemma RecordSize()
    ensures |Encode(RecordLayout())| == 14
  {
    var items := RecordLayout().items;
    FieldHeld(17, 2, A);
    FieldHeld(19, 5, [1, 187]);
    FieldHeld(22, 2, B);
    var list := RecordArray();
    assert list.items[1..] == [list.items[1]] && [list.items[1]][1..] == [];
    assert |Encode(list)| == 6;
    assert items[1..][0] == items[1] && items[1..][1..][0] == items[2] && items[1..][1..][1..] == [list];
    assert [list][1..] == [];
  }

  lemma RecordPreorder()
    ensures Preorder(RecordValue()) ==
              [MapHead(2), ScalarItem(Str(A)), ScalarItem(Unsigned(16, 443)),
               ScalarItem(Str(B)), ArrayHead(2), ScalarItem(Bool(true)), ScalarItem(Str(A))]
  {
    var items := RecordValue().items;
    var i1 := items[1..];
    var i2 := i1[1..];
    var i3 := i2[1..];
    assert i3[1..] == [] && i3[0] == items[3] && i2[0] == items[2] && i1[0] == items[1];
    var elements := items[3].items;
    var last := elements[1..];
    assert last == [Leaf(Str(A))] && last[1..] == [];
    assert PreorderAll(last) == [ScalarItem(Str(A))];
    assert PreorderAll(elements) == [ScalarItem(Bool(true)), ScalarItem(Str(A))];
    assert PreorderAll(i3) == Preorder(items[3]);
    assert PreorderAll(i2) == [ScalarItem(Str(B))] + Preorder(items[3]);
    assert PreorderAll(i1) == [ScalarItem(Unsigned(16, 443))] + PreorderAll(i2);
  }

  /** Dumping: braces around keys and values, brackets around elements. */
  lemma RecordDumps()
    ensures DumpItems(Preorder(RecordValue())) ==
              Dumped(Success,
                     [OpenMap, Key(A), Printed(Unsigned(16, 443)),
                      Key(B), OpenArray, Printed(Bool(true)), Printed(Str(A)), CloseArray, CloseMap], [])
  {
    hide DumpItems, Preorder;
    RecordPrintable();
    DumpConsumesOne(RecordValue(), []);
    assert Preorder(RecordValue()) + [] == Preorder(RecordValue());
  }

  lemma ArrayPrintable()
    ensures Printable(RecordElements())
    ensures Tokens(RecordElements()) == [OpenArray, Printed(Bool(true)), Printed(Str(A)), CloseArray]
  {
    var elements := RecordElements().items;
    var last := elements[1..];
    assert last == [Leaf(Str(A))] && last[1..] == [];
    PlainKeys();
    assert PrintableAll(last) && PrintableAll(elements);
    assert ElementTokens(last) == [Printed(Str(A))];
    assert ElementTokens(elements) == [Printed(Bool(true)), Printed(Str(A))];
  }

  lemma PlainKeys()
    ensures CString(A) == A && CString(B) == B
  {
  }

  lemma RecordPrintable()
    ensures Printable(RecordValue())
    ensures Tokens(RecordValue()) ==
              [OpenMap, Key(A), Printed(Unsigned(16, 443)),
               Key(B), OpenArray, Printed(Bool(true)), Printed(Str(A)), CloseArray, CloseMap]
  {
    hide RecordElements, CString;
    PlainKeys();
    ArrayPrintable();
    var items := RecordValue().items;
    var rest := items[2..];
    assert rest[0] == Leaf(Str(B)) && rest[1] == RecordElements() && rest[2..] == [];
    assert PrintablePairs(rest[2..]) && PrintablePairs(rest);
    assert PairTokens(rest[2..]) == [];
    assert PairTokens(rest) == [Key(B)] + Tokens(RecordElements());
    assert PairTokens(items) == [Key(A)] + Tokens(items[1]) + PairTokens(rest);
  }
}
