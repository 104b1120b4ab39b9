/**
  Path lookup: lookup_path_in_array, lookup_path_in_map and MMDB_aget_value, and the tree lookup they implement.
 */
module Lookup {
  import opened Bytes
  import opened Decode
  import opened Layout
  import opened ArrayIndex
  import opened Paths

  type Path = seq<seq<byte>>

  // ----- lookup on values -----

  datatype Found = Missing(status: Status) | Here(v: Value)

  /** The first even position at or after `from` that holds the key, or the number of items. */
  function FirstKey(items: seq<Value>, key: seq<byte>, from: nat): (i: nat)
    ensures i < |items| ==> i + 1 < |items|
    decreases |items| - from
  {
    if from + 1 >= |items| then |items|
    else if items[from] == Leaf(Str(key)) then from
    else FirstKey(items, key, from + 2)
  }

  /** FirstKey is the least even position from `from` on whose item is the key. */
  lemma {:induction false} FirstKeyIsLeast(items: seq<Value>, key: seq<byte>, from: nat, j: nat)
    requires from % 2 == 0 && |items| % 2 == 0 && from <= j < |items| && j % 2 == 0
    ensures var i := FirstKey(items, key, from);
            && (i < |items| ==> from <= i && i % 2 == 0 && items[i] == Leaf(Str(key)))
            && (items[j] == Leaf(Str(key)) ==> i <= j)
    decreases |items| - from
  {
    if items[from] != Leaf(Str(key)) && from + 2 <= j {
      FirstKeyIsLeast(items, key, from + 2, j);
    } else if items[from] != Leaf(Str(key)) && from + 2 < |items| {
      FirstKeyIsLeast(items, key, from + 2, from + 2);
    }
  }

  /** What a path names in a value: the first matching key of a map, the n-th element of an array. */
  function Resolve(v: Value, path: Path): (found: Found)
    ensures found.Missing? ==> found.status in {LookupPathDoesNotMatchData, InvalidLookupPath}
    decreases |path|
  {
    if path == [] then Here(v)
    else
      match v
      case Leaf(_) => Missing(LookupPathDoesNotMatchData)
      case ArrayValue(items) =>
        (match ReadIndex(path[0])
         case Rejected(status) => Missing(status)
         case Index(n) =>
           if n < |items| then Resolve(items[n], path[1..]) else Missing(LookupPathDoesNotMatchData))
      case MapValue(items) =>
        var i := FirstKey(items, path[0], 0);
        if i < |items| then Resolve(items[i + 1], path[1..]) else Missing(LookupPathDoesNotMatchData)
  }

  // ----- lookup on bytes -----

  /** lookup_path_in_map up to the match: the offset of the value whose key matches. */
  function FindKey(mem: seq<byte>, at: nat, pairs: nat, key: seq<byte>): (Status, nat)
    requires |mem| < U32_RANGE
    decreases pairs
  {
    if pairs == 0 then (LookupPathDoesNotMatchData, at)
    else
      var (status, k) := FollowSpec(mem, at, ZERO_ENTRY);
      if status != Success then (status, at)
      else if k.typ != TYPE_UTF8_STRING then (InvalidData, at)
      else if k.dataSize == |key| && !HasText(mem, k) then (Undefined, at)
      else if k.dataSize == |key| && TextOf(mem, k) == key then (Success, k.offsetToNext)
      else
        var (skipped, next) := SkipField(mem, k.offsetToNext);
        if skipped != Success then (skipped, at) else FindKey(mem, next, pairs - 1, key)
  }

  /** One path element: the offset of the member it names in the decoded container `e`. */
  function Member(mem: seq<byte>, e: Entry, elem: seq<byte>): (Status, nat)
    requires |mem| < U32_RANGE
  {
    if e.typ == TYPE_ARRAY then
      match ReadIndex(elem)
      case Rejected(status) => (status, 0)
      case Index(n) =>
        if n >= e.dataSize then (LookupPathDoesNotMatchData, 0) else SkipItems(mem, e.offsetToNext, n, false)
    else if e.typ == TYPE_MAP then FindKey(mem, e.offsetToNext, e.dataSize, elem)
    else (LookupPathDoesNotMatchData, 0)
  }

  /** MMDB_aget_value: the status, and the offset of the field the path names. */
  function GetSpec(mem: seq<byte>, at: nat, path: Path): (Status, nat)
    requires |mem| < U32_RANGE
    decreases |path|
  {
    var (status, e) := FollowSpec(mem, at, ZERO_ENTRY);
    if status != Success then (status, at)
    else if path == [] then (Success, at)
    else
      var (status', next) := Member(mem, e, path[0]);
      if status' != Success then (status', at) else GetSpec(mem, next, path[1..])
  }

  // ----- the methods -----

  /** Following into a used struct and into a zeroed one agree on everything lookup looks at. */
  lemma FollowAgrees(mem: seq<byte>, at: nat, before: Entry)
    requires |mem| < U32_RANGE
    ensures var (status, e) := FollowSpec(mem, at, before);
            var (status', e') := FollowSpec(mem, at, ZERO_ENTRY);
            && status == status'
            && (status == Success ==>
                 && Settled(e) == Settled(e') && e.hasData && e.typ == e'.typ && e.offsetToNext == e'.offsetToNext
                 && (StoresSize(e.typ) ==> e.dataSize == e'.dataSize)
                 && (e.typ == TYPE_UTF8_STRING ==> e.datum == e'.datum))
  {
    FollowIgnoresOldContents(mem, at, before, ZERO_ENTRY);
    if FollowSpec(mem, at, before).0 == Success {
      FollowHasData(mem, at, before);
      hide FollowSpec;
      var e, e' := FollowSpec(mem, at, before).1, FollowSpec(mem, at, ZERO_ENTRY).1;
      SettledParts(e, e');
    }
  }

  lemma FollowHasData(mem: seq<byte>, at: nat, before: Entry)
    requires FollowSpec(mem, at, before).0 == Success
    ensures FollowSpec(mem, at, before).1.hasData
  {
  }

  /** What lookup_path_in_array and lookup_path_in_map promise: on success `ed` holds the member, followed once. */
  ghost predicate HoldsMember(mem: seq<byte>, e: Entry, elem: seq<byte>, status: Status, got: Entry)
    requires |mem| < U32_RANGE
  {
    var (found, at) := Member(mem, e, elem);
    if found != Success then status == found
    else
      var (followed, member) := FollowSpec(mem, at, ZERO_ENTRY);
      status == followed && (status == Success ==> got.hasData && Settled(got) == Settled(member))
  }

  method LookupPathInArray(elem: seq<byte>, mem: seq<byte>, ed: EntryData) returns (status: Status)
    requires |mem| < U32_RANGE && ed.typ == TYPE_ARRAY
    modifies ed
    ensures HoldsMember(mem, old(ed.View()), elem, status, ed.View())
  {
    hide Forward, FollowSpec;
    ghost var e := ed.View();
    var size := ed.dataSize;
    var index := ReadIndex(elem);
    if index.Rejected? {
      return index.status;
    }
    if index.n >= size {
      return LookupPathDoesNotMatchData;
    }
    for i := 0 to index.n
      invariant SkipItems(mem, ed.offsetToNext, index.n - i, false) == Member(mem, e, elem)
    {
      ForwardAgrees(mem, ed.offsetToNext, ed.View());
      status := DecodeForward(mem, ed.offsetToNext, ed);
      if status != Success {
        return;
      }
      status := SkipMapOrArray(mem, ed);
      if status != Success {
        return;
      }
    }
    var value := new EntryData.Local();
    FollowAgrees(mem, ed.offsetToNext, value.View());
    status := DecodeOneFollow(mem, ed.offsetToNext, value);
    if status != Success {
      return;
    }
    ed.CopyFrom(value);
    return Success;
  }

  method LookupPathInMap(elem: seq<byte>, mem: seq<byte>, ed: EntryData) returns (status: Status)
    requires |mem| < U32_RANGE && ed.typ == TYPE_MAP
    modifies ed
    ensures HoldsMember(mem, old(ed.View()), elem, status, ed.View())
  {
    hide Forward, FollowSpec;
    ghost var e := ed.View();
    var size := ed.dataSize;
    var offset := ed.offsetToNext;
    while size > 0
      invariant FindKey(mem, offset, size, elem) == Member(mem, e, elem)
    {
      size := size - 1;
      var key := new EntryData.Local();
      var value := new EntryData.Local();
      FollowAgrees(mem, offset, key.View());
      status := DecodeOneFollow(mem, offset, key);
      if status != Success {
        return;
      }
      var offsetToValue := key.offsetToNext;
      if key.typ != TYPE_UTF8_STRING {
        return InvalidData;
      }
      if key.dataSize == |elem| {
        if !HasText(mem, key.View()) {
          return Undefined;
        }
        if TextOf(mem, key.View()) == elem {
          FollowAgrees(mem, offsetToValue, value.View());
          status := DecodeOneFollow(mem, offsetToValue, value);
          if status != Success {
            return;
          }
          ed.CopyFrom(value);
          return Success;
        }
      }
      ForwardAgrees(mem, offsetToValue, value.View());
      status := DecodeForward(mem, offsetToValue, value);
      if status != Success {
        return;
      }
      status := SkipMapOrArray(mem, value);
      if status != Success {
        return;
      }
      offset := value.offsetToNext;
    }
    ed.Clear();
    return LookupPathDoesNotMatchData;
  }

  /** MMDB_aget_value.  Once the first decode has succeeded, every failure leaves the struct zeroed. */
  method GetValue(mem: seq<byte>, start: nat, ed: EntryData, path: Path) returns (status: Status)
    requires |mem| < U32_RANGE
    modifies ed
    ensures status == GetSpec(mem, start, path).0
    ensures status == Success ==>
              Settled(ed.View()) == Settled(FollowSpec(mem, GetSpec(mem, start, path).1, ZERO_ENTRY).1)
    ensures status != Success ==>
              var (first, e) := FollowSpec(mem, start, ZERO_ENTRY);
              ed.View() == if first == Success then ZERO_ENTRY else e
  {
    hide DecodeSpec, FollowSpec;
    ed.Clear();
    FollowAgrees(mem, start, ed.View());
    status := DecodeOneFollow(mem, start, ed);
    if status != Success {
      return;
    }
    assert ed.hasData;
    ghost var at := start;
    for i := 0 to |path|
      invariant GetSpec(mem, at, path[i..]) == GetSpec(mem, start, path)
      invariant FollowSpec(mem, at, ZERO_ENTRY).0 == Success
      invariant Settled(ed.View()) == Settled(FollowSpec(mem, at, ZERO_ENTRY).1)
    {
      ghost var e := FollowSpec(mem, at, ZERO_ENTRY).1;
      SameMember(mem, ed.View(), e, path[i]);
      at := Member(mem, e, path[i]).1;
      assert path[i..][1..] == path[i + 1..];
      if ed.typ == TYPE_ARRAY {
        status := LookupPathInArray(path[i], mem, ed);
        if status != Success {
          ed.Clear();
          return;
        }
      } else if ed.typ == TYPE_MAP {
        status := LookupPathInMap(path[i], mem, ed);
        if status != Success {
          ed.Clear();
          return;
        }
      } else {
        ed.Clear();
        return LookupPathDoesNotMatchData;
      }
    }
    return Success;
  }

  lemma SameMember(mem: seq<byte>, e: Entry, e': Entry, elem: seq<byte>)
    requires |mem| < U32_RANGE && Settled(e) == Settled(e')
    ensures e.typ == e'.typ && Member(mem, e, elem) == Member(mem, e', elem)
  {
    SettledParts(e, e');
  }
}
