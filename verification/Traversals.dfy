/**
  The two traversals name the same nodes: MMDB_aget_value, which skips siblings without expanding them, and
  MMDB_get_entry_data_list, which expands everything.  mmdblookup calls one after the other.
 */
module Traversals {
  import opened Bytes
  import opened Decode
  import opened Layout
  import opened ArrayIndex
  import opened Paths
  import opened Lookup
  import opened LayoutLookup
  import opened LookupRefines
  import opened Flatten

  /** Where the preorder of the value a path names starts in the preorder of the whole value. */
  function SliceStart(v: Value, path: Path): nat
    requires Resolve(v, path).Here?
    decreases |path|
  {
    if path == [] then 0
    else
      match v
      case ArrayValue(items) =>
        var i := ReadIndex(path[0]).n;
        1 + |PreorderAll(items[..i])| + SliceStart(items[i], path[1..])
      case MapValue(items) =>
        var i := FirstKey(items, path[0], 0) + 1;
        1 + |PreorderAll(items[..i])| + SliceStart(items[i], path[1..])
  }

  ghost predicate SliceAt<T>(whole: seq<T>, start: nat, part: seq<T>) {
    start + |part| <= |whole| && whole[start..start + |part|] == part
  }

  lemma {:induction false} ItemSlice(items: seq<Value>, i: nat)
    requires i < |items|
    ensures SliceAt(PreorderAll(items), |PreorderAll(items[..i])|, Preorder(items[i]))
  {
    if i > 0 {
      ItemSlice(items[1..], i - 1);
      assert items[..i][1..] == items[1..][..i - 1];
    }
  }

  lemma SliceInside<T>(whole: seq<T>, start: nat, part: seq<T>, start': nat, part': seq<T>, first: T)
    requires SliceAt(whole, start, part) && SliceAt(part, start', part')
    ensures SliceAt([first] + whole, 1 + start + start', part')
  {
    assert whole[start..start + |part|][start'..start' + |part'|] == part';
  }

  /** The preorder of what a path names is a contiguous slice of the preorder of the whole. */
  lemma {:induction false} PathSlice(v: Value, path: Path)
    requires Resolve(v, path).Here?
    ensures SliceAt(Preorder(v), SliceStart(v, path), Preorder(Resolve(v, path).v))
    decreases |path|
  {
    hide SliceAt, ReadIndex, FirstKey;
    if path == [] {
      WholeSlice(Preorder(v));
    } else {
      var i := if v.ArrayValue? then ReadIndex(path[0]).n else FirstKey(v.items, path[0], 0) + 1;
      var item, rest := v.items[i], path[1..];
      assert Resolve(v, path) == Resolve(item, rest);
      ItemSlice(v.items, i);
      PathSlice(item, rest);
      var start := |PreorderAll(v.items[..i])|;
      SliceInside(PreorderAll(v.items), start, Preorder(item),
                  SliceStart(item, rest), Preorder(Resolve(item, rest).v), Preorder(v)[0]);
      assert Preorder(v) == [Preorder(v)[0]] + PreorderAll(v.items);
    }
  }

  lemma WholeSlice<T>(whole: seq<T>)
    ensures SliceAt(whole, 0, whole)
  {
  }

  /** The two traversals agree: flattening from the offset that MMDB_aget_value reports for a path gives the slice of
      the full preorder that belongs to the value the path names. */
  lemma TraversalsAgree(mem: seq<byte>, at: nat, d: Layout, path: Path) returns (fuel: nat)
    requires |mem| < U32_RANGE && WellFormed(mem, at, d) && Conforms(d)
    ensures GetSpec(mem, at, path).0 == Success <==> Resolve(Erase(d), path).Here?
    ensures GetSpec(mem, at, path).0 == Success ==>
            var e := FollowSpec(mem, GetSpec(mem, at, path).1, ZERO_ENTRY).1;
            var part := FlatField(mem, e.offset, ZERO_ENTRY, fuel);
            var whole := FlatField(mem, at, ZERO_ENTRY, fuel);
            && part.Ended? && part.status == Success && whole.Ended? && whole.status == Success
            && SliceAt(Meanings(mem, whole.entries), SliceStart(Erase(d), path), Meanings(mem, part.entries))
            && Meanings(mem, part.entries) == Preorder(Resolve(Erase(d), path).v)
  {
    hide DecodeSpec, FollowSpec, Head, Holds, Meanings, Meaning, FlatField;
    var at', d' := PathLookup(mem, at, d, path);
    fuel := 0;
    if Resolve(Erase(d), path).Missing? {
      return;
    }
    FollowLayout(mem, at', d');
    EraseTarget(d');
    fuel := Weight(d) + Weight(d');
    FlattensToPreorder(mem, at, d, ZERO_ENTRY, fuel);
    FlattensToPreorder(mem, TargetAt(at', d'), Target(d'), ZERO_ENTRY, fuel);
    PathSlice(Erase(d), path);
  }
}
