/**
  Finding the metadata: mmdb_memmem and find_metadata.
 */
module Metadata {
  import opened Bytes

  /** "\xab\xcd\xefMaxMind.com" */
  const MARKER: seq<byte> := [0xab, 0xcd, 0xef, 77, 97, 120, 77, 105, 110, 100, 46, 99, 111, 109]

  /** METADATA_BLOCK_MAX_SIZE */
  const BLOCK_MAX_SIZE: nat := 131072

  ghost predicate MatchAt(mem: seq<byte>, i: nat, s: seq<byte>) {
    i + |s| <= |mem| && mem[i..i + |s|] == s
  }

  datatype Position = NotFound | At(i: nat)

  ghost predicate IsFirst(mem: seq<byte>, s: seq<byte>, p: Position) {
    match p
    case NotFound => forall j: nat :: !MatchAt(mem, j, s)
    case At(i) => MatchAt(mem, i, s) && forall j: nat | j < i :: !MatchAt(mem, j, s)
  }

  ghost predicate IsLast(mem: seq<byte>, s: seq<byte>, p: Position) {
    match p
    case NotFound => forall j: nat :: !MatchAt(mem, j, s)
    case At(i) => MatchAt(mem, i, s) && forall j: nat | j > i :: !MatchAt(mem, j, s)
  }

  /** mmdb_memmem: the least position of `s` in `l`.  An empty needle is never found.  A
      needle of one byte goes to memchr in the source, which finds the same. */
  method Memmem(l: seq<byte>, s: seq<byte>) returns (p: Position)
    ensures s == [] ==> p == NotFound
    ensures s != [] ==> IsFirst(l, s, p)
  {
    if |l| == 0 || |s| == 0 {
      return NotFound;
    }
    if |l| < |s| {
      return NotFound;
    }
    var last := |l| - |s|;
    var cur := 0;
    while cur <= last
      invariant 0 <= cur <= last + 1
      invariant forall j: nat | j < cur :: !MatchAt(l, j, s)
    {
      assert l[cur] == l[cur..cur + |s|][0];
      if l[cur] == s[0] && l[cur..cur + |s|] == s {
        return At(cur);
      }
      cur := cur + 1;
    }
    return NotFound;
  }

  /** Where the search area of find_metadata begins: the last 128kb of the file. */
  function WindowStart(size: nat): nat {
    if size > BLOCK_MAX_SIZE then size - BLOCK_MAX_SIZE else 0
  }

  /** The part of the file find_metadata searches. */
  function Window(file: seq<byte>): seq<byte> {
    file[WindowStart(|file|)..]
  }

  /** The answer of find_metadata, given the first marker of the window. */
  function MetadataStart(file: seq<byte>, first: Position): nat {
    WindowStart(|file|) + |MARKER| + if first.At? then first.i else 0
  }

  lemma MatchesInSuffix(file: seq<byte>, from: nat, j: nat, s: seq<byte>)
    requires from <= |file|
    ensures MatchAt(file[from..], j, s) <==> MatchAt(file, from + j, s)
  {
    if from + j + |s| <= |file| {
      assert file[from..][j..j + |s|] == file[from + j..from + j + |s|];
    }
  }

  /** The first marker among the last 131072 bytes of a file.  The marker is 0xab, 0xcd, 0xef and "MaxMind.com". */
  ghost predicate FirstMarkerAt(file: seq<byte>, i: nat) {
    && |file| - 131072 <= i && MarkerAt(file, i)
    && forall j: nat | |file| - 131072 <= j < i :: !MarkerAt(file, j)
  }

  predicate MarkerAt(file: seq<byte>, i: nat) {
    && i + 14 <= |file| && file[i] == 0xab && file[i + 1] == 0xcd && file[i + 2] == 0xef
    && file[i + 3] == 'M' as int && file[i + 4] == 'a' as int && file[i + 5] == 'x' as int && file[i + 6] == 'M' as int
    && file[i + 7] == 'i' as int && file[i + 8] == 'n' as int && file[i + 9] == 'd' as int && file[i + 10] == '.' as int
    && file[i + 11] == 'c' as int && file[i + 12] == 'o' as int && file[i + 13] == 'm' as int
  }

  lemma MarkerBytes(file: seq<byte>, i: nat)
    ensures MatchAt(file, i, MARKER) <==> MarkerAt(file, i)
  {
    if i + 14 <= |file| {
      var s := file[i..i + 14];
      assert s == MARKER <==> forall k | 0 <= k < 14 :: s[k] == MARKER[k];
      assert s == [s[0], s[1], s[2], s[3], s[4], s[5], s[6], s[7], s[8], s[9], s[10], s[11], s[12], s[13]];
    }
  }

  /** The window is the last 131072 bytes: the answer lies 14 past the first marker there, and without one 14 past the
      start of the window. */
  lemma StartsAfterFirstMarker(file: seq<byte>, first: Position)
    requires IsFirst(Window(file), MARKER, first)
    ensures first.At? ==> FirstMarkerAt(file, MetadataStart(file, first) - 14)
    ensures forall i: nat | FirstMarkerAt(file, i) :: MetadataStart(file, first) == i + 14
    ensures first.NotFound? <==> forall i: nat | |file| - 131072 <= i :: !MarkerAt(file, i)
    ensures (forall i: nat | |file| - 131072 <= i :: !MarkerAt(file, i)) ==>
              MetadataStart(file, first) == if |file| > 131072 then |file| - 131072 + 14 else 14
  {
    var from := WindowStart(|file|);
    forall j: nat ensures MatchAt(Window(file), j, MARKER) <==> MarkerAt(file, from + j) {
      MatchesInSuffix(file, from, j, MARKER);
      MarkerBytes(file, from + j);
    }
    if first.At? {
      var i := from + first.i;
      assert MarkerAt(file, i);
      forall j: nat | |file| - 131072 <= j < i ensures !MarkerAt(file, j) {
        assert !MatchAt(Window(file), j - from, MARKER);
      }
    }
    if first.NotFound? {
      forall i: nat | |file| - 131072 <= i ensures !MarkerAt(file, i) {
        assert !MatchAt(Window(file), i - from, MARKER);
      }
    }
    forall i: nat | FirstMarkerAt(file, i) ensures MetadataStart(file, first) == i + 14 {
      assert MatchAt(Window(file), i - from, MARKER);
      assert first.At? && first.i <= i - from;
    }
  }

  /** find_metadata: where the metadata starts and the size it reports.  The loop is meant to go on to the last marker,
      but it sets the search area to the match before it compares the two, so it ends after one pass.  The result is
      never a null pointer: without a marker it is 14 bytes after the start of the window. */
  method FindMetadata(file: seq<byte>) returns (start: nat, size: nat, ghost marker: Position)
    ensures IsFirst(Window(file), MARKER, marker) && start == MetadataStart(file, marker)
    ensures marker.At? ==> FirstMarkerAt(file, start - 14)
    ensures marker.NotFound? ==> forall i: nat | |file| - 131072 <= i :: !MarkerAt(file, i)
    ensures forall i: nat | FirstMarkerAt(file, i) :: start == i + 14 && size == |file| - i
    ensures size == |file| - (start - 14)
  {
    var maxSize := if |file| > BLOCK_MAX_SIZE then BLOCK_MAX_SIZE else |file|;
    var searchArea := |file| - maxSize;
    var again := true;
    marker := NotFound;
    ghost var passes := 0;
    while again
      invariant passes <= 1 && (again <==> passes == 0)
      invariant passes == 0 ==> searchArea == WindowStart(|file|) && searchArea + maxSize == |file|
      invariant passes == 1 ==>
        && IsFirst(file[WindowStart(|file|)..], MARKER, marker)
        && searchArea == WindowStart(|file|) + if marker.At? then marker.i else 0
      invariant searchArea <= |file|
      decreases 1 - passes
    {
      assert file[searchArea..searchArea + maxSize] == file[searchArea..];
      var found := Memmem(file[searchArea..searchArea + maxSize], MARKER);
      var tmp := searchArea;
      if found.At? {
        tmp := searchArea + found.i;
        maxSize := maxSize - (tmp - searchArea);
        searchArea := tmp;
      }
      marker := found;
      again := found.At? && tmp != searchArea;
      passes := passes + 1;
    }
    start := searchArea + |MARKER|;
    size := |file| - searchArea;
    StartsAfterFirstMarker(file, marker);
  }

  /** The specification's answer is 14 past the last marker of the file.  For every file, find_metadata gives that
      answer exactly when its window holds one marker and no more. */
  lemma FirstIsLastExactly(file: seq<byte>, first: Position, last: Position)
    requires IsFirst(Window(file), MARKER, first) && IsLast(file, MARKER, last)
    ensures last.At? && MetadataStart(file, first) == last.i + 14 <==>
              first.At? && forall j: nat | MatchAt(Window(file), j, MARKER) :: j == first.i
  {
    var from := WindowStart(|file|);
    if first.At? {
      MatchesInSuffix(file, from, first.i, MARKER);
      MatchesInSuffix(file, from, last.i - from, MARKER);
      forall j: nat | MatchAt(Window(file), j, MARKER) ensures j >= first.i && from + j <= last.i {
        MatchesInSuffix(file, from, j, MARKER);
      }
    } else if last.At? && last.i >= from {
      MatchesInSuffix(file, from, last.i - from, MARKER);
    }
  }

  /** A file with two markers: find_metadata stops at the first, the specification asks for the second. */
  lemma StopsAtFirstMarker()
    ensures var file := MARKER + MARKER;
            && IsFirst(Window(file), MARKER, At(0)) && IsLast(file, MARKER, At(14))
            && MetadataStart(file, At(0)) == 14
  {
    var file := MARKER + MARKER;
    assert file[0..14] == MARKER && file[14..28] == MARKER;
    assert Window(file) == file;
  }
}
