/**
 contains_marker: a search through a file read in chunks, with the tail of what was read kept as overlap.
 */
module Marker {
  import opened Common

  type Bytes = seq<nat>

  /** Python's `s[start:]`. */
  function From(s: Bytes, start: int): Bytes {
    if start >= |s| then []
    else if start >= 0 then s[start..]
    else if |s| + start >= 0 then s[|s| + start..]
    else s
  }

  predicate OccursAt(marker: Bytes, s: Bytes, i: nat) {
    i + |marker| <= |s| && s[i..i + |marker|] == marker
  }

  /** Python's `marker in s`. */
  predicate Occurs(marker: Bytes, s: Bytes) {
    exists i :: 0 <= i <= |s| && OccursAt(marker, s, i)
  }

  /** What is needed of the overlap: a suffix of what was read, one byte short of a marker if there is that much. */
  ghost predicate Tail(overlap: Bytes, read: Bytes, marker: Bytes) {
    && |overlap| <= |read| && overlap == read[|read| - |overlap|..]
    && (|overlap| == |read| || |overlap| + 1 >= |marker|)
  }

  lemma DropOfSum(a: Bytes, b: Bytes, k: nat)
    requires k <= |a|
    ensures (a + b)[k..] == a[k..] + b
  {
  }

  lemma DropOfDrop(s: Bytes, i: nat, k: nat)
    requires i + k <= |s|
    ensures s[i..][k..] == s[i + k..]
  {
  }

  lemma WasThere(marker: Bytes, read: Bytes, chunk: Bytes, i: nat)
    requires OccursAt(marker, read + chunk, i) && i + |marker| <= |read|
    ensures Occurs(marker, read)
  {
    assert read[i..i + |marker|] == (read + chunk)[i..i + |marker|];
    assert OccursAt(marker, read, i);
  }

  /** An occurrence that was not in what was read before ends in the chunk, so the overlap shows it. */
  lemma NewOccurrence(marker: Bytes, read: Bytes, overlap: Bytes, chunk: Bytes)
    requires Tail(overlap, read, marker) && !Occurs(marker, read)
    ensures Occurs(marker, overlap + chunk) <==> Occurs(marker, read + chunk)
  {
    var gap := |read| - |overlap|;
    var joined, window := read + chunk, overlap + chunk;
    WindowIsTail(overlap, read, chunk);
    if Occurs(marker, window) {
      var i :| 0 <= i <= |window| && OccursAt(marker, window, i);
      assert joined[gap + i..gap + i + |marker|] == window[i..i + |marker|];
      assert OccursAt(marker, joined, gap + i);
    }
    if Occurs(marker, joined) {
      var i :| 0 <= i <= |joined| && OccursAt(marker, joined, i);
      if i < gap {
        WasThere(marker, read, chunk, i);
        assert false;
      }
      assert window[i - gap..i - gap + |marker|] == joined[i..i + |marker|];
      assert OccursAt(marker, window, i - gap);
    }
  }

  lemma NextTail(marker: Bytes, read: Bytes, overlap: Bytes, chunk: Bytes)
    requires Tail(overlap, read, marker) && marker != []
    ensures Tail(From(overlap + chunk, -|marker| + 1), read + chunk, marker)
  {
    var window, keep := overlap + chunk, |marker| - 1;
    FromEnd(window, keep);
    if keep == 0 || |window| < keep {
      WholeTail(marker, read, overlap, chunk);
    } else {
      CutTail(marker, read, overlap, chunk);
    }
  }

  lemma WholeTail(marker: Bytes, read: Bytes, overlap: Bytes, chunk: Bytes)
    requires Tail(overlap, read, marker) && (|marker| == 1 || |overlap + chunk| + 1 < |marker|)
    ensures Tail(overlap + chunk, read + chunk, marker)
  {
    WindowIsTail(overlap, read, chunk);
  }

  lemma CutTail(marker: Bytes, read: Bytes, overlap: Bytes, chunk: Bytes)
    requires Tail(overlap, read, marker) && 2 <= |marker| <= |overlap + chunk| + 1
    ensures Tail((overlap + chunk)[|overlap + chunk| - (|marker| - 1)..], read + chunk, marker)
  {
    WindowIsTail(overlap, read, chunk);
    DropOfDrop(read + chunk, |read| - |overlap|, |overlap + chunk| - (|marker| - 1));
  }

  lemma WindowIsTail(overlap: Bytes, read: Bytes, chunk: Bytes)
    requires |overlap| <= |read| && overlap == read[|read| - |overlap|..]
    ensures overlap + chunk == (read + chunk)[|read| - |overlap|..]
  {
    DropOfSum(read, chunk, |read| - |overlap|);
  }

  lemma FromEnd(s: Bytes, keep: int)
    requires keep >= 0
    ensures From(s, -keep) == if keep == 0 || |s| < keep then s else s[|s| - keep..]
  {
  }

  /** What the search answers about a file: an empty marker is not found in an empty one. */
  ghost predicate Found(marker: Bytes, file: Bytes) {
    Occurs(marker, file) && (marker != [] || file != [])
  }

  /** The marker has not been found in what was read, and the overlap is as it should be. */
  ghost predicate Searched(marker: Bytes, read: Bytes, overlap: Bytes) {
    !Found(marker, read) && Tail(overlap, read, marker)
  }

  lemma Step(marker: Bytes, read: Bytes, overlap: Bytes, chunk: Bytes)
    requires Searched(marker, read, overlap) && chunk != []
    ensures Occurs(marker, overlap + chunk) <==> Found(marker, read + chunk)
    ensures !Occurs(marker, overlap + chunk) ==>
      Searched(marker, read + chunk, From(overlap + chunk, -|marker| + 1))
  {
    if marker == [] {
      assert OccursAt(marker, overlap + chunk, 0) && OccursAt(marker, read + chunk, 0);
    } else {
      NewOccurrence(marker, read, overlap, chunk);
      NextTail(marker, read, overlap, chunk);
    }
  }

  /** The file up to the next chunk, and a find there is a find in the whole file. */
  lemma NextChunk(marker: Bytes, chunks: seq<Bytes>, i: nat)
    requires i < |chunks|
    ensures Concat(chunks[..i + 1]) == Concat(chunks[..i]) + chunks[i]
    ensures Found(marker, Concat(chunks[..i + 1])) ==> Found(marker, Concat(chunks))
  {
    assert chunks[..i + 1][..i] == chunks[..i];
    if Found(marker, Concat(chunks[..i + 1])) {
      Extends(marker, chunks, i + 1);
    }
  }

  /** Whatever the chunks are, the answer is about the whole file, but for an empty marker in an empty file. */
  method ContainsMarker(chunks: seq<Bytes>, marker: Bytes) returns (found: bool)
    requires forall c :: c in chunks ==> c != []
    ensures found <==> Occurs(marker, Concat(chunks)) && (marker != [] || Concat(chunks) != [])
  {
    var overlap: Bytes := [];
    for i := 0 to |chunks|
      invariant Searched(marker, Concat(chunks[..i]), overlap)
    {
      var chunk := chunks[i];
      assert chunk in chunks;
      Step(marker, Concat(chunks[..i]), overlap, chunk);
      NextChunk(marker, chunks, i);
      if Occurs(marker, overlap + chunk) {
        return true;
      }
      overlap := From(overlap + chunk, -|marker| + 1);
    }
    assert chunks[..|chunks|] == chunks;
    found := false;
  }

  lemma {:induction false} Extends(marker: Bytes, chunks: seq<Bytes>, n: nat)
    requires n <= |chunks| && Found(marker, Concat(chunks[..n]))
    ensures Found(marker, Concat(chunks))
    decreases |chunks|
  {
    if n == |chunks| {
      assert chunks[..n] == chunks;
    } else {
      var front := chunks[..|chunks| - 1];
      assert front[..n] == chunks[..n];
      Extends(marker, front, n);
      var i :| 0 <= i <= |Concat(front)| && OccursAt(marker, Concat(front), i);
      assert Concat(chunks)[i..i + |marker|] == Concat(front)[i..i + |marker|];
      assert OccursAt(marker, Concat(chunks), i);
    }
  }
}
