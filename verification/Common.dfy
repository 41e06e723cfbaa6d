/** Small things that several models use. */
module Common {
  /** A value that may be absent. */
  datatype Option<+T> = None | Some(value: T)

  function Min(a: nat, b: nat): nat {
    if a < b then a else b
  }

  /** The low seven bits of a byte. */
  function Low7(b: nat): (r: nat)
    requires b < 256
    ensures r < 128
  {
    if b < 128 then b else b - 128
  }

  function Concat<T>(chunks: seq<seq<T>>): seq<T> {
    if chunks == [] then [] else Concat(chunks[..|chunks| - 1]) + chunks[|chunks| - 1]
  }

  lemma Regroup<T>(a: seq<T>, b: seq<T>, c: seq<T>)
    ensures (a + b) + c == a + (b + c)
  {
  }

  /** From the front it is the same. */
  lemma {:induction false} ConcatFirst<T>(chunks: seq<seq<T>>)
    requires chunks != []
    ensures Concat(chunks) == chunks[0] + Concat(chunks[1..])
    decreases |chunks|
  {
    var n := |chunks| - 1;
    var rest := chunks[1..];
    if n == 0 {
      assert chunks[..0] == [] && rest == [];
    } else {
      ConcatFirst(chunks[..n]);
      assert chunks[..n][1..] == rest[..n - 1] && rest[n - 1] == chunks[n];
      Regroup(chunks[0], Concat(rest[..n - 1]), chunks[n]);
    }
  }
}
