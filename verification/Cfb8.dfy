/** CFB mode with eight-bit segments (NIST SP 800-38A section 6.3, s = 8), over any block cipher. */
module Cfb8 {
  import opened Bits
  import opened Common
  import opened Gf256
  import opened Fips197

  /** The first byte of the enciphered register, as a function of the register. */
  type Keystream = Block -> Byte

  function Shift(register: Block, b: Byte): Block {
    register[1..] + [b]
  }

  /** One segment: the output byte, and the ciphertext byte that enters the register. */
  function Segment(e: Keystream, encrypting: bool, register: Block, source: Byte): (Byte, Block) {
    var transformed := Add(source, e(register));
    (transformed, Shift(register, if encrypting then transformed else source))
  }

  function Output(e: Keystream, encrypting: bool, register: Block, source: seq<Byte>): (out: seq<Byte>)
    ensures |out| == |source|
    decreases |source|
  {
    if source == [] then []
    else
      var (b, next) := Segment(e, encrypting, register, source[0]);
      [b] + Output(e, encrypting, next, source[1..])
  }

  /** The register after the whole source. */
  function Final(e: Keystream, encrypting: bool, register: Block, source: seq<Byte>): Block
    decreases |source|
  {
    if source == [] then register
    else Final(e, encrypting, Segment(e, encrypting, register, source[0]).1, source[1..])
  }

  /** Splitting the source into two calls changes neither the bytes nor the register. */
  lemma {:induction false} Split(e: Keystream, encrypting: bool, register: Block, a: seq<Byte>, b: seq<Byte>)
    ensures Output(e, encrypting, register, a + b)
         == Output(e, encrypting, register, a) + Output(e, encrypting, Final(e, encrypting, register, a), b)
    ensures Final(e, encrypting, register, a + b)
         == Final(e, encrypting, Final(e, encrypting, register, a), b)
    decreases |a|
  {
    if a == [] {
      assert a + b == b;
    } else {
      assert (a + b)[1..] == a[1..] + b;
      Split(e, encrypting, Segment(e, encrypting, register, a[0]).1, a[1..], b);
    }
  }

  /** The recommendation's own formulation: segment j is masked by the cipher of the sixteen
      bytes that precede ciphertext byte j in the concatenation of IV and ciphertext. */
  ghost predicate IsCfb(e: Keystream, iv: Block, plain: seq<Byte>, cipher: seq<Byte>) {
    && |plain| == |cipher|
    && forall j :: 0 <= j < |cipher| ==> cipher[j] == Add(plain[j], e((iv + cipher)[j..j + 16]))
  }

  /** The register windows of the rest are those of the whole, one place further. */
  lemma NextWindow(iv: Block, cipher: seq<Byte>, j: nat)
    requires 1 <= j < |cipher|
    ensures (iv + cipher)[j..j + 16] == (Shift(iv, cipher[0]) + cipher[1..])[j - 1..j + 15]
  {
    assert iv + cipher == iv[..1] + (Shift(iv, cipher[0]) + cipher[1..]);
  }

  lemma {:induction false} EncryptIsCfb(e: Keystream, iv: Block, plain: seq<Byte>)
    ensures IsCfb(e, iv, plain, Output(e, true, iv, plain))
    decreases |plain|
  {
    if plain != [] {
      var cipher := Output(e, true, iv, plain);
      var next := Shift(iv, cipher[0]);
      EncryptIsCfb(e, next, plain[1..]);
      assert cipher[1..] == Output(e, true, next, plain[1..]);
      FirstAndLater(e, iv, plain, cipher);
    }
  }

  lemma FirstAndLater(e: Keystream, iv: Block, plain: seq<Byte>, cipher: seq<Byte>)
    requires |plain| == |cipher| > 0 && cipher[0] == Add(plain[0], e(iv))
    requires IsCfb(e, Shift(iv, cipher[0]), plain[1..], cipher[1..])
    ensures IsCfb(e, iv, plain, cipher)
  {
    forall j | 0 <= j < |cipher| ensures cipher[j] == Add(plain[j], e((iv + cipher)[j..j + 16])) {
      if j == 0 {
        assert (iv + cipher)[0..16] == iv;
      } else {
        LaterSegment(e, iv, plain, cipher, j);
      }
    }
  }

  /** A segment after the first is one of the rest. */
  lemma LaterSegment(e: Keystream, iv: Block, plain: seq<Byte>, cipher: seq<Byte>, j: nat)
    requires |plain| == |cipher| && 1 <= j < |cipher|
    requires IsCfb(e, Shift(iv, cipher[0]), plain[1..], cipher[1..])
    ensures cipher[j] == Add(plain[j], e((iv + cipher)[j..j + 16]))
  {
    NextWindow(iv, cipher, j);
    assert cipher[1..][j - 1] == cipher[j] && plain[1..][j - 1] == plain[j];
  }

  /** The formulation determines the ciphertext. */
  lemma {:induction false} CfbUnique(e: Keystream, iv: Block, plain: seq<Byte>, c: seq<Byte>, d: seq<Byte>, n: nat)
    requires IsCfb(e, iv, plain, c) && IsCfb(e, iv, plain, d) && n <= |plain|
    ensures c[..n] == d[..n]
    decreases n
  {
    if n > 0 {
      CfbUnique(e, iv, plain, c, d, n - 1);
      WindowBefore(iv, c, n - 1);
      WindowBefore(iv, d, n - 1);
      assert c[n - 1] == Add(plain[n - 1], e((iv + c)[n - 1..n - 1 + 16]));
      assert d[n - 1] == Add(plain[n - 1], e((iv + d)[n - 1..n - 1 + 16]));
      OneMore(c, n - 1);
      OneMore(d, n - 1);
    }
  }

  /** The window before byte j holds earlier bytes only. */
  lemma WindowBefore(iv: Block, cipher: seq<Byte>, j: nat)
    requires j < |cipher|
    ensures (iv + cipher)[j..j + 16] == (iv + cipher[..j])[j..j + 16]
  {
    forall i | j <= i < j + 16 ensures (iv + cipher)[i] == (iv + cipher[..j])[i] {
    }
  }

  lemma OneMore(s: seq<Byte>, j: nat)
    requires j < |s|
    ensures s[..j + 1] == s[..j] + [s[j]]
  {
  }

  lemma AddCancel(a: Byte, k: Byte)
    ensures Add(Add(a, k), k) == a
  {
    XorAssoc(a, k, k);
    XorSelf(k);
    XorComm(a, 0);
  }

  /** Decryption undoes encryption, and both registers end equal. */
  lemma {:induction false} DecryptEncrypt(e: Keystream, register: Block, plain: seq<Byte>)
    ensures Output(e, false, register, Output(e, true, register, plain)) == plain
    ensures Final(e, false, register, Output(e, true, register, plain)) == Final(e, true, register, plain)
    decreases |plain|
  {
    if plain != [] {
      var (c, next) := Segment(e, true, register, plain[0]);
      AddCancel(plain[0], e(register));
      assert Output(e, true, register, plain)[1..] == Output(e, true, next, plain[1..]);
      DecryptEncrypt(e, next, plain[1..]);
    }
  }

  // ------------------------------------------------------ runs of calls

  /** The outputs of successive update calls on one object. */
  function Calls(e: Keystream, encrypting: bool, register: Block, chunks: seq<seq<Byte>>): seq<seq<Byte>>
    decreases |chunks|
  {
    if chunks == [] then []
    else
      [Output(e, encrypting, register, chunks[0])]
      + Calls(e, encrypting, Final(e, encrypting, register, chunks[0]), chunks[1..])
  }

  function CallsFinal(e: Keystream, encrypting: bool, register: Block, chunks: seq<seq<Byte>>): Block
    decreases |chunks|
  {
    if chunks == [] then register
    else CallsFinal(e, encrypting, Final(e, encrypting, register, chunks[0]), chunks[1..])
  }

  lemma {:induction false} CallsAreOneCall(e: Keystream, encrypting: bool, register: Block, chunks: seq<seq<Byte>>)
    ensures Concat(Calls(e, encrypting, register, chunks)) == Output(e, encrypting, register, Concat(chunks))
    ensures CallsFinal(e, encrypting, register, chunks) == Final(e, encrypting, register, Concat(chunks))
    decreases |chunks|
  {
    if chunks != [] {
      var next := Final(e, encrypting, register, chunks[0]);
      CallsAreOneCall(e, encrypting, next, chunks[1..]);
      ConcatFirst(chunks);
      ConcatFirst(Calls(e, encrypting, register, chunks));
      Split(e, encrypting, register, chunks[0], Concat(chunks[1..]));
      assert Calls(e, encrypting, register, chunks)[1..] == Calls(e, encrypting, next, chunks[1..]);
    }
  }

  /** However the plaintext is cut for the encrypting object and however the ciphertext is cut again
      for the decrypting object, the plaintext comes back and the two registers agree. */
  lemma RoundTrip(e: Keystream, iv: Block, sent: seq<seq<Byte>>, received: seq<seq<Byte>>)
    requires Concat(received) == Concat(Calls(e, true, iv, sent))
    ensures Concat(Calls(e, false, iv, received)) == Concat(sent)
    ensures CallsFinal(e, false, iv, received) == CallsFinal(e, true, iv, sent)
  {
    CallsAreOneCall(e, true, iv, sent);
    CallsAreOneCall(e, false, iv, received);
    DecryptEncrypt(e, iv, Concat(sent));
  }

  // ------------------------------------------------ the update loop

  /** The loop over two buffers, or over one buffer that is both input and output (shared). */
  function Run(e: Keystream, encrypting: bool, register: Block, input: seq<Byte>, shared: bool,
               output: seq<Byte>, from: nat, to: nat, count: nat): (seq<Byte>, Block)
    requires from + count <= |if shared then output else input| && to + count <= |output|
    decreases count
  {
    if count == 0 then (output, register)
    else
      var (b, next) := Segment(e, encrypting, register, (if shared then output else input)[from]);
      Run(e, encrypting, next, input, shared, output[to := b], from + 1, to + 1, count - 1)
  }

  /** With two buffers, and with one buffer that is written at or behind the read position or past
      the whole range, the loop transforms exactly the bytes that were there before the call. */
  lemma {:induction false} RunIsOutput(e: Keystream, encrypting: bool, register: Block, input: seq<Byte>, shared: bool,
                                       output: seq<Byte>, from: nat, to: nat, count: nat)
    requires from + count <= |if shared then output else input| && to + count <= |output|
    requires shared ==> to <= from || from + count <= to
    ensures var source := (if shared then output else input)[from..from + count];
      Run(e, encrypting, register, input, shared, output, from, to, count)
        == (output[..to] + Output(e, encrypting, register, source) + output[to + count..],
            Final(e, encrypting, register, source))
    decreases count
  {
    var buffer := if shared then output else input;
    var source := buffer[from..from + count];
    if count == 0 {
      assert output[..to] + [] + output[to..] == output;
    } else {
      var (b, next) := Segment(e, encrypting, register, buffer[from]);
      var written := output[to := b];
      RunIsOutput(e, encrypting, next, input, shared, written, from + 1, to + 1, count - 1);
      assert (if shared then written else input)[from + 1..from + 1 + (count - 1)] == source[1..];
      Rejoin(output, to, count, b, Output(e, encrypting, next, source[1..]));
    }
  }

  lemma Rejoin(output: seq<Byte>, to: nat, count: nat, b: Byte, rest: seq<Byte>)
    requires count > 0 && to + count <= |output|
    ensures var written := output[to := b];
      written[..to + 1] + rest + written[to + 1 + (count - 1)..] == output[..to] + ([b] + rest) + output[to + count..]
  {
    var written := output[to := b];
    assert written[..to + 1] == output[..to] + [b];
    assert written[to + 1 + (count - 1)..] == output[to + count..];
  }

  /** A run is a shorter run followed by the rest. */
  lemma {:induction false} RunSplit(e: Keystream, encrypting: bool, register: Block, buffer: seq<Byte>,
                                    from: nat, to: nat, first: nat, rest: nat)
    requires from + first + rest <= |buffer| && to + first + rest <= |buffer|
    ensures var middle := Run(e, encrypting, register, [], true, buffer, from, to, first);
      |middle.0| == |buffer| &&
      Run(e, encrypting, register, [], true, buffer, from, to, first + rest) ==
        Run(e, encrypting, middle.1, [], true, middle.0, from + first, to + first, rest)
    decreases first
  {
    if first != 0 {
      var (b, next) := Segment(e, encrypting, register, buffer[from]);
      var written := buffer[to := b];
      RunSplit(e, encrypting, next, written, from + 1, to + 1, first - 1, rest);
      assert Run(e, encrypting, register, [], true, buffer, from, to, first) ==
        Run(e, encrypting, next, [], true, written, from + 1, to + 1, first - 1);
      assert Run(e, encrypting, register, [], true, buffer, from, to, first + rest) ==
        Run(e, encrypting, next, [], true, written, from + 1, to + 1, first - 1 + rest);
    }
  }

  /** Bytes before the write position keep their values. */
  lemma {:induction false} RunKeeps(e: Keystream, encrypting: bool, register: Block, buffer: seq<Byte>,
                                    from: nat, to: nat, count: nat, i: nat)
    requires from + count <= |buffer| && to + count <= |buffer| && i < to
    ensures var after := Run(e, encrypting, register, [], true, buffer, from, to, count).0;
      |after| == |buffer| && after[i] == buffer[i]
    decreases count
  {
    if count != 0 {
      var (b, next) := Segment(e, encrypting, register, buffer[from]);
      RunKeeps(e, encrypting, next, buffer[to := b], from + 1, to + 1, count - 1, i);
    }
  }

  /** Within one buffer the loop transforms the bytes that were there before the call. */
  ghost predicate TransformsOriginal(e: Keystream, encrypting: bool, register: Block, buffer: seq<Byte>,
                                     from: nat, to: nat, count: nat)
    requires from + count <= |buffer| && to + count <= |buffer|
  {
    var source := buffer[from..from + count];
    Run(e, encrypting, register, [], true, buffer, from, to, count)
      == (buffer[..to] + Output(e, encrypting, register, source) + buffer[to + count..],
          Final(e, encrypting, register, source))
  }

  /** It does so on every buffer of a given length exactly when it does not write ahead into its own range. */
  lemma SharedExactly(e: Keystream, encrypting: bool, register: Block, length: nat, from: nat, to: nat, count: nat)
    requires from + count <= length && to + count <= length
    ensures (forall buffer: seq<Byte> :: |buffer| == length ==>
               TransformsOriginal(e, encrypting, register, buffer, from, to, count))
      <==> to <= from || from + count <= to
  {
    if to <= from || from + count <= to {
      forall buffer: seq<Byte> | |buffer| == length
        ensures TransformsOriginal(e, encrypting, register, buffer, from, to, count)
      {
        RunIsOutput(e, encrypting, register, [], true, buffer, from, to, count);
      }
    } else {
      var first := Add(0, e(register));
      var buffer := seq(length, i requires 0 <= i < length => if i == to && first == 0 then 1 else 0);
      assert first != buffer[to];
      WritesAhead(e, encrypting, register, buffer, from, to, count);
    }
  }

  /** Writing ahead, the loop meets its own first byte where the caller had another. */
  lemma WritesAhead(e: Keystream, encrypting: bool, register: Block, buffer: seq<Byte>, from: nat, to: nat, count: nat)
    requires from < to < from + count <= |buffer| && to + count <= |buffer|
    requires Add(buffer[from], e(register)) != buffer[to]
    ensures !TransformsOriginal(e, encrypting, register, buffer, from, to, count)
  {
    var g := to - from;
    var source := buffer[from..from + count];
    var reached := Final(e, encrypting, register, buffer[from..to]);
    RunMeetsItself(e, encrypting, register, buffer, from, to, count);
    OutputFrom(e, encrypting, register, source, g);
    assert source[..g] == buffer[from..to];
    AddInjective(Add(buffer[from], e(register)), buffer[to], e(reached));
    assert Run(e, encrypting, register, [], true, buffer, from, to, count).0[to + g] !=
      (buffer[..to] + Output(e, encrypting, register, source) + buffer[to + count..])[to + g];
  }

  /** An output byte depends on the source byte and on the register reached before it. */
  lemma OutputFrom(e: Keystream, encrypting: bool, register: Block, source: seq<Byte>, g: nat)
    requires g < |source|
    ensures Output(e, encrypting, register, source)[g] ==
      Add(source[g], e(Final(e, encrypting, register, source[..g])))
  {
    Split(e, encrypting, register, source[..g], source[g..]);
    assert source == source[..g] + source[g..];
  }

  lemma RunMeetsItself(e: Keystream, encrypting: bool, register: Block, buffer: seq<Byte>,
                       from: nat, to: nat, count: nat)
    requires from < to < from + count <= |buffer| && to + count <= |buffer|
    ensures var after := Run(e, encrypting, register, [], true, buffer, from, to, count).0;
      |after| == |buffer| && after[to + (to - from)] ==
        Add(Add(buffer[from], e(register)), e(Final(e, encrypting, register, buffer[from..to])))
  {
    var g := to - from;
    RunSplit(e, encrypting, register, buffer, from, to, g, count - g);
    assert from + g == to;
    var (middle, reached) := Run(e, encrypting, register, [], true, buffer, from, to, g);
    RunArrives(e, encrypting, register, buffer, from, to);
    RunFirst(e, encrypting, reached, middle, to, to + g, count - g);
  }

  /** The first byte written stays. */
  lemma RunFirst(e: Keystream, encrypting: bool, register: Block, buffer: seq<Byte>, from: nat, to: nat, count: nat)
    requires 0 < count && from + count <= |buffer| && to + count <= |buffer|
    ensures var after := Run(e, encrypting, register, [], true, buffer, from, to, count).0;
      |after| == |buffer| && after[to] == Add(buffer[from], e(register))
  {
    var (b, next) := Segment(e, encrypting, register, buffer[from]);
    RunKeeps(e, encrypting, next, buffer[to := b], from + 1, to + 1, count - 1, to);
  }

  /** When the read position arrives at the place of the first write, it finds the first byte written. */
  lemma RunArrives(e: Keystream, encrypting: bool, register: Block, buffer: seq<Byte>, from: nat, to: nat)
    requires from < to && to + (to - from) < |buffer|
    ensures var (middle, reached) := Run(e, encrypting, register, [], true, buffer, from, to, to - from);
      && |middle| == |buffer| && middle[to] == Add(buffer[from], e(register))
      && reached == Final(e, encrypting, register, buffer[from..to])
  {
    RunIsOutput(e, encrypting, register, [], true, buffer, from, to, to - from);
    assert Output(e, encrypting, register, buffer[from..to])[0] == Add(buffer[from], e(register));
  }

  lemma AddInjective(a: Byte, b: Byte, k: Byte)
    requires a != b
    ensures Add(a, k) != Add(b, k)
  {
    AddCancel(a, k);
    AddCancel(b, k);
  }
}
