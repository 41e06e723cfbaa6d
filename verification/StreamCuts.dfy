/**
 When it matters how a stream is cut into messages: exactly when a length that points back past the start of
 its buffer is followed by further bytes, and by more than it points back.
 */
module StreamCuts {
  import opened Common
  import opened VarInt
  import opened Framing

  /** The outcome is the same for every way to cut the stream. */
  ghost predicate CutsDoNotMatter(stream: Bytes) {
    forall chunks: seq<Bytes> :: Concat(chunks) == stream ==> Same(Feed(chunks), Drain(stream))
  }

  lemma CutsMatterExactly(stream: Bytes)
    ensures CutsDoNotMatter(stream) <==> Steady(stream)
  {
    if Steady(stream) {
      SteadyCuts(stream);
    } else {
      var differs := Difference();
      var cut := BadCut(differs, stream);
      var a, b := stream[..cut], stream[cut..];
      assert a + b == stream && Cut(a, b);
      CutDiffers(a, b);
    }
  }

  predicate Cut(a: Bytes, b: Bytes) { true }

  /** Whether a cut matters, under another name; the meaning is at hand only where Cut is mentioned. */
  ghost predicate IsDifference(differs: (Bytes, Bytes) -> bool) {
    forall a: Bytes, b: Bytes {:trigger Cut(a, b)} :: differs(a, b) <==> !Same(FedTwo(a, b), Drain(a + b))
  }

  lemma Difference() returns (differs: (Bytes, Bytes) -> bool)
    ensures IsDifference(differs)
  {
    differs := (a: Bytes, b: Bytes) => !Same(FedTwo(a, b), Drain(a + b));
  }

  lemma SteadyCuts(stream: Bytes)
    requires Steady(stream)
    ensures CutsDoNotMatter(stream)
  {
    forall chunks: seq<Bytes> | Concat(chunks) == stream ensures Same(Feed(chunks), Drain(stream)) {
      ChunksDoNotMatter(chunks);
    }
  }

  lemma CutDiffers(a: Bytes, b: Bytes)
    requires !Same(FedTwo(a, b), Drain(a + b))
    ensures !CutsDoNotMatter(a + b)
  {
    FeedTwo(a);
    TwoChunks(a, b);
    assert Feed([a, b]) == FedTwo(a, b);
  }

  lemma TwoChunks(a: Bytes, b: Bytes)
    ensures Concat([a, b]) == a + b
  {
    assert [a, b][..1] == [a] && [a][..0] == [];
    assert Concat([a]) == Concat([]) + a == a;
  }

  /** A place behind the first backward length. */
  lemma {:induction false} BadCut(differs: (Bytes, Bytes) -> bool, stream: Bytes) returns (cut: nat)
    requires IsDifference(differs) && !Steady(stream)
    ensures 5 <= cut <= |stream| && differs(stream[..cut], stream[cut..])
    decreases |stream|
  {
    if End(stream) < 0 {
      cut := 5;
      BackwardCut(stream);
      assert Cut(stream[..5], stream[5..]) && stream[..5] + stream[5..] == stream;
    } else {
      var later := BadCut(differs, Next(stream));
      cut := End(stream) + later;
      CutLater(differs, stream, later);
    }
  }

  /** The frame before the bad place is the same either way. */
  lemma CutLater(differs: (Bytes, Bytes) -> bool, stream: Bytes, later: nat)
    requires IsDifference(differs)
    requires Takes(stream) && End(stream) >= 0 && Next(stream) != stream && 5 <= later <= |Next(stream)|
    requires differs(Next(stream)[..later], Next(stream)[later..])
    ensures End(stream) + later <= |stream|
    ensures differs(stream[..End(stream) + later], stream[End(stream) + later..])
  {
    var end := End(stream);
    var rest := stream[end..];
    assert Next(stream) == rest;
    var a, b := stream[..end + later], stream[end + later..];
    assert a + b == stream && a[end..] == rest[..later] && b == rest[later..];
    TakesEarly(a, b);
    DifferLater(differs, a, b);
  }

  lemma DifferLater(differs: (Bytes, Bytes) -> bool, a: Bytes, b: Bytes)
    requires IsDifference(differs) && Takes(a) && End(a) >= 0 && Next(a) != a && differs(Next(a), b)
    ensures differs(a, b)
  {
    assert Cut(a, b) && Cut(Next(a), b);
    TakesExtends(a, b);
    OneFrameBoth(a, b);
    SameThen(First(a), FedTwo(Next(a), b), Drain(Next(a) + b));
  }

  lemma TakesEarly(a: Bytes, b: Bytes)
    requires Takes(a + b) && 0 <= End(a + b) <= |a| && |a| >= 5
    ensures Takes(a) && End(a) == End(a + b) && Next(a) == a[End(a)..]
  {
    DecodePrefix(a, b);
    assert Decode(a) == Decode(a + b);
    var end := End(a);
    assert Bound(end, |a|) == end && Bound(|a|, |a|) == |a|;
    assert a[end..|a|] == a[end..];
  }

  /** A frame that arrives whole in the first of two messages is taken first. */
  lemma OneFrameBoth(a: Bytes, b: Bytes)
    requires Takes(a) && End(a) >= 0 && Next(a) != a
    ensures FedTwo(a, b) == Then([First(a)], FedTwo(Next(a), b))
    ensures Takes(a + b) && Drain(a + b) == Then([First(a)], Drain(Next(a + b)))
  {
    TakesExtends(a, b);
    var d := Drain(Next(a));
    assert Drain(a) == Then([First(a)], d);
    if d.status != Stalled {
      ThenThen([First(a)], d.frames, Drain(d.rest + b));
    }
  }

  lemma SameThen(x: Bytes, d: Drained, e: Drained)
    ensures Same(Then([x], d), Then([x], e)) ==> Same(d, e)
  {
    assert ([x] + d.frames)[1..] == d.frames;
    assert ([x] + e.frames)[1..] == e.frames;
  }

  /** A header that points back by k, with bytes behind it. */
  predicate Header(h: Bytes, t: Bytes, k: nat) {
    && |h| == 5 && Decode(h).Value? && Decode(h).bytesRead == 5 && End(h) + k == 0
    && Decode(h + t) == Decode(h)
    && 1 <= k < 5 + |t| && t != []
  }

  lemma BackwardCut(stream: Bytes)
    requires Takes(stream) && End(stream) < 0 && |stream| > -End(stream) && |stream| > 5
    ensures !Same(FedTwo(stream[..5], stream[5..]), Drain(stream))
  {
    var h, t, k := stream[..5], stream[5..], -End(stream);
    assert h + t == stream;
    NegativeTakesFive(stream);
    DecodePrefix(h, t);
    assert Header(h, t, k);
    if k >= 5 {
      FarCut(h, t, k);
    } else if |t| > k {
      LongCut(h, t, k);
    } else {
      NearCut(h, t, k);
    }
  }

  /** With bytes behind it the header gives a frame. */
  lemma HeaderDrains(h: Bytes, t: Bytes, k: nat)
    requires Header(h, t, k)
    ensures Takes(h + t) && Next(h + t) == (h + t)[5 + |t| - k..] && |Next(h + t)| == k
    ensures Drain(h + t) == Then([First(h + t)], Drain(Next(h + t)))
  {
  }

  lemma FarCut(h: Bytes, t: Bytes, k: nat)
    requires Header(h, t, k) && k >= 5
    ensures !Same(FedTwo(h, t), Drain(h + t))
  {
    HeaderDrains(h, t, k);
    assert Next(h) == h;
    assert FedTwo(h, t).frames == [];
  }

  lemma LongCut(h: Bytes, t: Bytes, k: nat)
    requires Header(h, t, k) && k < 5 && |t| > k
    ensures !Same(FedTwo(h, t), Drain(h + t))
  {
    HeaderDrains(h, t, k);
    FirstFrames(h, t, k);
    assert Drain(h + t).frames[0] == t[..|t| - k];
  }

  lemma NearCut(h: Bytes, t: Bytes, k: nat)
    requires Header(h, t, k) && k < 5 && |t| <= k
    ensures !Same(FedTwo(h, t), Drain(h + t))
  {
    HeaderDrains(h, t, k);
    NearHeader(h, t, k);
    RestShorter(Next(h + t));
  }

  /** Alone the header takes an empty frame, with enough behind it a longer one. */
  lemma FirstFrames(h: Bytes, t: Bytes, k: nat)
    requires |h| == 5 && Decode(h).Value? && Decode(h).bytesRead == 5 && Decode(h + t) == Decode(h)
    requires End(h) + k == 0 && 1 <= k < 5 && |t| > k
    ensures First(h + t) == t[..|t| - k]
    ensures FedTwo(h, t).frames != [] && FedTwo(h, t).frames[0] == []
  {
    var m := |t| - k;
    assert (h + t)[5..5 + m] == t[..m];
    assert First(h + t) == (h + t)[5..5 + m];
    assert First(h) == [] && Next(h) == h[5 - k..];
    assert Drain(h) == Then([[]], Drain(Next(h)));
  }

  lemma {:induction false} RestShorter(s: Bytes)
    ensures |Drain(s).rest| <= |s|
    decreases |s|
  {
    if Takes(s) && Next(s) != s {
      RestShorter(Next(s));
    }
  }

  /** A header that points back by less than five leaves a length that a few bytes do not reach. */
  lemma NearHeader(h: Bytes, t: Bytes, k: nat)
    requires |h| == 5 && Decode(h).Value? && Decode(h).bytesRead == 5 && End(h) + k == 0 && 1 <= k < 5 && 1 <= |t| <= k
    ensures FedTwo(h, t) == Drained([[]], h[5 - k..] + t, Waiting)
  {
    var u := h[5 - k..];
    assert First(h) == [] && Next(h) == u;
    LastByteLarge(h);
    LargeTail(u);
    DecodePrefix(u, t);
    assert Drain(u) == Drained([], u, Waiting);
    assert Drain(h) == Drained([[]], u, Waiting);
    assert Drain(u + t) == Drained([], u + t, Waiting);
  }

  /** The header of a small negative number ends in a byte of at least 15. */
  lemma LastByteLarge(h: Bytes)
    requires |h| == 5 && Decode(h).Value? && Decode(h).bytesRead == 5 && -9 <= Decode(h).value < 0
    ensures 15 <= h[4] < 128 && forall i :: 0 <= i < 4 ==> h[i] >= 128
  {
    var lower := ReadFull(h, 0, 0);
    PlacedOne(1, 4);
    FifthGroup(Low7(h[4]));
    HighDigits(lower, Low7(h[4]));
  }

  lemma HighDigits(lower: nat, g: nat)
    requires lower < 0x1000_0000 && -9 <= ToInt32(lower + 0x1000_0000 * g) < 0
    ensures g >= 15
  {
  }

  lemma {:induction false} ReadFull(s: Bytes, index: nat, bits: nat) returns (lower: nat)
    requires index <= 4 && |s| == 5 - index && bits < Placed(1, index)
    requires Read(s, index, bits).Groups? && Read(s, index, bits).count == 5
    ensures s[4 - index] < 128 && forall i :: 0 <= i < 4 - index ==> s[i] >= 128
    ensures lower < Placed(1, 4) && Read(s, index, bits).bits == lower + Placed(Low7(s[4 - index]), 4)
    decreases |s|
  {
    PlacedOne(Low7(s[0]), index);
    if index == 4 {
      lower := bits;
    } else {
      lower := ReadFull(s[1..], index + 1, bits + Placed(Low7(s[0]), index));
    }
  }

  lemma LargeTail(u: Bytes)
    requires 1 <= |u| <= 4 && 15 <= u[|u| - 1] < 128 && forall i :: 0 <= i < |u| - 1 ==> u[i] >= 128
    ensures Decode(u).Value? && Decode(u).bytesRead == |u| && Decode(u).value >= 15
  {
    ReadTail(u, 0, 0);
    SmallRead(u, 0, 0);
  }

  lemma {:induction false} ReadTail(u: Bytes, index: nat, bits: nat)
    requires 1 <= |u| && index + |u| <= 4 && 15 <= u[|u| - 1] < 128
    requires forall i :: 0 <= i < |u| - 1 ==> u[i] >= 128
    ensures Read(u, index, bits).Groups? && Read(u, index, bits).count == index + |u|
    ensures Read(u, index, bits).bits >= 15
    decreases |u|
  {
    if |u| == 1 {
      PlacedGrows(u[0], index);
    } else {
      assert u[1..][|u[1..]| - 1] == u[|u| - 1];
      ReadTail(u[1..], index + 1, bits + Placed(Low7(u[0]), index));
    }
  }

  lemma {:induction false} PlacedGrows(g: nat, index: nat)
    ensures Placed(g, index) >= g
    decreases index
  {
    if index > 0 {
      PlacedGrows(g, index - 1);
    }
  }
}
