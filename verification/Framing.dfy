/**
 Length-prefixed frames over a byte stream that arrives in messages: the receiving side of the smoke
 client, and the packets it encodes and decodes.
 */
module Framing {
  import opened Common
  import opened VarInt

  type Bytes = seq<Byte>

  /**
   Why draining stopped: for more bytes, on a bad length, or never, because a length gave the buffer back
   unchanged.
   */
  datatype Status = Waiting | Rejected | Stalled

  datatype Drained = Drained(frames: seq<Bytes>, rest: Bytes, status: Status)

  /** JavaScript's `slice`, which counts a negative bound from the end. */
  function Slice(s: Bytes, start: int, end: int): Bytes {
    var from, to := Bound(start, |s|), Bound(end, |s|);
    if from < to then s[from..to] else []
  }

  function Bound(i: int, length: nat): (b: nat)
    ensures b <= length
  {
    if i < 0 then (if length + i < 0 then 0 else length + i) else if i > length then length else i
  }

  /** The loop takes a frame: its length has arrived and does not reach past the buffer. */
  predicate Takes(buffer: Bytes) {
    Decode(buffer).Value? && End(buffer) <= |buffer|
  }

  /** Where the frame ends; a negative length may put that before its start. */
  function End(buffer: Bytes): int
    requires Decode(buffer).Value?
  {
    Decode(buffer).bytesRead + Decode(buffer).value
  }

  function First(buffer: Bytes): Bytes
    requires Takes(buffer)
  {
    Slice(buffer, Decode(buffer).bytesRead, End(buffer))
  }

  function Next(buffer: Bytes): (next: Bytes)
    requires Takes(buffer)
    ensures next == buffer || |next| < |buffer|
  {
    Slice(buffer, End(buffer), |buffer|)
  }

  /** The frames at the front of the buffer and what is left of it. */
  function Drain(buffer: Bytes): (d: Drained)
    decreases |buffer|
  {
    if !Takes(buffer) then Drained([], buffer, if Decode(buffer).TooLong? then Rejected else Waiting)
    else if Next(buffer) == buffer then Drained([], buffer, Stalled)
    else Then([First(buffer)], Drain(Next(buffer)))
  }

  /** More frames after these. */
  function Then(frames: seq<Bytes>, d: Drained): Drained {
    Drained(frames + d.frames, d.rest, d.status)
  }

  /** A frame of non-negative length is a plain piece of the buffer. */
  lemma WholePieces(buffer: Bytes)
    requires Decode(buffer).Value? && 0 <= Decode(buffer).value && End(buffer) <= |buffer|
    ensures First(buffer) == buffer[Decode(buffer).bytesRead..End(buffer)] && Next(buffer) == buffer[End(buffer)..]
    ensures Next(buffer) != buffer
  {
  }

  lemma DrainWhole(buffer: Bytes)
    requires Decode(buffer).Value? && 0 <= Decode(buffer).value && End(buffer) <= |buffer|
    ensures First(buffer) == buffer[Decode(buffer).bytesRead..End(buffer)] && Next(buffer) == buffer[End(buffer)..]
    ensures Drain(buffer) == Then([First(buffer)], Drain(Next(buffer)))
    ensures Forward(buffer) <==> Forward(Next(buffer))
    ensures Steady(buffer) <==> Steady(Next(buffer))
  {
    WholePieces(buffer);
  }

  // ---------------------------------------------- chunks do not matter

  lemma ThenThen(x: seq<Bytes>, y: seq<Bytes>, d: Drained)
    ensures Then(x, Then(y, d)) == Then(x + y, d)
  {
    assert x + (y + d.frames) == x + y + d.frames;
  }

  /** No length on the way points back past the start of its buffer. */
  predicate Forward(buffer: Bytes)
    decreases |buffer|
  {
    Takes(buffer) ==> End(buffer) >= 0 && (Next(buffer) != buffer ==> Forward(Next(buffer)))
  }

  /** A frame that does not end before the buffer is the same with more bytes behind. */
  lemma TakesExtends(a: Bytes, b: Bytes)
    requires Takes(a) && End(a) >= 0
    ensures Takes(a + b) && End(a + b) == End(a)
    ensures First(a + b) == First(a) && Next(a + b) == Next(a) + b
    ensures Next(a + b) == a + b <==> Next(a) == a
  {
    DecodePrefix(a, b);
    var start, end := Decode(a).bytesRead, End(a);
    assert start <= end ==> (a + b)[start..end] == a[start..end];
    assert (a + b)[end..] == a[end..] + b;
  }

  /** Draining early and going on with what is left is draining late. */
  lemma {:induction false} DrainSplit(a: Bytes, b: Bytes)
    requires Forward(a)
    ensures Drain(a).status == Waiting ==> Drain(a + b) == Then(Drain(a).frames, Drain(Drain(a).rest + b))
    ensures Drain(a).status != Waiting ==> Drain(a + b) == Drained(Drain(a).frames, Drain(a).rest + b, Drain(a).status)
    decreases |a|
  {
    if Takes(a) {
      TakesExtends(a, b);
      if Next(a) != a {
        DrainSplit(Next(a), b);
        var d := Drain(Next(a));
        ThenThen([First(a)], d.frames, Drain(d.rest + b));
      }
    } else if Drain(a).status == Waiting {
      assert Then([], Drain(a + b)) == Drain(a + b);
    } else {
      DecodePrefix(a, b);
    }
  }

  // ------------------------------------------------ frames come out

  /** A frame on the wire. */
  function Frame(body: Bytes): Bytes
    requires |body| < 0x8000_0000
  {
    Encode(|body|) + body
  }

  function Wire(bodies: seq<Bytes>): Bytes
    requires forall b :: b in bodies ==> |b| < 0x8000_0000
  {
    if bodies == [] then [] else Frame(bodies[0]) + Wire(bodies[1..])
  }

  lemma FrameDecodes(body: Bytes, rest: Bytes)
    requires |body| < 0x8000_0000
    ensures Decode(Frame(body) + rest) == Value(|body|, |Encode(|body|)|)
  {
    RoundTrip(|body|, body + rest);
    assert ToUint32(|body|) == |body|;
    assert Frame(body) + rest == Encode(|body|) + (body + rest);
  }

  lemma DrainFrame(body: Bytes, rest: Bytes)
    requires |body| < 0x8000_0000
    ensures Drain(Frame(body) + rest) == Drained([body] + Drain(rest).frames, Drain(rest).rest, Drain(rest).status)
    ensures Forward(Frame(body) + rest) <==> Forward(rest)
    ensures Steady(Frame(body) + rest) <==> Steady(rest)
  {
    FrameDecodes(body, rest);
    var s := Frame(body) + rest;
    var start, end := |Encode(|body|)|, |Encode(|body|)| + |body|;
    DrainWhole(s);
    assert s[start..end] == body && s[end..] == rest;
  }

  /** The lengths of a wire are not negative. */
  lemma {:induction false} WireForward(bodies: seq<Bytes>)
    requires forall b :: b in bodies ==> |b| < 0x8000_0000
    ensures Forward(Wire(bodies)) && Steady(Wire(bodies))
    decreases |bodies|
  {
    if bodies != [] {
      WireForward(bodies[1..]);
      DrainFrame(bodies[0], Wire(bodies[1..]));
    }
  }

  /** A cut inside a frame yields nothing yet. */
  lemma DrainCutFrame(body: Bytes, n: nat)
    requires |body| < 0x8000_0000 && n < |Frame(body)|
    ensures Drain(Frame(body)[..n]) == Drained([], Frame(body)[..n], Waiting)
  {
    var s := Frame(body);
    FrameDecodes(body, []);
    assert s + [] == s;
    var start := |Encode(|body|)|;
    if n < start {
      DecodeTruncated(s, n);
    } else {
      assert s[..n] == Encode(|body|) + body[..n - start];
      RoundTrip(|body|, body[..n - start]);
      assert ToUint32(|body|) == |body|;
    }
  }

  /** Of a cut stream, the whole frames before the cut come out in order, and a proper prefix of the next is kept. */
  lemma {:induction false} DrainCutWire(bodies: seq<Bytes>, n: nat)
    requires (forall b :: b in bodies ==> |b| < 0x8000_0000) && n <= |Wire(bodies)|
    ensures var d := Drain(Wire(bodies)[..n]);
      && d.status == Waiting && |d.frames| <= |bodies| && d.frames == bodies[..|d.frames|]
      && (if n == |Wire(bodies)| then |d.frames| == |bodies| && d.rest == []
          else |d.frames| < |bodies| && d.rest < Frame(bodies[|d.frames|]))
  {
    if bodies != [] {
      var body, others := bodies[0], bodies[1..];
      var s := Wire(bodies);
      if n < |Frame(body)| {
        assert s[..n] == Frame(body)[..n];
        DrainCutFrame(body, n);
      } else {
        var m := n - |Frame(body)|;
        assert s[..n] == Frame(body) + Wire(others)[..m];
        DrainFrame(body, Wire(others)[..m]);
        DrainCutWire(others, m);
        OneFrameMore(bodies, Drain(Wire(others)[..m]).frames);
      }
    }
  }

  lemma OneFrameMore(bodies: seq<Bytes>, frames: seq<Bytes>)
    requires bodies != [] && |frames| < |bodies| && frames == bodies[1..][..|frames|]
    ensures [bodies[0]] + frames == bodies[..|frames| + 1]
  {
  }

  /** The receiver after a list of messages; while its loop does not end no message is delivered. */
  function Feed(chunks: seq<Bytes>): Drained {
    if chunks == [] then Drained([], [], Waiting)
    else
      var d := Feed(chunks[..|chunks| - 1]);
      if d.status == Stalled then d else Then(d.frames, Drain(d.rest + chunks[|chunks| - 1]))
  }

  /** The same outcome, but for the bytes that a loop without end leaves undelivered. */
  predicate Same(fed: Drained, whole: Drained) {
    && fed.frames == whole.frames && fed.status == whole.status
    && if fed.status == Stalled then fed.rest <= whole.rest else fed.rest == whole.rest
  }

  /** What is left is drained already. */
  lemma {:induction false} RestIsDrained(s: Bytes)
    ensures Drain(Drain(s).rest) == Drained([], Drain(s).rest, Drain(s).status)
    ensures Forward(s) ==> Forward(Drain(s).rest)
    decreases |s|
  {
    if Takes(s) && Next(s) != s {
      RestIsDrained(Next(s));
    }
  }

  /**
   No cut can matter: the first length that points back past the start of its buffer, if there is one, points
   past all the bytes there are, or nothing follows it.
   */
  predicate Steady(stream: Bytes)
    decreases |stream|
  {
    Takes(stream) ==>
      if End(stream) < 0 then |stream| <= -End(stream) || |stream| <= 5
      else Next(stream) != stream ==> Steady(Next(stream))
  }

  /** Draining a and then going on with b is draining both, and a is drained to its end. */
  predicate Splits(a: Bytes, b: Bytes) {
    var d, whole := Drain(a), Drain(a + b);
    if d.status == Waiting then whole == Then(d.frames, Drain(d.rest + b))
    else whole == Drained(d.frames, d.rest + b, d.status)
  }

  lemma {:induction false} SteadySplits(a: Bytes, b: Bytes)
    requires Steady(a + b)
    ensures Steady(a) && Splits(a, b)
    decreases |a|
  {
    if !Takes(a) {
      DrainSplit(a, b);
    } else if End(a) >= 0 {
      TakesExtends(a, b);
      if Next(a) != a {
        SteadySplits(Next(a), b);
        var d := Drain(Next(a));
        ThenThen([First(a)], d.frames, Drain(d.rest + b));
      }
    } else {
      BackwardSplits(a, b);
    }
  }

  lemma BackwardSplits(a: Bytes, b: Bytes)
    requires Takes(a) && End(a) < 0 && Steady(a + b)
    ensures Steady(a) && Splits(a, b)
  {
    DecodePrefix(a, b);
    NegativeTakesFive(a);
    if |a + b| > -End(a) {
      assert b == [] && a + b == a && Drain(a).rest + b == Drain(a).rest;
      RestIsDrained(a);
      assert Drain(a).frames + [] == Drain(a).frames;
    }
  }

  /** Frames and rest are those of the whole stream, however it is cut into messages. */
  lemma {:induction false} ChunksDoNotMatter(chunks: seq<Bytes>)
    requires Steady(Concat(chunks))
    ensures Same(Feed(chunks), Drain(Concat(chunks)))
  {
    if chunks != [] {
      var front, last := chunks[..|chunks| - 1], chunks[|chunks| - 1];
      var d := Drain(Concat(front));
      SteadySplits(Concat(front), last);
      ChunksDoNotMatter(front);
      if d.status == Rejected {
        RestIsDrained(Concat(front));
        DecodePrefix(d.rest, last);
        assert d.frames + [] == d.frames;
      }
    }
  }

  // ----------------------------------------------- negative lengths

  /**
   Cutting after a five-byte length never matters exactly when the length does not point back past its own
   first byte.
   */
  lemma CutExactly(h: Bytes)
    requires |h| == 5 && Decode(h).Value? && Decode(h).bytesRead == 5
    ensures (forall t: Bytes :: Same(Feed([h, t]), Drain(h + t))) <==> End(h) >= 0
  {
    FeedTwo(h);
    if End(h) >= 0 {
      forall t: Bytes ensures Same(Feed([h, t]), Drain(h + t)) {
        ShortForward(h);
        CutForward(h, t);
      }
    } else {
      var t: Bytes := seq(-End(h) + 1, _ => 0);
      CutBackward(h, t);
      assert !Same(Feed([h, t]), Drain(h + t));
    }
  }

  function FedTwo(h: Bytes, t: Bytes): Drained {
    if Drain(h).status == Stalled then Drain(h) else Then(Drain(h).frames, Drain(Drain(h).rest + t))
  }

  lemma FeedTwo(h: Bytes)
    ensures Feed([h]) == Drain(h)
    ensures forall t: Bytes :: Feed([h, t]) == FedTwo(h, t)
  {
    assert Feed([]) == Drained([], [], Waiting);
    assert [h][..0] == [] && [] + h == h;
    assert Then([], Drain(h)) == Drain(h);
    forall t: Bytes ensures Feed([h, t]) == FedTwo(h, t) {
      assert [h, t][..1] == [h];
    }
  }

  lemma CutForward(h: Bytes, t: Bytes)
    requires Forward(h) && Feed([h, t]) == FedTwo(h, t)
    ensures Same(Feed([h, t]), Drain(h + t))
  {
    DrainSplit(h, t);
    if Drain(h).status == Rejected {
      RestIsDrained(h);
      DrainSplit(Drain(h).rest, t);
      assert Drain(h).frames + [] == Drain(h).frames;
    }
  }

  /** Fewer than five bytes hold no negative length. */
  lemma {:induction false} FewForward(s: Bytes)
    requires |s| < 5
    ensures Forward(s)
    decreases |s|
  {
    if Takes(s) {
      if Decode(s).value < 0 { NegativeTakesFive(s); }
      if Next(s) != s { FewForward(Next(s)); }
    }
  }

  lemma ShortForward(h: Bytes)
    requires |h| == 5 && Decode(h).Value? && End(h) >= 0
    ensures Forward(h)
  {
    if Takes(h) && Next(h) != h {
      FewForward(Next(h));
    }
  }

  /** A header that points back, alone and with bytes behind it. */
  lemma CutBackward(h: Bytes, t: Bytes)
    requires |h| == 5 && Decode(h).Value? && Decode(h).bytesRead == 5 && End(h) < 0 && |t| == -End(h) + 1
    ensures Drain(h).frames == [] ==> Drain(h).status == Stalled
    ensures Drain(h).frames != [] ==> Drain(h).frames[0] == []
    ensures Drain(h + t).frames != [] && Drain(h + t).frames[0] == t[..1]
  {
    DecodePrefix(h, t);
    var s, k := h + t, -End(h);
    assert End(s) == -k && |s| == 6 + k;
    assert Next(s) == s[6..] && First(s) == s[5..6] == t[..1];
  }

  /** Only a five-byte length can be negative. */
  lemma NegativeTakesFive(buffer: Bytes)
    requires Decode(buffer).Value? && Decode(buffer).value < 0
    ensures Decode(buffer).bytesRead == 5
  {
    if Decode(buffer).bytesRead < 5 {
      SmallRead(buffer, 0, 0);
    }
  }

  lemma {:induction false} SmallRead(s: Bytes, index: nat, bits: nat)
    requires index <= 5 && bits < Placed(1, index)
    requires Read(s, index, bits).Groups? && Read(s, index, bits).count < 5
    ensures Read(s, index, bits).bits < 0x8000_0000
    decreases |s|
  {
    PlacedOne(Low7(s[0]), index);
    if s[0] >= 128 {
      SmallRead(s[1..], index + 1, bits + Placed(Low7(s[0]), index));
    } else {
      PlacedOne(1, 4);
      GroupsGrow(index + 1, 4);
    }
  }

  lemma {:induction false} PlacedOne(g: nat, index: nat)
    requires g < 128
    ensures Placed(g, index) + Placed(1, index) <= Placed(1, index + 1)
    ensures index == 4 ==> Placed(1, index) == 0x1000_0000
  {
    if index > 0 {
      PlacedOne(g, index - 1);
    }
    FifthGroup(1);
  }

  lemma {:induction false} GroupsGrow(a: nat, b: nat)
    requires a <= b
    ensures Placed(1, a) <= Placed(1, b)
    decreases b
  {
    if a < b {
      GroupsGrow(a, b - 1);
    }
  }

  /**
   The source's loop does not make progress on a negative length exactly when the length points at byte 0 or
   further back.
   */
  lemma StallsExactly(buffer: Bytes)
    requires Decode(buffer).Value? && Decode(buffer).value < 0
    ensures Slice(buffer, End(buffer), |buffer|) == buffer <==>
      Decode(buffer).value == -5 || Decode(buffer).value <= -5 - |buffer|
  {
    NegativeTakesFive(buffer);
  }

  /**
   A negative length with a frame end at or after byte 0 gives an empty frame and goes back to that end; a frame
   end before byte 0 counts from the end of the buffer, as slice does.
   */
  lemma NegativeFrames(buffer: Bytes)
    requires Takes(buffer) && Decode(buffer).value < 0
    ensures var end, back := End(buffer), |buffer| + End(buffer);
      if end >= 0 then First(buffer) == [] && Next(buffer) == buffer[end..]
      else
        && First(buffer) == (if back > 5 then buffer[5..back] else [])
        && Next(buffer) == (if back > 0 then buffer[back..] else buffer)
  {
    NegativeTakesFive(buffer);
  }

  // ------------------------------------------------------- packets

  /** A message of the protocol. */
  datatype Message = Message(id: Int32, payload: Bytes)

  /** The body that encodePacket frames: it refuses packets that would have to be compressed. */
  function Body(m: Message, threshold: Option<Int32>): Option<Bytes> {
    var packet := Encode(ToUint32(m.id)) + m.payload;
    if threshold == None then Some(packet)
    else if |packet| >= threshold.value then None
    else Some(Encode(ToUint32(0)) + packet)
  }

  datatype Parsed = Failed | Got(message: Message)

  function ParsePacket(packet: Bytes): Parsed {
    match Decode(packet)
    case Value(id, n) => Got(Message(id, packet[n..]))
    case _ => Failed
  }

  /** The start of processFrame, with the inflater as a parameter. */
  function ParseFrame(frame: Bytes, threshold: Option<Int32>, inflate: Bytes -> Option<Bytes>): Parsed {
    if threshold == None then ParsePacket(frame)
    else
      match Decode(frame)
      case Value(length, n) =>
        if length == 0 then ParsePacket(frame[n..])
        else (match inflate(frame[n..])
              case Some(packet) => if |packet| == length then ParsePacket(packet) else Failed
              case None => Failed)
      case _ => Failed
  }

  lemma PacketRoundTrip(m: Message)
    ensures ParsePacket(Encode(ToUint32(m.id)) + m.payload) == Got(m)
  {
    RoundTrip(m.id, m.payload);
    assert (Encode(ToUint32(m.id)) + m.payload)[|Encode(ToUint32(m.id))|..] == m.payload;
  }

  /** Before and after compression is on, a packet that can be encoded parses back. */
  lemma BodyRoundTrip(m: Message, threshold: Option<Int32>, inflate: Bytes -> Option<Bytes>)
    requires Body(m, threshold).Some?
    ensures ParseFrame(Body(m, threshold).value, threshold, inflate) == Got(m)
  {
    PacketRoundTrip(m);
    if threshold != None {
      var zero, packet := Encode(ToUint32(0)), Encode(ToUint32(m.id)) + m.payload;
      RoundTrip(0, packet);
      assert (zero + packet)[|zero|..] == packet;
    }
  }

  /** What parsing depends on. */
  datatype Client = Client(login: bool, threshold: Option<Int32>)

  const LOGIN_REJECTED: Int32 := 0
  const LOGIN_FINISHED: Int32 := 2
  const SET_COMPRESSION: Int32 := 3

  /** The client after a message, or None where processFrame throws. */
  function After(c: Client, m: Message, profile: Bytes): Option<Client> {
    if c.login && m.id == LOGIN_REJECTED then None
    else if c.login && m.id == SET_COMPRESSION then
      match Decode(m.payload)
      case Value(t, _) => if t < 0 then None else Some(c.(threshold := Some(t)))
      case _ => None
    else if c.login && m.id == LOGIN_FINISHED then
      if |m.payload| < 16 || m.payload[..16] != profile then None else Some(c.(login := false))
    else Some(c)
  }

  /** The frames processed one after the other, up to the first that fails. */
  function Process(c: Client, frames: seq<Bytes>, profile: Bytes, inflate: Bytes -> Option<Bytes>): seq<Parsed>
    decreases |frames|
  {
    if frames == [] then []
    else match ParseFrame(frames[0], c.threshold, inflate)
      case Failed => [Failed]
      case Got(m) =>
        match After(c, m, profile)
        case None => [Failed]
        case Some(next) => [Got(m)] + Process(next, frames[1..], profile, inflate)
  }

  /** A sender that follows the client's state can encode every message, and the client accepts each. */
  predicate Sendable(c: Client, messages: seq<Message>, profile: Bytes)
    decreases |messages|
  {
    messages == [] ||
    (Body(messages[0], c.threshold).Some? && |Body(messages[0], c.threshold).value| < 0x8000_0000
     && After(c, messages[0], profile).Some? && Sendable(After(c, messages[0], profile).value, messages[1..], profile))
  }

  function Bodies(c: Client, messages: seq<Message>, profile: Bytes): (r: seq<Bytes>)
    requires Sendable(c, messages, profile)
    ensures |r| == |messages| && forall b :: b in r ==> |b| < 0x8000_0000
    decreases |messages|
  {
    if messages == [] then []
    else [Body(messages[0], c.threshold).value] + Bodies(After(c, messages[0], profile).value, messages[1..], profile)
  }

  lemma {:induction false} ProcessBodies(c: Client, messages: seq<Message>, profile: Bytes,
                                         inflate: Bytes -> Option<Bytes>)
    requires Sendable(c, messages, profile)
    ensures Process(c, Bodies(c, messages, profile), profile, inflate) ==
      seq(|messages|, i requires 0 <= i < |messages| => Got(messages[i]))
    decreases |messages|
  {
    if messages != [] {
      BodyRoundTrip(messages[0], c.threshold, inflate);
      var next := After(c, messages[0], profile).value;
      ProcessBodies(next, messages[1..], profile, inflate);
      assert Bodies(c, messages, profile)[1..] == Bodies(next, messages[1..], profile);
    }
  }

  /** From messages to messages: encoded, framed, cut into any chunks, put together and parsed. */
  lemma {:induction false} EndToEnd(c: Client, messages: seq<Message>, profile: Bytes, inflate: Bytes -> Option<Bytes>,
                                    chunks: seq<Bytes>)
    requires Sendable(c, messages, profile) && Concat(chunks) == Wire(Bodies(c, messages, profile))
    ensures Feed(chunks) == Drained(Bodies(c, messages, profile), [], Waiting)
    ensures Process(c, Feed(chunks).frames, profile, inflate) ==
      seq(|messages|, i requires 0 <= i < |messages| => Got(messages[i]))
  {
    var bodies := Bodies(c, messages, profile);
    var wire := Wire(bodies);
    WireForward(bodies);
    ChunksDoNotMatter(chunks);
    DrainCutWire(bodies, |wire|);
    assert wire[..|wire|] == wire;
    ProcessBodies(c, messages, profile, inflate);
  }

  // ------------------------------------------------- the receiver

  class FrameReader {
    var buffered: Bytes
    var frames: seq<Bytes>
    var status: Status

    constructor ()
      ensures Drained(frames, buffered, status) == Feed([])
    {
      buffered, frames, status := [], [], Waiting;
    }

    ghost function State(): Drained
      reads this
    {
      Drained(frames, buffered, status)
    }

    /** onmessage for binary data; it is not called again once the loop does not end. */
    method OnMessage(bytes: Bytes)
      requires status != Stalled
      modifies this
      ensures State() == Then(old(frames), Drain(old(buffered) + bytes))
    {
      buffered := buffered + bytes;
      DrainFrames();
    }

    /** The loop is left where the source's would go round for ever. */
    method DrainFrames()
      modifies this
      ensures State() == Then(old(frames), Drain(old(buffered)))
    {
      while true
        invariant Then(frames, Drain(buffered)) == Then(old(frames), Drain(old(buffered)))
        decreases |buffered|
      {
        var outerLength := DecodeVarInt(buffered, 0);
        assert buffered[0..] == buffered;
        match outerLength
        case Incomplete =>
          status := Waiting;
          return;
        case TooLong =>
          status := Rejected;
          return;
        case Value(length, frameStart) =>
          var frameEnd := frameStart + length;
          if frameEnd > |buffered| {
            status := Waiting;
            return;
          }
          var frame, next := Slice(buffered, frameStart, frameEnd), Slice(buffered, frameEnd, |buffered|);
          if next == buffered {
            status := Stalled;
            return;
          }
          ThenThen(frames, [frame], Drain(next));
          frames := frames + [frame];
          buffered := next;
      }
    }

    /** Any sequence of messages. */
    method OnMessages(chunks: seq<Bytes>)
      requires State() == Feed([])
      modifies this
      ensures State() == Feed(chunks)
      ensures Steady(Concat(chunks)) ==> Same(State(), Drain(Concat(chunks)))
    {
      for i := 0 to |chunks|
        invariant State() == Feed(chunks[..i])
      {
        assert chunks[..i + 1][..i] == chunks[..i];
        if status != Stalled {
          OnMessage(chunks[i]);
        }
      }
      assert chunks[..|chunks|] == chunks;
      if Steady(Concat(chunks)) {
        ChunksDoNotMatter(chunks);
      }
    }
  }
}
