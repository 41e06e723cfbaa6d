/**
 What the smoke client makes of single packets: the compressed form, the login messages that change its state,
 and which form a whole list of messages is sent in.
 */
module Packets {
  import opened Common
  import opened VarInt
  import opened Framing

  // ------------------------------------------------------ compressed packets

  /** Behind a data length other than zero stands a compressed packet of exactly that length. */
  lemma InflatesExactly(frame: Bytes, threshold: Int32, inflate: Bytes -> Option<Bytes>, m: Message)
    requires Decode(frame).Value? && Decode(frame).value != 0
    ensures ParseFrame(frame, Some(threshold), inflate) == Got(m) <==>
      var packet := inflate(frame[Decode(frame).bytesRead..]);
      && packet.Some? && |packet.value| == Decode(frame).value
      && Decode(packet.value).Value? && Decode(packet.value).value == m.id
      && packet.value[Decode(packet.value).bytesRead..] == m.payload
  {
  }

  /** What a sender puts on the wire that compresses a packet. */
  function Compressed(m: Message, deflate: Bytes -> Bytes): Bytes {
    var packet := Encode(ToUint32(m.id)) + m.payload;
    Encode(|packet|) + deflate(packet)
  }

  /** Whatever the compressor, if the inflater undoes it on this packet, the packet comes back. */
  lemma CompressedRoundTrip(m: Message, threshold: Int32, deflate: Bytes -> Bytes, inflate: Bytes -> Option<Bytes>)
    requires var packet := Encode(ToUint32(m.id)) + m.payload;
      |packet| < 0x8000_0000 && inflate(deflate(packet)) == Some(packet)
    ensures ParseFrame(Compressed(m, deflate), Some(threshold), inflate) == Got(m)
  {
    var packet := Encode(ToUint32(m.id)) + m.payload;
    var length := Encode(|packet|);
    assert ToUint32(|packet|) == |packet|;
    RoundTrip(|packet|, deflate(packet));
    assert (length + deflate(packet))[|length|..] == deflate(packet);
    PacketRoundTrip(m);
  }

  // ------------------------------------------------------ login messages

  /** The message sets the compression threshold to t. */
  ghost predicate Sets(m: Message, t: Int32) {
    m.id == 3 && Decode(m.payload).Value? && Decode(m.payload).value == t
  }

  /** What a message that does not end the login changes. */
  ghost predicate Advances(c: Client, m: Message, next: Client) {
    && next.login == (c.login && m.id != 2)
    && (c.login && m.id == 3 ==> next.threshold.Some? && Sets(m, next.threshold.value))
    && (!c.login || m.id != 3 ==> next.threshold == c.threshold)
  }

  /** Only during login does a message matter: 0 and bad ones of 2 and 3 end it, 3 sets the threshold, 2 finishes. */
  lemma AfterExactly(c: Client, m: Message, profile: Bytes)
    ensures After(c, m, profile) == None <==>
      && c.login
      && (m.id == 0
          || (m.id == 2 && (|m.payload| < 16 || m.payload[..16] != profile))
          || (m.id == 3 && forall t: Int32 :: Sets(m, t) ==> t < 0))
    ensures After(c, m, profile).Some? ==> Advances(c, m, After(c, m, profile).value)
  {
    assert m.id == 3 && Decode(m.payload).Value? ==> Sets(m, Decode(m.payload).value);
  }

  /** A threshold message as a server encodes it is accepted, whatever stands behind the number. */
  lemma ThresholdAccepted(c: Client, t: Int32, rest: Bytes, profile: Bytes)
    requires c.login && t >= 0
    ensures After(c, Message(3, Encode(ToUint32(t)) + rest), profile) == Some(c.(threshold := Some(t)))
  {
    RoundTrip(t, rest);
  }

  // ----------------------------------------------- the form of every message

  /** Message j is the last one before i that sets the threshold, during login. */
  ghost predicate LastSets(c: Client, messages: seq<Message>, j: nat, i: nat)
    requires i <= |messages|
  {
    && j < i && SetsAt(c, messages, j)
    && forall k :: j < k < i ==> !SetsAt(c, messages, k)
  }

  ghost predicate SetsAt(c: Client, messages: seq<Message>, k: nat)
    requires k < |messages|
  {
    InLogin(c, messages, k) && messages[k].id == 3
  }

  /** No message before i has finished the login. */
  predicate InLogin(c: Client, messages: seq<Message>, i: nat)
    requires i <= |messages|
    decreases i
  {
    if i == 0 then c.login else InLogin(c, messages, i - 1) && messages[i - 1].id != 2
  }

  function ClientAt(c: Client, messages: seq<Message>, profile: Bytes, i: nat): Client
    requires Sendable(c, messages, profile) && i <= |messages|
    decreases i
  {
    if i == 0 then c else ClientAt(After(c, messages[0], profile).value, messages[1..], profile, i - 1)
  }

  lemma {:induction false} BodyAt(c: Client, messages: seq<Message>, profile: Bytes, i: nat)
    requires Sendable(c, messages, profile) && i < |messages|
    ensures Body(messages[i], ClientAt(c, messages, profile, i).threshold) == Some(Bodies(c, messages, profile)[i])
    decreases i
  {
    if i > 0 {
      BodyAt(After(c, messages[0], profile).value, messages[1..], profile, i - 1);
    }
  }

  /** From the back: the client before one more message, and that message. */
  lemma {:induction false} ClientNext(c: Client, messages: seq<Message>, profile: Bytes, i: nat)
    requires Sendable(c, messages, profile) && i < |messages|
    ensures After(ClientAt(c, messages, profile, i), messages[i], profile) ==
      Some(ClientAt(c, messages, profile, i + 1))
    decreases i
  {
    if i > 0 {
      ClientNext(After(c, messages[0], profile).value, messages[1..], profile, i - 1);
    }
  }

  /** What a client knows before message i comes from the last message that set the threshold. */
  ghost predicate Knows(c: Client, messages: seq<Message>, i: nat, now: Client)
    requires i <= |messages|
  {
    && (now.login <==> InLogin(c, messages, i))
    && (forall j: nat :: LastSets(c, messages, j, i) ==> now.threshold.Some? && Sets(messages[j], now.threshold.value))
    && ((forall k :: 0 <= k < i ==> !SetsAt(c, messages, k)) ==> now.threshold == c.threshold)
  }

  lemma SetsNow(c: Client, messages: seq<Message>, i: nat, now: Client)
    requires i < |messages| && (now.login <==> InLogin(c, messages, i))
    ensures SetsAt(c, messages, i) <==> now.login && messages[i].id == 3
  {
  }

  lemma LastSetsNext(c: Client, messages: seq<Message>, j: nat, i: nat)
    requires i < |messages| && LastSets(c, messages, j, i + 1)
    ensures if j == i then SetsAt(c, messages, i) else LastSets(c, messages, j, i) && !SetsAt(c, messages, i)
  {
  }

  lemma ThresholdNext(c: Client, messages: seq<Message>, i: nat, now: Client, next: Client, j: nat)
    requires i < |messages| && Knows(c, messages, i, now) && Advances(now, messages[i], next)
    requires LastSets(c, messages, j, i + 1)
    ensures next.threshold.Some? && Sets(messages[j], next.threshold.value)
  {
    SetsNow(c, messages, i, now);
    LastSetsNext(c, messages, j, i);
  }

  lemma LoginNext(c: Client, messages: seq<Message>, i: nat, now: Client, next: Client)
    requires i < |messages| && Knows(c, messages, i, now) && Advances(now, messages[i], next)
    ensures next.login <==> InLogin(c, messages, i + 1)
    ensures (forall k :: 0 <= k < i + 1 ==> !SetsAt(c, messages, k)) ==> next.threshold == c.threshold
  {
    SetsNow(c, messages, i, now);
  }

  lemma KnowsNext(c: Client, messages: seq<Message>, i: nat, now: Client, next: Client)
    requires i < |messages| && Knows(c, messages, i, now) && Advances(now, messages[i], next)
    ensures Knows(c, messages, i + 1, next)
  {
    LoginNext(c, messages, i, now, next);
    forall j: nat | LastSets(c, messages, j, i + 1)
      ensures next.threshold.Some? && Sets(messages[j], next.threshold.value)
    {
      ThresholdNext(c, messages, i, now, next, j);
    }
  }

  lemma ClientAdvances(c: Client, messages: seq<Message>, profile: Bytes, i: nat)
    requires Sendable(c, messages, profile) && i < |messages|
    ensures Advances(ClientAt(c, messages, profile, i), messages[i], ClientAt(c, messages, profile, i + 1))
  {
    ClientNext(c, messages, profile, i);
    AfterExactly(ClientAt(c, messages, profile, i), messages[i], profile);
  }

  lemma {:induction false} ClientKnows(c: Client, messages: seq<Message>, profile: Bytes, i: nat, now: Client)
    requires Sendable(c, messages, profile) && i <= |messages| && now == ClientAt(c, messages, profile, i)
    ensures Knows(c, messages, i, now)
    decreases i
  {
    if i > 0 {
      var before := ClientAt(c, messages, profile, i - 1);
      ClientKnows(c, messages, profile, i - 1, before);
      ClientAdvances(c, messages, profile, i - 1);
      KnowsNext(c, messages, i - 1, before, now);
    }
  }

  /**
   The bytes of every message: plain while no threshold is set, and behind a zero byte once message 3 has set
   one. A packet as long as the threshold is not sent in this form.
   */
  lemma BodyBytes(c: Client, messages: seq<Message>, profile: Bytes, i: nat)
    requires Sendable(c, messages, profile) && i < |messages|
    ensures var packet, sent := Encode(ToUint32(messages[i].id)) + messages[i].payload, Bodies(c, messages, profile)[i];
      && (c.threshold == None && (forall k :: 0 <= k < i ==> !SetsAt(c, messages, k)) ==> sent == packet)
      && (forall j: nat, t :: LastSets(c, messages, j, i) && Sets(messages[j], t) ==>
            sent == [0] + packet && |packet| < t)
  {
    BodyAt(c, messages, profile, i);
    ClientKnows(c, messages, profile, i, ClientAt(c, messages, profile, i));
    assert Encode(ToUint32(0)) == [0];
  }
}
