/**
 The VarInt functions of the smoke client: 32-bit integers in one to five bytes, seven bits a byte, low
 bits first.
 */
module VarInt {
  import opened Common

  type Byte = x: nat | x < 256
  type Int32 = x: int | -0x8000_0000 <= x < 0x8000_0000

  datatype Decoded = Incomplete | TooLong | Value(value: Int32, bytesRead: nat)

  /** The same before the bits are read as a signed number. */
  datatype Groups = Short | Long | Groups(bits: nat, count: nat)

  /** JavaScript `v >>> 0` and `u | 0`. */
  function ToUint32(v: Int32): (u: nat)
    ensures u < 0x1_0000_0000 && ToInt32(u) == v
  {
    v % 0x1_0000_0000
  }

  function ToInt32(u: nat): Int32 {
    var low := u % 0x1_0000_0000;
    if low < 0x8000_0000 then low else low - 0x1_0000_0000
  }

  /** The encoding of an unsigned number. */
  function Encode(u: nat): (s: seq<Byte>)
    ensures |s| >= 1
  {
    if u < 128 then [u] else [u % 128 + 128] + Encode(u / 128)
  }

  /** Seven-bit group number `index` of a number, shifted to its place. */
  function Placed(group: nat, index: nat): nat {
    if index == 0 then group else 128 * Placed(group, index - 1)
  }

  /** The decoder from byte `index` of a number on, with the bits so far. */
  function Read(s: seq<Byte>, index: nat, bits: nat): (d: Groups)
    requires index <= 5
    ensures d.Groups? ==> index < d.count <= 5 && d.count - index <= |s|
    decreases |s|
  {
    if index == 5 then Long
    else if s == [] then Short
    else
      var next := bits + Placed(Low7(s[0]), index);
      if s[0] < 128 then Groups(next, index + 1) else Read(s[1..], index + 1, next)
  }

  function Signed(d: Groups): Decoded {
    match d
    case Short => Incomplete
    case Long => TooLong
    case Groups(bits, count) => Value(ToInt32(bits), count)
  }

  function Decode(s: seq<Byte>): (d: Decoded)
    ensures d.Value? ==> 1 <= d.bytesRead <= 5 && d.bytesRead <= |s|
  {
    Signed(Read(s, 0, 0))
  }

  lemma {:induction false} ReadPrefix(s: seq<Byte>, t: seq<Byte>, index: nat, bits: nat)
    requires index <= 5
    ensures Read(s, index, bits) != Short ==> Read(s + t, index, bits) == Read(s, index, bits)
    ensures Read(s, index, bits) == Short ==> |s| < 5 - index
    decreases |s|
  {
    if index < 5 && s != [] && s[0] >= 128 {
      var next := bits + Placed(Low7(s[0]), index);
      assert (s + t)[0] == s[0] && (s + t)[1..] == s[1..] + t;
      ReadPrefix(s[1..], t, index + 1, next);
      assert Read(s, index, bits) == Read(s[1..], index + 1, next);
      assert Read(s + t, index, bits) == Read(s[1..] + t, index + 1, next);
    }
  }

  lemma {:induction false} ReadTruncated(s: seq<Byte>, n: nat, index: nat, bits: nat)
    requires index <= 5 && n <= |s|
    requires Read(s, index, bits).Groups? && index + n < Read(s, index, bits).count
    ensures Read(s[..n], index, bits) == Short
    decreases |s|
  {
    if n > 0 {
      assert s[..n][1..] == s[1..][..n - 1];
      ReadTruncated(s[1..], n - 1, index + 1, bits + Placed(Low7(s[0]), index));
    }
  }

  /** What was decoded once stays decoded when more bytes arrive; five bytes always decide. */
  lemma DecodePrefix(s: seq<Byte>, t: seq<Byte>)
    ensures Decode(s) != Incomplete ==> Decode(s + t) == Decode(s)
    ensures Decode(s) == Incomplete ==> |s| < 5
  {
    ReadPrefix(s, t, 0, 0);
  }

  /** A number is not decoded from fewer bytes than its own. */
  lemma DecodeTruncated(s: seq<Byte>, n: nat)
    requires n <= |s| && Decode(s).Value? && n < Decode(s).bytesRead
    ensures Decode(s[..n]) == Incomplete
  {
    ReadTruncated(s, n, 0, 0);
  }

  lemma {:induction false} Carry(u: nat, index: nat)
    ensures Placed(u / 128, index + 1) + Placed(u % 128, index) == Placed(u, index)
  {
    if index > 0 {
      Carry(u, index - 1);
    }
  }

  lemma FifthGroup(u: nat)
    ensures Placed(u, 4) == 0x1000_0000 * u
  {
    assert Placed(u, 2) == 128 * Placed(u, 1) == 128 * (128 * u);
    assert Placed(u, 3) == 128 * Placed(u, 2);
  }

  /** The groups of an encoding, whatever follows it. */
  lemma {:induction false} ReadEncoded(u: nat, rest: seq<Byte>, index: nat, bits: nat)
    requires index < 5 && Placed(u, index) + bits < 0x1_0000_0000
    ensures Read(Encode(u) + rest, index, bits) == Groups(bits + Placed(u, index), index + |Encode(u)|)
    decreases u
  {
    var s := Encode(u) + rest;
    if u >= 128 {
      var q, r := u / 128, u % 128;
      Carry(u, index);
      if index == 4 {
        FifthGroup(u);
      }
      assert s[0] == r + 128 && s[1..] == Encode(q) + rest;
      ReadEncoded(q, rest, index + 1, bits + Placed(r, index));
    }
  }

  /** Round trip of every 32-bit integer, in at most five bytes. */
  lemma RoundTrip(v: Int32, rest: seq<Byte>)
    ensures Decode(Encode(ToUint32(v)) + rest) == Value(v, |Encode(ToUint32(v))|)
    ensures |Encode(ToUint32(v))| <= 5
  {
    ReadEncoded(ToUint32(v), rest, 0, 0);
    assert Decode(Encode(ToUint32(v)) + rest).bytesRead <= 5;
  }

  /** No proper prefix of an encoding is decoded to a value. */
  lemma TruncatedNeverDecodes(v: Int32, n: nat)
    requires n < |Encode(ToUint32(v))|
    ensures Decode(Encode(ToUint32(v))[..n]) == Incomplete
  {
    var s := Encode(ToUint32(v));
    RoundTrip(v, []);
    assert s + [] == s;
    DecodeTruncated(s, n);
  }

  // ------------------------------------------------------ the bytes

  /** 128 to that power. */
  function Weight(k: nat): (w: nat)
    ensures w >= 1
  {
    if k == 0 then 1 else 128 * Weight(k - 1)
  }

  /** Bits 7k to 7k + 6 of a number. */
  function Group(u: nat, k: nat): (g: nat)
    ensures g < 128
    decreases k
  {
    if k == 0 then u % 128 else Group(u / 128, k - 1)
  }

  /**
   Byte k of an encoding holds seven-bit group k of the number, marked unless it is the last one, and there are
   only as many bytes as the number needs.
   */
  lemma {:induction false} EncodedBytes(u: nat)
    ensures var s := Encode(u);
      && (forall k :: 0 <= k < |s| ==> s[k] == Group(u, k) + if k < |s| - 1 then 128 else 0)
      && u < Weight(|s|) && (|s| == 1 || u >= Weight(|s| - 1))
  {
    var s := Encode(u);
    if u >= 128 {
      var rest := Encode(u / 128);
      EncodedBytes(u / 128);
      assert forall k :: 0 < k < |s| ==> s[k] == rest[k - 1] && Group(u, k) == Group(u / 128, k - 1);
      assert Weight(|s|) == 128 * Weight(|rest|);
    } else {
      assert Weight(1) == 128 * Weight(0);
    }
  }

  /** The first n seven-bit groups put together, low ones first. */
  function Sum(s: seq<Byte>, n: nat): nat
    requires n <= |s|
  {
    if n == 0 then 0 else Sum(s, n - 1) + Low7(s[n - 1]) * Weight(n - 1)
  }

  /** The first n bytes ask for another one. */
  predicate Marked(s: seq<Byte>, n: nat)
    requires n <= |s|
  {
    forall k :: 0 <= k < n ==> s[k] >= 128
  }

  lemma {:induction false} PlacedIs(g: nat, k: nat)
    ensures Placed(g, k) == g * Weight(k)
  {
    if k > 0 {
      PlacedIs(g, k - 1);
    }
  }

  /** What the decoder says of a number, byte by byte. */
  ghost predicate ReadsAs(s: seq<Byte>, n: nat, d: Groups) {
    match d
    case Groups(bits, count) => n < count <= 5 && count <= |s| && Marked(s, count - 1) && s[count - 1] < 128
                                && bits == Sum(s, count)
    case Short => |s| < 5 && Marked(s, |s|)
    case Long => |s| >= 5 && Marked(s, 5)
  }

  lemma {:induction false} ReadFrom(s: seq<Byte>, n: nat)
    requires n <= 5 && n <= |s| && Marked(s, n)
    ensures ReadsAs(s, n, Read(s[n..], n, Sum(s, n)))
    decreases 5 - n
  {
    if n < 5 && n < |s| {
      var rest := s[n..];
      PlacedIs(Low7(s[n]), n);
      assert rest[0] == s[n] && rest[1..] == s[n + 1..];
      assert Sum(s, n + 1) == Sum(s, n) + Placed(Low7(s[n]), n);
      if s[n] >= 128 {
        ReadFrom(s, n + 1);
      }
    }
  }

  /**
   A value is decoded exactly when one of the first five bytes is unmarked: from the bytes up to the first such
   one. Otherwise more bytes are needed, or five marked ones are too many.
   */
  lemma DecodesExactly(s: seq<Byte>)
    ensures var d := Decode(s);
      && (d.Value? ==> var n := d.bytesRead;
            1 <= n <= 5 && n <= |s| && Marked(s, n - 1) && s[n - 1] < 128 && d.value == ToInt32(Sum(s, n)))
      && (d.Incomplete? ==> |s| < 5 && Marked(s, |s|))
      && (d.TooLong? ==> |s| >= 5 && Marked(s, 5))
  {
    ReadFrom(s, 0);
    assert s[0..] == s;
  }

  lemma Snoc(bytes: seq<Byte>, next: Byte, remaining: nat)
    ensures bytes + ([next] + Encode(remaining)) == bytes + [next] + Encode(remaining)
  {
  }

  /** encodeVarInt. */
  method EncodeVarInt(value: Int32) returns (bytes: seq<Byte>)
    ensures bytes == Encode(ToUint32(value))
  {
    bytes := [];
    var remaining := ToUint32(value);
    var done := false;
    while !done
      invariant bytes + (if done then [] else Encode(remaining)) == Encode(ToUint32(value))
      decreases !done, remaining
    {
      var next := remaining % 128;
      remaining := remaining / 128;
      if remaining != 0 {
        next := next + 128;
      }
      Snoc(bytes, next, remaining);
      bytes := bytes + [next];
      done := remaining == 0;
    }
  }

  /** decodeVarInt: undefined, an exception, or a value with its length. */
  method DecodeVarInt(bytes: seq<Byte>, offset: nat) returns (d: Decoded)
    requires offset <= |bytes|
    ensures d == Decode(bytes[offset..])
  {
    var bits: nat := 0;
    for index := 0 to 5
      invariant offset + index <= |bytes|
      invariant Signed(Read(bytes[offset + index..], index, bits)) == Decode(bytes[offset..])
    {
      var position := offset + index;
      if position >= |bytes| {
        return Incomplete;
      }
      var next := bytes[position];
      ghost var rest := bytes[position..];
      assert rest[0] == next && rest[1..] == bytes[position + 1..];
      bits := bits + Placed(Low7(next), index);
      if next < 128 {
        return Value(ToInt32(bits), index + 1);
      }
    }
    d := TooLong;
  }
}
