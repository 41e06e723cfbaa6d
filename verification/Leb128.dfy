/**
 The LEB128 writers of the Wasm module generator, proved against the reading rules of the WebAssembly
 specification: uN and sN of section 5.2.2 of the core specification, without the width bound.
 */
module Leb128 {
  import opened Common

  type Byte = x: nat | x < 256

  // ---------------------------------------------------------- readers

  /** The value of an unsigned number that takes up exactly these bytes. */
  function ReadUnsigned(s: seq<Byte>): Option<nat> {
    if s == [] then None
    else if s[0] < 128 then (if |s| == 1 then Some(s[0]) else None)
    else match ReadUnsigned(s[1..]) { case None => None case Some(rest) => Some(128 * rest + Low7(s[0])) }
  }

  /** The same for a signed number: bit 6 of the last byte is the sign. */
  function ReadSigned(s: seq<Byte>): Option<int> {
    if s == [] then None
    else if s[0] < 128 then (if |s| > 1 then None else if s[0] < 64 then Some(s[0]) else Some(Signed(s[0])))
    else match ReadSigned(s[1..]) { case None => None case Some(rest) => Some(128 * rest + Low7(s[0])) }
  }

  function Signed(b: int): int { b - 128 }

  // ---------------------------------------------------------- writers

  /** Prefix bytes all carry the continuation bit. */
  ghost predicate Open(s: seq<Byte>) {
    forall k :: 0 <= k < |s| ==> s[k] >= 128
  }

  /** The number whose low groups are the open bytes and whose high part is `rest`. */
  ghost function Above(s: seq<Byte>, rest: int): int {
    if s == [] then rest else 128 * Above(s[1..], rest) + Low7(s[0])
  }

  lemma {:induction false} AboveAppend(s: seq<Byte>, b: Byte, rest: int)
    ensures Above(s + [b], rest) == Above(s, 128 * rest + Low7(b))
  {
    if s != [] {
      assert (s + [b])[1..] == s[1..] + [b];
      AboveAppend(s[1..], b, rest);
    } else {
      assert (s + [b])[1..] == [];
    }
  }

  lemma {:induction false} CloseUnsigned(s: seq<Byte>, b: Byte)
    requires Open(s) && b < 128
    ensures ReadUnsigned(s + [b]) == Some(Above(s, b))
  {
    if s != [] {
      assert (s + [b])[1..] == s[1..] + [b];
      CloseUnsigned(s[1..], b);
    }
  }

  lemma {:induction false} CloseSigned(s: seq<Byte>, b: Byte)
    requires Open(s) && b < 128
    ensures ReadSigned(s + [b]) == Some(Above(s, if b < 64 then b else Signed(b)))
  {
    if s != [] {
      assert (s + [b])[1..] == s[1..] + [b];
      CloseSigned(s[1..], b);
    }
  }

  // ---------------------------------------------- shortest encodings

  function UnsignedLength(v: nat): nat {
    if v < 128 then 1 else 1 + UnsignedLength(v / 128)
  }

  function SignedLength(v: int): nat
    decreases if v < 0 then -v else v
  {
    if -64 <= v < 64 then 1 else 1 + SignedLength(v / 128)
  }

  /** No bytes that read as v are fewer. */
  lemma {:induction false} UnsignedShortest(s: seq<Byte>, v: nat)
    requires ReadUnsigned(s) == Some(v)
    ensures |s| >= UnsignedLength(v)
  {
    if s[0] >= 128 {
      var rest := ReadUnsigned(s[1..]).value;
      assert v / 128 == rest;
      UnsignedShortest(s[1..], rest);
    }
  }

  lemma {:induction false} SignedShortest(s: seq<Byte>, v: int)
    requires ReadSigned(s) == Some(v)
    ensures |s| >= SignedLength(v)
  {
    if s[0] >= 128 {
      var rest := ReadSigned(s[1..]).value;
      assert v / 128 == rest;
      SignedShortest(s[1..], rest);
    }
  }

  /** A reader knows where a number ends: nothing that reads continues something that reads. */
  lemma {:induction false} PrefixFree(s: seq<Byte>, n: nat)
    requires n < |s|
    ensures ReadUnsigned(s[..n]) == None || ReadUnsigned(s) == None
    ensures ReadSigned(s[..n]) == None || ReadSigned(s) == None
  {
    if n > 0 && s[0] >= 128 {
      PrefixFree(s[1..], n - 1);
      assert s[..n][1..] == s[1..][..n - 1];
    }
  }

  /** uleb: the number reads back, from as few bytes as possible. */
  method Uleb(value: nat) returns (out: seq<Byte>)
    ensures ReadUnsigned(out) == Some(value)
    ensures |out| == UnsignedLength(value)
  {
    out := [];
    var v := value;
    while true
      invariant Open(out) && Above(out, v) == value && |out| + UnsignedLength(v) == UnsignedLength(value)
      decreases v
    {
      var low := v % 128;
      var rest := v / 128;
      if rest != 0 {
        AboveAppend(out, low + 128, rest);
        out := out + [low + 128];
        v := rest;
      } else {
        CloseUnsigned(out, low);
        out := out + [low];
        return;
      }
    }
  }

  /** sleb: the same for every integer. */
  method Sleb(value: int) returns (out: seq<Byte>)
    ensures ReadSigned(out) == Some(value)
    ensures |out| == SignedLength(value)
  {
    out := [];
    var v := value;
    while true
      invariant Open(out) && Above(out, v) == value && |out| + SignedLength(v) == SignedLength(value)
      decreases if v < 0 then -v else v
    {
      var low := v % 128;
      var rest := v / 128;
      if (rest == 0 && low < 64) || (rest == -1 && low >= 64) {
        CloseSigned(out, low);
        out := out + [low];
        return;
      }
      AboveAppend(out, low + 128, rest);
      out := out + [low + 128];
      v := rest;
    }
  }

  lemma SignedWidth(v: int)
    requires -0x8000_0000 <= v < 0x8000_0000
    ensures SignedLength(v) <= 5
  {
    var a := v / 128;
    var b := a / 128;
    var c := b / 128;
    var d := c / 128;
    assert -64 <= d < 64;
    assert SignedLength(d) == 1;
    assert SignedLength(c) <= 2;
    assert SignedLength(b) <= 3;
    assert SignedLength(a) <= 4;
  }

  /** i32_const: opcode 0x41 and the signed reading of a 32-bit pattern, within the five bytes that s32 allows. */
  method I32Const(value: int) returns (out: seq<Byte>)
    requires -0x8000_0000 <= value < 0x1_0000_0000
    ensures 2 <= |out| <= 6 && out[0] == 0x41
    ensures ReadSigned(out[1..]) == Some(if value < 0x8000_0000 then value else value - 0x1_0000_0000)
  {
    var v := value;
    if v > 0x7fff_ffff {
      v := v - 0x1_0000_0000;
    }
    var operand := Sleb(v);
    SignedWidth(v);
    out := [0x41] + operand;
    assert out[1..] == operand;
  }
}
