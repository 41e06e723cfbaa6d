/** The stateful AES-128/CFB8 stream of BrowserAesCfb8. */
module AesCfb8Stream {
  import opened Bits
  import opened Common
  import opened Gf256
  import opened GfInverse
  import opened Fips197
  import opened AesTables
  import opened Cfb8

  type Int32 = x: int | -0x8000_0000 <= x < 0x8000_0000

  const ENCRYPT_MODE: Int32 := 1
  const DECRYPT_MODE: Int32 := 2

  /** Java int addition. */
  function AddInt(a: Int32, b: Int32): Int32 {
    if a + b >= 0x8000_0000 then a + b - 0x1_0000_0000
    else if a + b < -0x8000_0000 then a + b + 0x1_0000_0000
    else a + b
  }

  datatype ArgumentError = NoError | UnsupportedMode | BadKey | BadIv

  datatype UpdateResult =
    | Updated(count: Int32)
    | NullBuffer
    | RangeInvalid
    | IndexFault(processed: nat)

  /** The range check of update, with its wrapping additions. */
  predicate RangeAccepted(inputOffset: Int32, inputLength: Int32, inputBytes: Int32,
                          outputOffset: Int32, outputBytes: Int32)
  {
    && inputOffset >= 0 && inputLength >= 0 && AddInt(inputOffset, inputLength) <= inputBytes
    && outputOffset >= 0 && AddInt(outputOffset, inputLength) <= outputBytes
  }

  /** The range check accepts exactly the ranges that fit and the ranges whose end overflows an int. */
  lemma RangeCheckExact(inputOffset: Int32, inputLength: Int32, inputBytes: Int32,
                        outputOffset: Int32, outputBytes: Int32)
    requires inputBytes >= 0 && outputBytes >= 0
    ensures RangeAccepted(inputOffset, inputLength, inputBytes, outputOffset, outputBytes) <==>
      && inputOffset >= 0 && inputLength >= 0 && outputOffset >= 0
      && (inputOffset + inputLength <= inputBytes || inputOffset + inputLength >= 0x8000_0000)
      && (outputOffset + inputLength <= outputBytes || outputOffset + inputLength >= 0x8000_0000)
  {
  }

  /** A length of 2^31 - 1 from offset 1 passes for 100 bytes, of which 99 are handled before the fault. */
  lemma RangeOverflows()
    ensures RangeAccepted(1, 0x7fff_ffff, 100, 1, 100) && Processed(1, 0x7fff_ffff, 100, 1, 100) == 99
  {
  }

  /** How many bytes the loop handles before it finishes or faults on an index. */
  function Processed(inputOffset: int, inputLength: int, inputBytes: nat, outputOffset: int, outputBytes: nat): (n: nat)
    requires inputOffset >= 0 && inputLength >= 0 && outputOffset >= 0
    ensures n <= inputLength
    ensures n > 0 ==> inputOffset + n <= inputBytes && outputOffset + n <= outputBytes
    ensures n == inputLength || inputOffset + n >= inputBytes || outputOffset + n >= outputBytes
  {
    Min(inputLength, Min(Room(inputOffset, inputBytes), Room(outputOffset, outputBytes)))
  }

  function Room(offset: nat, bytes: nat): nat { if offset < bytes then bytes - offset else 0 }

  /** A Java byte array index never exceeds this length. */
  type Buffer = b: array?<Byte> | b != null ==> b.Length < 0x8000_0000 witness null

  predicate Masked(register: Block) { true }

  /** A mask under another name; the cipher is at hand only where Masked is mentioned. */
  ghost predicate IsMask(mask: Keystream, sub: SubTable, w: KeySchedule) {
    forall r: Block {:trigger Masked(r)} :: mask(r) == Cipher(sub, w, r).c0.r0
  }

  lemma CipherMask(sub: SubTable, w: KeySchedule) returns (mask: Keystream)
    ensures IsMask(mask, sub, w)
  {
    mask := (r: Block) => Cipher(sub, w, r).c0.r0;
  }

  /** The loop goes on exactly while there is something more to handle. */
  lemma GuardExact(from: nat, length: nat, inputBytes: nat, to: nat, outputBytes: nat, done: nat)
    requires done <= Processed(from, length, inputBytes, to, outputBytes)
    ensures done < Processed(from, length, inputBytes, to, outputBytes) <==>
      done < length && from + done < inputBytes && to + done < outputBytes
  {
  }

  class BrowserAesCfb8 {
    const tables: Tables
    const encrypting: bool
    const feedback: array<Byte>
    const roundKeys: array<Word>
    ghost const schedule: KeySchedule
    /** The first cipher byte as a function of the register. */
    ghost const mask: Keystream

    ghost predicate Valid()
      reads this, roundKeys, tables, tables.sbox, tables.te0, tables.te1, tables.te2, tables.te3
    {
      KeysValid() && IsMask(mask, tables.sub, schedule)
    }

    ghost predicate KeysValid()
      reads this, roundKeys, tables, tables.sbox, tables.te0, tables.te1, tables.te2, tables.te3
    {
      && tables.Valid()
      && feedback.Length == 16 && roundKeys.Length == 44
      && (forall i {:trigger roundKeys[i]} :: 0 <= i < 44 ==> roundKeys[i] == WordOf(schedule[i]))
      && var f: object := feedback;
         f !in TableArrays() && f != roundKeys
    }

    ghost function TableArrays(): set<object>
      reads this, tables
    {
      {tables.sbox as object, tables.te0, tables.te1, tables.te2, tables.te3}
    }

    /** The private arrays; no caller ever holds a reference to them. */
    ghost function Internals(): set<object>
      reads this, tables
    {
      {feedback as object, roundKeys} + TableArrays()
    }

    ghost function Register(): Block
      requires feedback.Length == 16
      reads this, feedback
    {
      feedback[..]
    }

    constructor (mode: Int32, key: array<Byte>, iv: array<Byte>, tables: Tables)
      requires mode == ENCRYPT_MODE || mode == DECRYPT_MODE
      requires key.Length == 16 && iv.Length == 16 && tables.Valid()
      ensures Valid() && fresh(feedback) && fresh(roundKeys)
      ensures this.tables == tables && encrypting == (mode == ENCRYPT_MODE)
      ensures schedule == Schedule(tables.sub, key[..]) && Register() == iv[..]
    {
      encrypting := mode == ENCRYPT_MODE;
      this.tables := tables;
      ghost var w := Schedule(tables.sub, key[..]);
      schedule := w;
      ghost var m := CipherMask(tables.sub, w);
      mask := m;
      feedback := new Byte[16](i requires 0 <= i < iv.Length reads iv => iv[i]);
      roundKeys := new Word[44];
      new;
      assert feedback[..] == iv[..];
      ScheduleRecurrence(tables.sub, key[..]);
      ExpandKey(key);
    }

    /** The argument checks of the public constructor. */
    static method Create(mode: Int32, key: array?<Byte>, iv: array?<Byte>, tables: Tables)
      returns (r: BrowserAesCfb8?, error: ArgumentError)
      requires tables.Valid()
      ensures error == (if mode != ENCRYPT_MODE && mode != DECRYPT_MODE then UnsupportedMode
                        else if key == null || key.Length != 16 then BadKey
                        else if iv == null || iv.Length != 16 then BadIv
                        else NoError)
      ensures error == NoError <==> r != null
      ensures r != null ==>
        && r.Valid() && fresh(r.feedback) && r.tables == tables && r.encrypting == (mode == ENCRYPT_MODE)
        && r.schedule == Schedule(tables.sub, key[..]) && r.Register() == iv[..]
    {
      r := null;
      if mode != ENCRYPT_MODE && mode != DECRYPT_MODE { error := UnsupportedMode; return; }
      if key == null || key.Length != 16 { error := BadKey; return; }
      if iv == null || iv.Length != 16 { error := BadIv; return; }
      error := NoError;
      r := new BrowserAesCfb8(mode, key, iv, tables);
    }

    /** The stream's mask is the first byte of the FIPS 197 cipher under the given key. */
    lemma MaskIsFips197(key: Block, register: Block)
      requires Valid() && tables.sub == SboxTable() && schedule == Schedule(tables.sub, key)
      ensures mask(register) == FirstByte(key, register)
    {
      assert Masked(register);
    }

    // ------------------------------------------------------ the stream

    method Update(input: Buffer, inputOffset: Int32, inputLength: Int32, output: Buffer, outputOffset: Int32)
      returns (r: UpdateResult)
      requires Valid()
      requires input == null || input !in Internals()
      requires output == null || output !in Internals()
      modifies feedback, if output == null then {} else {output}
      ensures Valid()
      ensures r.NullBuffer? <==> (input == null || output == null)
      ensures r.RangeInvalid? <==> (input != null && output != null
        && !RangeAccepted(inputOffset, inputLength, input.Length, outputOffset, output.Length))
      ensures r.NullBuffer? || r.RangeInvalid? ==>
        Register() == old(Register()) && (output != null ==> output[..] == old(output[..]))
      ensures r.Updated? || r.IndexFault? ==>
        var n := Processed(inputOffset, inputLength, input.Length, outputOffset, output.Length);
        && r == (if n == inputLength then Updated(inputLength) else IndexFault(n))
        && old(Progress(Register(), input[..], input == output, output[..], inputOffset, outputOffset, inputLength))
             == (output[..], Register())
    {
      if input == null || output == null {
        return NullBuffer;
      }
      if inputOffset < 0 || inputLength < 0 || AddInt(inputOffset, inputLength) > input.Length
         || outputOffset < 0 || AddInt(outputOffset, inputLength) > output.Length {
        return RangeInvalid;
      }
      var done := Transform(input, inputOffset, output, outputOffset, inputLength);
      return if done == inputLength then Updated(inputLength) else IndexFault(done);
    }

    /** update(byte[]): a new array with the whole input transformed. */
    method UpdateAll(input: Buffer) returns (output: array<Byte>)
      requires Valid() && (input == null || input !in Internals())
      modifies feedback
      ensures Valid() && fresh(output)
      ensures var source := if input == null then [] else old(input[..]);
        && output[..] == Output(mask, encrypting, old(Register()), source)
        && Register() == Final(mask, encrypting, old(Register()), source)
    {
      if input == null || input.Length == 0 {
        output := new Byte[0];
        return;
      }
      output := new Byte[input.Length];
      ghost var before, register := output[..], Register();
      var r := Update(input, 0, input.Length, output, 0);
      ProgressIsOutput(register, old(input[..]), false, before, 0, 0, input.Length);
      assert old(input[..])[0..0 + input.Length] == old(input[..]);
      var out := Output(mask, encrypting, register, old(input[..]));
      assert before[..0] + out + before[0 + input.Length..] == out;
    }

    /** Successive calls of update(byte[]) on one object. */
    method UpdateEach(chunks: seq<seq<Byte>>) returns (out: seq<seq<Byte>>)
      requires Valid() && forall i :: 0 <= i < |chunks| ==> |chunks[i]| < 0x8000_0000
      modifies feedback
      ensures Valid()
      ensures out == Calls(mask, encrypting, old(Register()), chunks)
      ensures Register() == CallsFinal(mask, encrypting, old(Register()), chunks)
    {
      out := [];
      ghost var start := Register();
      for i := 0 to |chunks|
        invariant Valid()
        invariant out + Calls(mask, encrypting, Register(), chunks[i..]) == Calls(mask, encrypting, start, chunks)
        invariant CallsFinal(mask, encrypting, Register(), chunks[i..]) == CallsFinal(mask, encrypting, start, chunks)
      {
        var result := UpdateCopy(chunks[i]);
        assert chunks[i..][0] == chunks[i] && chunks[i..][1..] == chunks[i + 1..];
        out := out + [result];
      }
    }

    method UpdateCopy(chunk: seq<Byte>) returns (out: seq<Byte>)
      requires Valid() && |chunk| < 0x8000_0000
      modifies feedback
      ensures Valid()
      ensures out == Output(mask, encrypting, old(Register()), chunk)
      ensures Register() == Final(mask, encrypting, old(Register()), chunk)
    {
      var input := new Byte[|chunk|](i requires 0 <= i < |chunk| => chunk[i]);
      assert input[..] == chunk;
      var output := UpdateAll(input);
      out := output[..];
    }

    /** The loop of update; it ends early where Java faults on an index outside a buffer. */
    method Transform(input: array<Byte>, from: nat, output: array<Byte>, to: nat, length: nat) returns (done: nat)
      requires Valid() && input !in Internals() && output !in Internals()
      modifies feedback, output
      ensures Valid() && done == Processed(from, length, input.Length, to, output.Length)
      ensures old(Progress(Register(), input[..], input == output, output[..], from, to, length))
           == (output[..], Register())
    {
      ghost var before := input[..];
      ghost var trace := MakeTrace(Register(), before, input == output, output[..], from, to, length);
      done := 0;
      while done < length && from + done < input.Length && to + done < output.Length
        invariant done < |trace| && trace[done] == (output[..], Register())
        invariant input != output ==> input[..] == before
        decreases length - done
      {
        GuardExact(from, length, input.Length, to, output.Length, done);
        TransformByte(input, from, output, to, done, before, trace);
        done := done + 1;
      }
      GuardExact(from, length, input.Length, to, output.Length, done);
    }

    /** The buffer and the register before each byte and after the last one. */
    ghost predicate IsTrace(input: seq<Byte>, shared: bool, from: nat, to: nat, trace: seq<(seq<Byte>, Block)>) {
      forall k: nat {:trigger At(k)} :: k + 1 < |trace| ==>
        && from + k < |if shared then trace[k].0 else input| && to + k < |trace[k].0|
        && trace[k + 1] == After(input, shared, from, to, k, trace[k])
    }

    ghost function After(input: seq<Byte>, shared: bool, from: nat, to: nat, k: nat, s: (seq<Byte>, Block))
      : (seq<Byte>, Block)
      requires from + k < |if shared then s.0 else input| && to + k < |s.0|
    {
      var (b, next) := Segment(mask, encrypting, s.1, (if shared then s.0 else input)[from + k]);
      (s.0[to + k := b], next)
    }

    /** A step of a trace that has one more step in front. */
    lemma TraceGrows(input: seq<Byte>, shared: bool, from: nat, to: nat, rest: seq<(seq<Byte>, Block)>,
                     trace: seq<(seq<Byte>, Block)>, k: nat)
      requires rest != [] && IsTrace(input, shared, from + 1, to + 1, rest)
      requires |trace| == |rest| + 1 && trace[1..] == rest && 1 <= k < |rest|
      ensures from + k < |if shared then trace[k].0 else input| && to + k < |trace[k].0|
      ensures trace[k + 1] == After(input, shared, from, to, k, trace[k])
    {
      assert At(k - 1);
      assert trace[k] == rest[k - 1] && trace[k + 1] == rest[(k - 1) + 1];
      assert (from + 1) + (k - 1) == from + k && (to + 1) + (k - 1) == to + k;
      assert After(input, shared, from + 1, to + 1, k - 1, rest[k - 1]) == After(input, shared, from, to, k, trace[k]);
    }

    lemma {:induction false} MakeTrace(register: Block, input: seq<Byte>, shared: bool, output: seq<Byte>,
                                       from: nat, to: nat, length: nat) returns (trace: seq<(seq<Byte>, Block)>)
      requires shared ==> |input| == |output|
      ensures |trace| == Processed(from, length, |input|, to, |output|) + 1
      ensures trace[0] == (output, register) && IsTrace(input, shared, from, to, trace)
      ensures trace[|trace| - 1] == Progress(register, input, shared, output, from, to, length)
      decreases length
    {
      if length > 0 && from < |input| && to < |output| {
        var (b, next) := Segment(mask, encrypting, register, (if shared then output else input)[from]);
        var rest := MakeTrace(next, input, shared, output[to := b], from + 1, to + 1, length - 1);
        trace := [(output, register)] + rest;
        assert trace[1..] == rest;
        forall k: nat | k + 1 < |trace|
          ensures from + k < |if shared then trace[k].0 else input| && to + k < |trace[k].0|
          ensures trace[k + 1] == After(input, shared, from, to, k, trace[k])
        {
          if k == 0 {
            assert trace[1] == rest[0];
          } else {
            TraceGrows(input, shared, from, to, rest, trace, k);
          }
        }
      } else {
        trace := [(output, register)];
      }
    }

    /** What the loop makes of the current buffers and register. */
    ghost function Progress(register: Block, input: seq<Byte>, shared: bool, output: seq<Byte>,
                            from: nat, to: nat, length: nat): (seq<Byte>, Block)
      requires shared ==> |input| == |output|
      decreases length
    {
      if length == 0 || from >= |input| || to >= |output| then (output, register)
      else
        var (b, next) := Segment(mask, encrypting, register, (if shared then output else input)[from]);
        Progress(next, input, shared, output[to := b], from + 1, to + 1, length - 1)
    }

    /** On a range that fits and is not written ahead of itself, the loop transforms the original bytes. */
    lemma ProgressIsOutput(register: Block, input: seq<Byte>, shared: bool, output: seq<Byte>,
                           from: nat, to: nat, length: nat)
      requires from + length <= |input| && to + length <= |output| && (shared ==> input == output)
      requires shared ==> to <= from || from + length <= to
      ensures var source := input[from..from + length];
        Progress(register, input, shared, output, from, to, length)
          == (output[..to] + Output(mask, encrypting, register, source) + output[to + length..],
              Final(mask, encrypting, register, source))
    {
      ProgressIsRun(register, input, shared, output, from, to, length);
      RunIsOutput(mask, encrypting, register, input, shared, output, from, to, length);
      if length == 0 {
        assert output[..to] + [] + output[to..] == output;
      }
    }

    /** The loop is a run over as many bytes as there is room for. */
    lemma {:induction false} ProgressIsRun(register: Block, input: seq<Byte>, shared: bool, output: seq<Byte>,
                                           from: nat, to: nat, length: nat)
      requires shared ==> |input| == |output|
      ensures var n := Processed(from, length, |input|, to, |output|);
        Progress(register, input, shared, output, from, to, length)
          == if n == 0 then (output, register) else Run(mask, encrypting, register, input, shared, output, from, to, n)
      decreases length
    {
      if length > 0 && from < |input| && to < |output| {
        var (b, next) := Segment(mask, encrypting, register, (if shared then output else input)[from]);
        ProgressIsRun(next, input, shared, output[to := b], from + 1, to + 1, length - 1);
      }
    }

    method TransformByte(input: array<Byte>, from: nat, output: array<Byte>, to: nat, done: nat,
                         ghost before: seq<Byte>, ghost trace: seq<(seq<Byte>, Block)>)
      requires Valid() && input !in Internals() && output !in Internals()
      requires from + done < input.Length && to + done < output.Length && (input != output ==> input[..] == before)
      requires done + 1 < |trace| && trace[done] == (output[..], Register())
      requires IsTrace(before, input == output, from, to, trace)
      modifies feedback, output
      ensures trace[done + 1] == (output[..], Register()) && (input != output ==> input[..] == before)
    {
      assert At(done);
      ghost var now, shared := output[..], input == output;
      var source := input[from + done];
      ghost var register := Register();
      assert trace[done + 1] == After(before, shared, from, to, done, (now, register));
      assert trace[done + 1].1 == Segment(mask, encrypting, register, source).1;
      var transformed := UpdateByte(source);
      output[to + done] := transformed;
      assert output[..] == now[to + done := transformed];
    }

    /** One segment: the mask is computed, the register shifts and takes the ciphertext byte. */
    method UpdateByte(source: Byte) returns (transformed: Byte)
      requires Valid()
      modifies feedback
      ensures Valid()
      ensures (transformed, Register()) == Segment(mask, encrypting, old(Register()), source)
    {
      var first := FirstMaskByte();
      transformed := Add(source, first);
      ShiftFeedback(if encrypting then transformed else source);
    }

    method ShiftFeedback(b: Byte)
      requires feedback.Length == 16
      modifies feedback
      ensures Register() == Shift(old(Register()), b)
    {
      forall i | 0 <= i < 15 {
        feedback[i] := feedback[i + 1];
      }
      feedback[15] := b;
    }

    method FirstMaskByte() returns (r: Byte)
      requires Valid()
      ensures r == mask(Register())
    {
      r := EncryptFirstFeedbackByte();
      assert Masked(Register());
    }

    method ExpandKey(key: array<Byte>)
      requires key.Length == 16 && IsSchedule(tables.sub, key[..], schedule) && key !in Internals()
      requires tables.Valid() && roundKeys.Length == 44
      requires roundKeys !in TableArrays()
      modifies roundKeys
      ensures forall i {:trigger roundKeys[i]} :: 0 <= i < 44 ==> roundKeys[i] == WordOf(schedule[i])
    {
      LoadKeyWords(key);
      ghost var powers := RconPowers(12);
      assert At(0);
      var rcon: Byte := 1;
      ghost var turn := 0;
      for index := 4 to 44
        invariant forall i {:trigger roundKeys[i]} :: 0 <= i < index ==> roundKeys[i] == WordOf(schedule[i])
        invariant 4 * turn < index <= 4 * turn + 4 && rcon == powers[turn]
      {
        var word := NextKeyWord(index, rcon, turn, powers, key[..]);
        roundKeys[index] := word;
        if index % 4 == 0 {
          rcon := NextRcon(rcon, turn, powers);
          turn := turn + 1;
        }
      }
    }

    method LoadKeyWords(key: array<Byte>)
      requires key.Length == 16 && IsSchedule(tables.sub, key[..], schedule) && roundKeys.Length == 44
      requires key as object != roundKeys
      modifies roundKeys
      ensures forall i {:trigger roundKeys[i]} :: 0 <= i < 4 ==> roundKeys[i] == WordOf(schedule[i])
    {
      for index := 0 to 4
        invariant forall i {:trigger roundKeys[i]} :: 0 <= i < index ==> roundKeys[i] == WordOf(schedule[i])
      {
        assert At(index);
        roundKeys[index] := LoadWord(key[..], index * 4);
      }
    }

    /** The word that one iteration of the second loop of expandKey stores. */
    method NextKeyWord(index: nat, rcon: Byte, ghost turn: nat, ghost powers: seq<Byte>, ghost key: Block)
      returns (word: Word)
      requires tables.Valid() && roundKeys.Length == 44 && 4 <= index < 44
      requires forall i {:trigger roundKeys[i]} :: 0 <= i < index ==> roundKeys[i] == WordOf(schedule[i])
      requires 4 * turn < index <= 4 * turn + 4 && |powers| == 12 && IsRcon(powers) && rcon == powers[turn]
      requires IsSchedule(tables.sub, key, schedule)
      ensures word == WordOf(schedule[index])
    {
      ghost var previous := schedule[index - 1];
      ghost var step := KeyTemp(tables.sub, previous, index);
      var value := roundKeys[index - 1];
      if index % 4 == 0 {
        assert At(turn) && index / 4 - 1 == turn;
        value := Scramble(value, rcon, previous);
      }
      assert value == WordOf(step);
      assert At(index);
      XorWord(schedule[index - 4], step);
      word := Xor(roundKeys[index - 4], value);
    }

    /** The step that every fourth key word takes. */
    method Scramble(value: Word, rcon: Byte, ghost column: Column) returns (r: Word)
      requires tables.Valid() && value == WordOf(column)
      ensures r == WordOf(AddColumn(SubWord(tables.sub, RotWord(column)), Column(rcon, 0, 0, 0)))
    {
      RotatedWord(column);
      var substituted := SubstituteWord(RotateLeft8(value), RotWord(column));
      XorWord(SubWord(tables.sub, RotWord(column)), Column(rcon, 0, 0, 0));
      RconWord(rcon);
      r := Xor(substituted, rcon * 0x1_000000);
    }

    // ------------------------------------------------------ the cipher

    method EncryptFirstFeedbackByte() returns (r: Byte)
      requires KeysValid()
      ensures r == Cipher(tables.sub, schedule, Register()).c0.r0
    {
      ghost var step := RoundFunction(tables.sub);
      var s0, s1, s2, s3 := FirstRoundWords();
      ghost var start := Rounds(tables.sub, schedule, Register(), 0);
      ghost var s := start;
      for round := 1 to 10
        invariant s == Steps(step, schedule, start, round - 1)
        invariant Holds(s, s0, s1, s2, s3)
      {
        s0, s1, s2, s3 := RoundWords(round, s0, s1, s2, s3, s, step);
        s := step(s, RoundKey(schedule, round));
      }
      StepsAreRounds(tables.sub, step, schedule, Register(), 9);
      r := LastRoundByte(s0, s);
    }

    method LastRoundByte(s0: Word, ghost s: State) returns (r: Byte)
      requires KeysValid() && s0 == WordOf(s.c0)
      ensures r == AddRoundKey(ShiftRows(SubBytes(tables.sub, s)), RoundKey(schedule, 10)).c0.r0
    {
      WordBytes(s.c0);
      WordBytes(schedule[40]);
      r := Add(tables.sbox[s0 / 0x1_000000], roundKeys[40] / 0x1_000000);
    }

    method FirstRoundWords() returns (s0: Word, s1: Word, s2: Word, s3: Word)
      requires KeysValid()
      ensures Holds(Rounds(tables.sub, schedule, Register(), 0), s0, s1, s2, s3)
    {
      ghost var loaded := Load(Register());
      XorWord(loaded.c0, schedule[0]);
      XorWord(loaded.c1, schedule[1]);
      XorWord(loaded.c2, schedule[2]);
      XorWord(loaded.c3, schedule[3]);
      s0 := Xor(LoadWord(feedback[..], 0), roundKeys[0]);
      s1 := Xor(LoadWord(feedback[..], 4), roundKeys[1]);
      s2 := Xor(LoadWord(feedback[..], 8), roundKeys[2]);
      s3 := Xor(LoadWord(feedback[..], 12), roundKeys[3]);
    }

    /** The body of the round loop: four table lookups and a round key word for each column. */
    method RoundWords(round: nat, s0: Word, s1: Word, s2: Word, s3: Word,
                      ghost s: State, ghost step: (State, State) -> State)
      returns (t0: Word, t1: Word, t2: Word, t3: Word)
      requires KeysValid() && 1 <= round < 10 && Holds(s, s0, s1, s2, s3)
      requires IsRoundFunction(tables.sub, step)
      ensures Holds(step(s, RoundKey(schedule, round)), t0, t1, t2, t3)
    {
      var key := round * 4;
      t0, t1 := RoundPair(s0, s1, s2, s3, key, s.c0, s.c1, s.c2, s.c3);
      t2, t3 := RoundPair(s2, s3, s0, s1, key + 2, s.c2, s.c3, s.c0, s.c1);
      StepHolds(tables.sub, step, s, schedule[key], schedule[key + 1], schedule[key + 2], schedule[key + 2 + 1],
        t0, t1, t2, t3);
    }

    /** Two neighbouring words of the new state. */
    method RoundPair(a: Word, b: Word, c: Word, d: Word, key: nat,
                     ghost p: Column, ghost q: Column, ghost u: Column, ghost v: Column)
      returns (t: Word, t': Word)
      requires KeysValid() && key + 1 < 44
      requires a == WordOf(p) && b == WordOf(q) && c == WordOf(u) && d == WordOf(v)
      ensures t == WordOf(RoundColumn(tables.sub, p, q, u, v, schedule[key]))
      ensures t' == WordOf(RoundColumn(tables.sub, q, u, v, p, schedule[key + 1]))
    {
      t := RoundWord(a, b, c, d, key, p, q, u, v);
      t' := RoundWord(b, c, d, a, key + 1, q, u, v, p);
    }

    method RoundWord(a: Word, b: Word, c: Word, d: Word, key: nat,
                     ghost p: Column, ghost q: Column, ghost u: Column, ghost v: Column)
      returns (t: Word)
      requires KeysValid() && key < 44
      requires a == WordOf(p) && b == WordOf(q) && c == WordOf(u) && d == WordOf(v)
      ensures t == WordOf(RoundColumn(tables.sub, p, q, u, v, schedule[key]))
    {
      ExtractBytes(p, q, u, v);
      var i0, i1, i2, i3 := a / 0x1_000000, b / 0x1_0000 % 0x100, c / 0x100 % 0x100, d % 0x100;
      var x0, x1, x2, x3 := tables.Lookup(i0, i1, i2, i3);
      TableColumn(tables.sub[p.r0], tables.sub[q.r1], tables.sub[u.r2], tables.sub[v.r3], schedule[key]);
      t := Xor(Xor(Xor(Xor(x0, x1), x2), x3), roundKeys[key]);
    }

    method SubstituteWord(value: Word, ghost column: Column) returns (r: Word)
      requires tables.Valid() && value == WordOf(column)
      ensures r == WordOf(SubWord(tables.sub, column))
    {
      WordBytes(column);
      var c := ColumnOf(value);
      r := WordOf(Column(tables.sbox[c.r0], tables.sbox[c.r1], tables.sbox[c.r2], tables.sbox[c.r3]));
    }
  }

  /** The same mask under two names makes the same bytes. */
  lemma {:induction false} SameMask(e: Keystream, f: Keystream, encrypting: bool, register: Block,
                                    chunks: seq<seq<Byte>>)
    requires forall r: Block :: e(r) == f(r)
    ensures Calls(e, encrypting, register, chunks) == Calls(f, encrypting, register, chunks)
    decreases |chunks|
  {
    if chunks != [] {
      SameMaskOnce(e, f, encrypting, register, chunks[0]);
      SameMask(e, f, encrypting, Final(e, encrypting, register, chunks[0]), chunks[1..]);
    }
  }

  lemma {:induction false} SameMaskOnce(e: Keystream, f: Keystream, encrypting: bool, register: Block,
                                        source: seq<Byte>)
    requires forall r: Block :: e(r) == f(r)
    ensures Output(e, encrypting, register, source) == Output(f, encrypting, register, source)
    ensures Final(e, encrypting, register, source) == Final(f, encrypting, register, source)
    decreases |source|
  {
    if source != [] {
      SameMaskOnce(e, f, encrypting, Segment(e, encrypting, register, source[0]).1, source[1..]);
    }
  }

  lemma MasksAgree(e: Keystream, f: Keystream, sub: SubTable, w: KeySchedule)
    requires IsMask(e, sub, w) && IsMask(f, sub, w)
    ensures forall r: Block :: e(r) == f(r)
  {
    forall r: Block ensures e(r) == f(r) {
      assert Masked(r);
    }
  }

  /**
   Two objects with one key and one IV: what the first makes of any calls, cut anew by `recut`, gives the
   second the plaintext back.
   */
  method Exchange(tables: Tables, key: array<Byte>, iv: array<Byte>, sent: seq<seq<Byte>>,
                  recut: seq<seq<Byte>> -> seq<seq<Byte>>)
    returns (heard: seq<seq<Byte>>)
    requires tables.Valid() && key.Length == 16 && iv.Length == 16
    requires forall i :: 0 <= i < |sent| ==> |sent[i]| < 0x8000_0000
    requires forall x: seq<seq<Byte>> :: Concat(recut(x)) == Concat(x)
    requires forall x: seq<seq<Byte>>, i :: 0 <= i < |recut(x)| ==> |recut(x)[i]| < 0x8000_0000
    ensures Concat(heard) == Concat(sent)
  {
    var sender := new BrowserAesCfb8(ENCRYPT_MODE, key, iv, tables);
    var receiver := new BrowserAesCfb8(DECRYPT_MODE, key, iv, tables);
    var wire := sender.UpdateEach(sent);
    heard := receiver.UpdateEach(recut(wire));
    MasksAgree(sender.mask, receiver.mask, tables.sub, sender.schedule);
    SameMask(sender.mask, receiver.mask, false, iv[..], recut(wire));
    RoundTrip(sender.mask, iv[..], sent, recut(wire));
  }

  /** The words of the four new columns are those of the new state. */
  lemma StepHolds(sub: SubTable, step: (State, State) -> State, s: State,
                  k0: Column, k1: Column, k2: Column, k3: Column, t0: Word, t1: Word, t2: Word, t3: Word)
    requires IsRoundFunction(sub, step)
    requires t0 == WordOf(RoundColumn(sub, s.c0, s.c1, s.c2, s.c3, k0))
    requires t1 == WordOf(RoundColumn(sub, s.c1, s.c2, s.c3, s.c0, k1))
    requires t2 == WordOf(RoundColumn(sub, s.c2, s.c3, s.c0, s.c1, k2))
    requires t3 == WordOf(RoundColumn(sub, s.c3, s.c0, s.c1, s.c2, k3))
    ensures Holds(step(s, State(k0, k1, k2, k3)), t0, t1, t2, t3)
  {
    StepColumns(sub, step, s, State(k0, k1, k2, k3));
  }

  lemma RotatedWord(c: Column)
    ensures RotateLeft8(WordOf(c)) == WordOf(RotWord(c))
  {
    WordBytes(c);
    var low := (c.r1 * 256 + c.r2) * 256 + c.r3;
    DivUnique(WordOf(c), 0x1_000000, c.r0, low);
  }

  lemma RconWord(rcon: Byte)
    ensures rcon * 0x1_000000 == WordOf(Column(rcon, 0, 0, 0))
  {
  }

  method NextRcon(rcon: Byte, ghost turn: nat, ghost powers: seq<Byte>) returns (next: Byte)
    requires IsRcon(powers) && turn + 1 < |powers| && rcon == powers[turn]
    ensures next == powers[turn + 1]
  {
    assert At(turn) && At(turn + 1);
    MulTwo(rcon);
    next := Xtime(rcon);
  }

  lemma ExtractBytes(p: Column, q: Column, u: Column, v: Column)
    ensures WordOf(p) / 0x1_000000 == p.r0
    ensures WordOf(q) / 0x1_0000 % 0x100 == q.r1
    ensures WordOf(u) / 0x100 % 0x100 == u.r2
    ensures WordOf(v) % 0x100 == v.r3
  {
    WordBytes(p);
    WordBytes(q);
    WordBytes(u);
    WordBytes(v);
  }

  /** The four state words hold the four columns of a FIPS 197 state. */
  ghost predicate Holds(s: State, s0: Word, s1: Word, s2: Word, s3: Word) {
    s0 == WordOf(s.c0) && s1 == WordOf(s.c1) && s2 == WordOf(s.c2) && s3 == WordOf(s.c3)
  }

  /** Integer.rotateLeft(value, 8). */
  function RotateLeft8(value: Word): Word {
    value % 0x1_000000 * 0x100 + value / 0x1_000000
  }

  function ColumnOf(value: Word): Column {
    Column(value / 0x1_000000, value / 0x1_0000 % 0x100, value / 0x100 % 0x100, value % 0x100)
  }

  function LoadWord(bytes: seq<Byte>, offset: nat): Word
    requires offset + 4 <= |bytes|
  {
    WordOf(Column(bytes[offset], bytes[offset + 1], bytes[offset + 2], bytes[offset + 3]))
  }
}