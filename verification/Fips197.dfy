/** The AES-128 cipher as FIPS 197 writes it: sections 4.2, 5.1 and 5.2. */
module Fips197 {
  import opened Bits
  import opened Gf256
  import opened GfInverse

  /** A four-byte word; in the state, one column. */
  datatype Column = Column(r0: Byte, r1: Byte, r2: Byte, r3: Byte)

  datatype State = State(c0: Column, c1: Column, c2: Column, c3: Column)

  type Block = s: seq<Byte> | |s| == 16 witness seq(16, _ => 0)

  // ------------------------------------------------------------ SubBytes

  /** The multiplicative inverse, chosen by its defining property. */
  ghost function Inverse(v: Byte): (w: Byte)
    ensures IsInverse(v, w)
  {
    InverseExists(v);
    var w: Byte :| IsInverse(v, w);
    w
  }

  lemma InverseExists(v: Byte)
    ensures exists w: Byte :: IsInverse(v, w)
  {
    if v == 0 {
      assert IsInverse(v, 0);
    } else {
      PowInverse(v);
    }
  }

  /** The affine map of section 5.1.1: digit i is the sum of digits i, i+4, i+5, i+6, i+7 and c(i). */
  function Affine(d: Digits): Digits {
    Digits(
      Sum5(d.b0, d.b4, d.b5, d.b6, d.b7) != true,
      Sum5(d.b1, d.b5, d.b6, d.b7, d.b0) != true,
      Sum5(d.b2, d.b6, d.b7, d.b0, d.b1) != false,
      Sum5(d.b3, d.b7, d.b0, d.b1, d.b2) != false,
      Sum5(d.b4, d.b0, d.b1, d.b2, d.b3) != false,
      Sum5(d.b5, d.b1, d.b2, d.b3, d.b4) != true,
      Sum5(d.b6, d.b2, d.b3, d.b4, d.b5) != true,
      Sum5(d.b7, d.b3, d.b4, d.b5, d.b6) != false)
  }

  predicate Sum5(a: bool, b: bool, c: bool, d: bool, e: bool) {
    (((a != b) != c) != d) != e
  }

  function Weight(b: bool): (w: nat)
    ensures w <= 1
  {
    if b then 1 else 0
  }

  function FromDigits(d: Digits): Byte {
    Weight(d.b0) + 2 * Weight(d.b1) + 4 * Weight(d.b2) + 8 * Weight(d.b3)
    + 16 * Weight(d.b4) + 32 * Weight(d.b5) + 64 * Weight(d.b6) + 128 * Weight(d.b7)
  }

  /** The substitution of one byte: inverse, then affine map. */
  ghost function Sbox(v: Byte): Byte {
    FromDigits(Affine(DigitsOf(Inverse(v))))
  }

  /** A substitution table; the rest of the cipher is defined over any. */
  type SubTable = s: seq<Byte> | |s| == 256 witness seq(256, _ => 0)

  /** The S-box in table form (figure 7). */
  ghost predicate IsSbox(sub: SubTable) {
    forall v: Byte :: sub[v] == Sbox(v)
  }

  ghost function SboxTable(): (sub: SubTable)
    ensures IsSbox(sub)
  {
    seq(256, v requires 0 <= v < 256 => Sbox(v))
  }

  // --------------------------------------------------------- the rounds

  function AddColumn(a: Column, b: Column): Column {
    Column(Add(a.r0, b.r0), Add(a.r1, b.r1), Add(a.r2, b.r2), Add(a.r3, b.r3))
  }

  function SubWord(sub: SubTable, a: Column): Column {
    Column(sub[a.r0], sub[a.r1], sub[a.r2], sub[a.r3])
  }

  function RotWord(a: Column): Column {
    Column(a.r1, a.r2, a.r3, a.r0)
  }

  function SubBytes(sub: SubTable, s: State): State {
    State(SubWord(sub, s.c0), SubWord(sub, s.c1), SubWord(sub, s.c2), SubWord(sub, s.c3))
  }

  /** Row r moves left by r columns. */
  function ShiftRows(s: State): State {
    State(Column(s.c0.r0, s.c1.r1, s.c2.r2, s.c3.r3),
          Column(s.c1.r0, s.c2.r1, s.c3.r2, s.c0.r3),
          Column(s.c2.r0, s.c3.r1, s.c0.r2, s.c1.r3),
          Column(s.c3.r0, s.c0.r1, s.c1.r2, s.c2.r3))
  }

  function MixColumn(a: Column): Column {
    Column(Add(Add(Add(Mul(2, a.r0), Mul(3, a.r1)), a.r2), a.r3),
           Add(Add(Add(a.r0, Mul(2, a.r1)), Mul(3, a.r2)), a.r3),
           Add(Add(Add(a.r0, a.r1), Mul(2, a.r2)), Mul(3, a.r3)),
           Add(Add(Add(Mul(3, a.r0), a.r1), a.r2), Mul(2, a.r3)))
  }

  function MixColumns(s: State): State {
    State(MixColumn(s.c0), MixColumn(s.c1), MixColumn(s.c2), MixColumn(s.c3))
  }

  /** Section 5.2, word i of the expanded key. */
  function KeyWord(sub: SubTable, key: Block, i: nat): Column {
    if i < 4 then
      Column(key[4 * i], key[4 * i + 1], key[4 * i + 2], key[4 * i + 3])
    else
      AddColumn(KeyWord(sub, key, i - 4), KeyTemp(sub, KeyWord(sub, key, i - 1), i))
  }

  function KeyTemp(sub: SubTable, previous: Column, i: nat): Column
    requires i >= 4
  {
    if i % 4 == 0 then
      AddColumn(SubWord(sub, RotWord(previous)), Column(Pow(2, i / 4 - 1), 0, 0, 0))
    else
      previous
  }

  type KeySchedule = w: seq<Column> | |w| == 44 witness seq(44, _ => Column(0, 0, 0, 0))

  function Schedule(sub: SubTable, key: Block): KeySchedule {
    seq(44, i requires 0 <= i < 44 => KeyWord(sub, key, i))
  }

  /** The recurrence of the key expansion, on the schedule itself; instantiated where At is mentioned. */
  ghost predicate IsSchedule(sub: SubTable, key: Block, w: KeySchedule) {
    forall i: nat {:trigger At(i)} :: i < 44 ==>
      w[i] == if i < 4 then Column(key[4 * i], key[4 * i + 1], key[4 * i + 2], key[4 * i + 3])
              else AddColumn(w[i - 4], KeyTemp(sub, w[i - 1], i))
  }

  predicate At(i: nat) { true }

  /** The round constants x^0, x^1, ...; a definition is at hand only where At is mentioned. */
  ghost predicate IsRcon(powers: seq<Byte>) {
    forall j: nat {:trigger At(j)} :: j < |powers| ==> powers[j] == Pow(2, j)
  }

  lemma RconPowers(n: nat) returns (powers: seq<Byte>)
    ensures |powers| == n && IsRcon(powers)
  {
    powers := seq(n, j requires 0 <= j < n => Pow(2, j));
  }

  lemma ScheduleRecurrence(sub: SubTable, key: Block)
    ensures IsSchedule(sub, key, Schedule(sub, key))
  {
  }

  function RoundKey(w: KeySchedule, round: nat): State
    requires round <= 10
  {
    State(w[4 * round], w[4 * round + 1], w[4 * round + 2], w[4 * round + 3])
  }

  function AddRoundKey(s: State, k: State): State {
    State(AddColumn(s.c0, k.c0), AddColumn(s.c1, k.c1), AddColumn(s.c2, k.c2), AddColumn(s.c3, k.c3))
  }

  function Load(input: Block): State {
    State(Column(input[0], input[1], input[2], input[3]),
          Column(input[4], input[5], input[6], input[7]),
          Column(input[8], input[9], input[10], input[11]),
          Column(input[12], input[13], input[14], input[15]))
  }

  /** The state after the given number of full rounds. */
  function Rounds(sub: SubTable, w: KeySchedule, input: Block, rounds: nat): State
    requires rounds <= 10
  {
    Steps((s: State, k: State) => FullRound(sub, s, k), w, AddRoundKey(Load(input), RoundKey(w, 0)), rounds)
  }

  function Steps(step: (State, State) -> State, w: KeySchedule, start: State, rounds: nat): State
    requires rounds <= 10
  {
    if rounds == 0 then start else step(Steps(step, w, start, rounds - 1), RoundKey(w, rounds))
  }

  function FullRound(sub: SubTable, s: State, k: State): State {
    AddRoundKey(MixColumns(ShiftRows(SubBytes(sub, s))), k)
  }

  /** One column of a full round: row r comes from the column r places to the right. */
  function RoundColumn(sub: SubTable, a: Column, b: Column, c: Column, d: Column, k: Column): Column {
    AddColumn(MixColumn(SubWord(sub, Column(a.r0, b.r1, c.r2, d.r3))), k)
  }

  lemma FullRoundColumns(sub: SubTable, s: State, k: State)
    ensures FullRound(sub, s, k) == State(
      RoundColumn(sub, s.c0, s.c1, s.c2, s.c3, k.c0), RoundColumn(sub, s.c1, s.c2, s.c3, s.c0, k.c1),
      RoundColumn(sub, s.c2, s.c3, s.c0, s.c1, k.c2), RoundColumn(sub, s.c3, s.c0, s.c1, s.c2, k.c3))
  {
  }

  /** A round function under another name; its definition is at hand only where Unfold is mentioned. */
  ghost predicate IsRoundFunction(sub: SubTable, step: (State, State) -> State) {
    forall s: State, k: State {:trigger Unfold(s, k)} :: step(s, k) == FullRound(sub, s, k)
  }

  predicate Unfold(s: State, k: State) { true }

  lemma RoundFunction(sub: SubTable) returns (step: (State, State) -> State)
    ensures IsRoundFunction(sub, step)
  {
    step := (s: State, k: State) => FullRound(sub, s, k);
  }

  /** The columns that a round function makes. */
  lemma StepColumns(sub: SubTable, step: (State, State) -> State, s: State, k: State)
    requires IsRoundFunction(sub, step)
    ensures step(s, k).c0 == RoundColumn(sub, s.c0, s.c1, s.c2, s.c3, k.c0)
    ensures step(s, k).c1 == RoundColumn(sub, s.c1, s.c2, s.c3, s.c0, k.c1)
    ensures step(s, k).c2 == RoundColumn(sub, s.c2, s.c3, s.c0, s.c1, k.c2)
    ensures step(s, k).c3 == RoundColumn(sub, s.c3, s.c0, s.c1, s.c2, k.c3)
  {
    assert Unfold(s, k);
    FullRoundColumns(sub, s, k);
  }

  lemma {:induction false} StepsEqual(f: (State, State) -> State, g: (State, State) -> State,
                                      w: KeySchedule, start: State, rounds: nat)
    requires forall s: State, k: State :: f(s, k) == g(s, k)
    requires rounds <= 10
    ensures Steps(f, w, start, rounds) == Steps(g, w, start, rounds)
    decreases rounds
  {
    if rounds != 0 { StepsEqual(f, g, w, start, rounds - 1); }
  }

  lemma StepsAreRounds(sub: SubTable, step: (State, State) -> State, w: KeySchedule, input: Block, rounds: nat)
    requires IsRoundFunction(sub, step) && rounds <= 10
    ensures Steps(step, w, Rounds(sub, w, input, 0), rounds) == Rounds(sub, w, input, rounds)
  {
    var full := (s: State, k: State) => FullRound(sub, s, k);
    forall s: State, k: State ensures step(s, k) == full(s, k) {
      assert Unfold(s, k);
    }
    StepsEqual(step, full, w, Rounds(sub, w, input, 0), rounds);
  }

  /** Section 5.1 with ten rounds, the last one without MixColumns. */
  function Cipher(sub: SubTable, w: KeySchedule, input: Block): State {
    AddRoundKey(ShiftRows(SubBytes(sub, Rounds(sub, w, input, 9))), RoundKey(w, 10))
  }

  /** The most significant byte of the cipher block: all that CFB with eight-bit segments uses. */
  ghost function FirstByte(key: Block, input: Block): Byte {
    var sub := SboxTable();
    Cipher(sub, Schedule(sub, key), input).c0.r0
  }
}
