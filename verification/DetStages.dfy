/**
 The deterministic stages of `fuzz_one`: walking bit and byte flips with the effector map,
 arithmetics and interesting values.  The specification of a stage is the list of test cases it
 gives to the target, in order, as a function of the input.

 Buffer accesses of 16 and 32 bits are little endian.  Stages are not abandoned.
 */
module DetStages {
  import opened Bytes
  import opened DupTests

  const EFF_MIN_LEN := 128
  const EFF_MAX_PERC := 90

  // ----- words in a buffer -----

  function Range(w: nat): (r: nat)
    ensures r > 0
  {
    if w == 0 then 1 else 0x100 * Range(w - 1)
  }

  function Peek(buf: seq<byte>, i: nat, w: nat): (v: nat)
    requires i + w <= |buf|
    ensures v < Range(w)
    decreases w
  {
    if w == 0 then 0 else buf[i] as int + 0x100 * Peek(buf, i + 1, w - 1)
  }

  function Poke(buf: seq<byte>, i: nat, w: nat, v: nat): (r: seq<byte>)
    requires i + w <= |buf|
    ensures |r| == |buf|
    decreases w
  {
    if w == 0 then buf else Poke(buf[i := (v % 0x100) as byte], i + 1, w - 1, v / 0x100)
  }

  /** The two buffers differ at most in the w bytes at i. */
  predicate AgreeOutside(a: seq<byte>, b: seq<byte>, i: nat, w: nat) {
    |a| == |b| && forall k :: 0 <= k < |a| && !(i <= k < i + w) ==> a[k] == b[k]
  }

  lemma {:induction false} PokeAgrees(a: seq<byte>, b: seq<byte>, i: nat, w: nat, v: nat)
    requires AgreeOutside(a, b, i, w) && i + w <= |a|
    ensures Poke(a, i, w, v) == Poke(b, i, w, v)
    ensures AgreeOutside(Poke(a, i, w, v), b, i, w)
    decreases w
  {
    if w > 0 {
      var x := (v % 0x100) as byte;
      PokeAgrees(a[i := x], b[i := x], i + 1, w - 1, v / 0x100);
    }
  }

  lemma {:induction false} PokePeek(buf: seq<byte>, i: nat, w: nat)
    requires i + w <= |buf|
    ensures Poke(buf, i, w, Peek(buf, i, w)) == buf
    decreases w
  {
    if w > 0 {
      assert buf[i := buf[i]] == buf;
      Digits(Peek(buf, i + 1, w - 1), buf[i] as int);
      PokePeek(buf, i + 1, w - 1);
    }
  }

  lemma {:induction false} PeekElsewhere(a: seq<byte>, b: seq<byte>, i: nat, w: nat)
    requires i + w <= |a| && i + w <= |b| && forall k :: i <= k < i + w ==> a[k] == b[k]
    ensures Peek(a, i, w) == Peek(b, i, w)
    decreases w
  {
    if w > 0 {
      PeekElsewhere(a, b, i + 1, w - 1);
    }
  }

  lemma {:induction false} PeekPoke(buf: seq<byte>, i: nat, w: nat, v: nat)
    requires i + w <= |buf| && v < Range(w)
    ensures Peek(Poke(buf, i, w, v), i, w) == v
    decreases w
  {
    if w > 0 {
      var b := buf[i := (v % 0x100) as byte];
      PeekPoke(b, i + 1, w - 1, v / 0x100);
      PokeAgrees(b, b, i + 1, w - 1, v / 0x100);
    }
  }

  // ----- walking bits -----

  function Flipped(b: byte, m: nat): byte
    requires m < 0x100
  {
    XorBound(b as int, m, 8);
    Xor(b as int, m) as byte
  }

  /** The bit FLIP_BIT flips: the highest bit of a byte comes first. */
  function BitMask(k: nat): (m: nat)
    ensures m < 0x100
  {
    if k % 8 == 0 then 128 else if k % 8 == 1 then 64 else if k % 8 == 2 then 32 else if k % 8 == 3 then 16
    else if k % 8 == 4 then 8 else if k % 8 == 5 then 4 else if k % 8 == 6 then 2 else 1
  }

  /** FLIP_BIT */
  function FlipBit(buf: seq<byte>, k: nat): (r: seq<byte>)
    requires k < 8 * |buf|
    ensures |r| == |buf|
  {
    buf[k / 8 := Flipped(buf[k / 8], BitMask(k))]
  }

  function FlipBits(buf: seq<byte>, k: nat, n: nat): (r: seq<byte>)
    requires k + n <= 8 * |buf|
    ensures |r| == |buf|
  {
    if n == 0 then buf else FlipBit(FlipBits(buf, k, n - 1), k + n - 1)
  }

  lemma FlippedTwice(b: byte, m: nat, n: nat)
    requires m < 0x100 && n < 0x100
    ensures Flipped(Flipped(b, m), m) == b
    ensures Flipped(Flipped(b, m), n) == Flipped(Flipped(b, n), m)
  {
    var v := b as int;
    XorSolves(v, m, 0);
    XorAssociates(v, m, n);
    XorAssociates(v, n, m);
    XorCommutes(m, n);
  }

  lemma FlipBitCommutes(buf: seq<byte>, j: nat, k: nat)
    requires j < 8 * |buf| && k < 8 * |buf|
    ensures FlipBit(FlipBit(buf, j), k) == FlipBit(FlipBit(buf, k), j)
    ensures FlipBit(FlipBit(buf, k), k) == buf
  {
    hide Flipped, BitMask;
    FlippedTwice(buf[j / 8], BitMask(j), BitMask(k));
    FlippedTwice(buf[k / 8], BitMask(k), BitMask(k));
  }

  lemma {:induction false} FlipBitsCommute(buf: seq<byte>, j: nat, k: nat, n: nat)
    requires j < 8 * |buf| && k + n <= 8 * |buf|
    ensures FlipBits(FlipBit(buf, j), k, n) == FlipBit(FlipBits(buf, k, n), j)
    decreases n
  {
    hide FlipBit;
    if n > 0 {
      FlipBitsCommute(buf, j, k, n - 1);
      FlipBitCommutes(FlipBits(buf, k, n - 1), j, k + n - 1);
    }
  }

  /** Flipping the same bits a second time restores the buffer. */
  lemma {:induction false} FlipBitsUndo(buf: seq<byte>, k: nat, n: nat)
    requires k + n <= 8 * |buf|
    ensures FlipBits(FlipBits(buf, k, n), k, n) == buf
    decreases n
  {
    hide FlipBit;
    if n > 0 {
      var f := FlipBits(buf, k, n - 1);
      FlipBitsUndo(buf, k, n - 1);
      FlipBitsCommute(f, k + n - 1, k, n - 1);
      FlipBitCommutes(buf, k + n - 1, k + n - 1);
    }
  }

  /** The test cases of the walking flip of n bits, up to bit c. */
  function FlipLog(buf: seq<byte>, n: nat, c: nat): (log: seq<seq<byte>>)
    requires c == 0 || c - 1 + n <= 8 * |buf|
    ensures |log| == c
    ensures forall k: nat :: k < c ==> log[k] == FlipBits(buf, k, n)
    decreases c
  {
    if c == 0 then [] else FlipLog(buf, n, c - 1) + [FlipBits(buf, c - 1, n)]
  }

  // ----- walking byte and effector map -----

  /** The checksum of the execution path for each test case, the path of the input itself, and
      whether the fuzzer runs without instrumentation. */
  datatype Target = Target(cksum: seq<byte> -> int, execCksum: int, dumb: bool)

  function FlipByte(buf: seq<byte>, i: nat): (r: seq<byte>)
    requires i < |buf|
    ensures |r| == |buf|
  {
    buf[i := Flipped(buf[i], 0xff)]
  }

  function Flip8Log(buf: seq<byte>, c: nat): (log: seq<seq<byte>>)
    requires c <= |buf|
    ensures |log| == c
    ensures forall i: nat :: i < c ==> log[i] == FlipByte(buf, i)
    decreases c
  {
    if c == 0 then [] else Flip8Log(buf, c - 1) + [FlipByte(buf, c - 1)]
  }

  /** Flipping byte i changes the path; without instrumentation or in a short file, always. */
  predicate HasEffect(buf: seq<byte>, t: Target, i: nat)
    requires i < |buf|
  {
    !t.dumb && |buf| >= EFF_MIN_LEN ==> t.cksum(FlipByte(buf, i)) != t.execCksum
  }

  function EffAlen(len: nat): nat {
    len / 8 + if len % 8 != 0 then 1 else 0
  }

  function Falses(n: nat): (m: seq<bool>)
    ensures |m| == n && forall c :: 0 <= c < n ==> !m[c]
  {
    if n == 0 then [] else Falses(n - 1) + [false]
  }

  function Trues(n: nat): (m: seq<bool>)
    ensures |m| == n && forall c :: 0 <= c < n ==> m[c]
  {
    if n == 0 then [] else Trues(n - 1) + [true]
  }

  /** The effector map after the first i flips: the first and the last cell are always set. */
  function EffAfter(buf: seq<byte>, t: Target, i: nat): (m: seq<bool>)
    requires buf != [] && i <= |buf|
    ensures |m| == EffAlen(|buf|)
    decreases i
  {
    if i == 0 then Falses(EffAlen(|buf|))[0 := true][(|buf| - 1) / 8 := true]
    else
      var m := EffAfter(buf, t, i - 1);
      if HasEffect(buf, t, i - 1) then m[(i - 1) / 8 := true] else m
  }

  function CountSet(m: seq<bool>): (n: nat)
    ensures n <= |m|
  {
    if m == [] then 0 else CountSet(m[..|m| - 1]) + if m[|m| - 1] then 1 else 0
  }

  lemma {:induction false} CountSetOne(m: seq<bool>, c: nat)
    requires c < |m|
    ensures CountSet(m[c := true]) == CountSet(m) + if m[c] then 0 else 1
  {
    var n := |m| - 1;
    if c < n {
      assert m[c := true][..n] == m[..n][c := true];
      CountSetOne(m[..n], c);
    } else {
      assert m[c := true][..n] == m[..n];
    }
  }

  lemma {:induction false} CountSetNone(n: nat)
    ensures CountSet(Falses(n)) == 0
  {
    if n > 0 {
      assert Falses(n)[..n - 1] == Falses(n - 1);
      CountSetNone(n - 1);
    }
  }

  /** More than EFF_MAX_PERC of the map is set, but not all. */
  predicate Dense(m: seq<bool>)
    requires m != []
  {
    CountSet(m) != |m| && CountSet(m) * 100 / |m| > EFF_MAX_PERC
  }

  /** `eff_map` when the walking byte flip is over. */
  function EffMap(buf: seq<byte>, t: Target): (m: seq<bool>)
    requires buf != []
    ensures |m| == EffAlen(|buf|)
  {
    var m := EffAfter(buf, t, |buf|);
    if Dense(m) then Trues(|m|) else m
  }

  /** A cell is set if and only if the map was too dense to keep, the cell is at an end, or one of
      its eight bytes has an effect. */
  lemma EffMapMeaning(buf: seq<byte>, t: Target, c: nat)
    requires c < EffAlen(|buf|)
    ensures EffMap(buf, t)[c] <==>
              || Dense(EffAfter(buf, t, |buf|)) || c == 0 || c == (|buf| - 1) / 8
              || exists k: nat :: k < |buf| && k / 8 == c && HasEffect(buf, t, k)
  {
    EffAfterMeaning(buf, t, |buf|, c);
  }

  lemma {:induction false} EffAfterMeaning(buf: seq<byte>, t: Target, i: nat, c: nat)
    requires i <= |buf| && c < EffAlen(|buf|)
    ensures EffAfter(buf, t, i)[c] <==>
              c == 0 || c == (|buf| - 1) / 8 || exists k: nat :: k < i && k / 8 == c && HasEffect(buf, t, k)
    decreases i
  {
    hide HasEffect;
    if i > 0 {
      EffAfterMeaning(buf, t, i - 1, c);
    }
  }

  /** Some byte of the word has its cell set. */
  predicate AnyEff(eff: seq<bool>, i: nat, w: nat)
    requires w > 0 ==> (i + w - 1) / 8 < |eff|
    decreases w
  {
    w > 0 && (eff[i / 8] || AnyEff(eff, i + 1, w - 1))
  }

  // ----- stages that replace words -----

  /** What a stage does with one candidate value: leave it to an earlier stage, or run it. */
  datatype Try = Skip | Put(value: nat)

  ghost function Tried(go: bool, v: nat): Try {
    if go then Put(v) else Skip
  }

  ghost function Puts(ts: seq<Try>): nat {
    if ts == [] then 0 else Puts(ts[..|ts| - 1]) + if ts[|ts| - 1].Put? then 1 else 0
  }

  /** The test cases of one position. */
  ghost function PosLog(buf: seq<byte>, i: nat, w: nat, ts: seq<Try>): (log: seq<seq<byte>>)
    requires i + w <= |buf|
    ensures |log| == Puts(ts)
  {
    if ts == [] then []
    else
      var t := ts[|ts| - 1];
      PosLog(buf, i, w, ts[..|ts| - 1]) + if t.Put? then [Poke(buf, i, w, t.value)] else []
  }

  datatype Stage = Flip16 | Flip32 | Arith8 | Arith16 | Arith32 | Interest8 | Interest16 | Interest32

  function Span(stage: Stage): (w: nat) {
    if stage.Flip32? || stage.Arith32? || stage.Interest32? then 4
    else if stage.Arith8? || stage.Interest8? then 1
    else 2
  }

  /** orig ^ v is not left to the bit flips. */
  ghost predicate Fresh(orig: nat, v: nat) {
    !IsBitflip(Xor(orig, v))
  }

  ghost function Arith8Step(orig: nat, j: int): seq<Try> {
    var up, down := Moved(orig, j, 0x100), Moved(orig, -j, 0x100);
    [Tried(Fresh(orig, up), up), Tried(Fresh(orig, down), down)]
  }

  ghost function Arith16Step(orig: U16, j: int): seq<Try> {
    var up, down := Moved(orig, j, 0x1_0000), Moved(orig, -j, 0x1_0000);
    var beUp, beDown := Swap16(Moved(Swap16(orig), j, 0x1_0000)), Swap16(Moved(Swap16(orig), -j, 0x1_0000));
    [Tried(orig % 0x100 + j > 0xff && Fresh(orig, up), up),
     Tried(orig % 0x100 < j && Fresh(orig, down), down),
     Tried(orig / 0x100 + j > 0xff && Fresh(orig, beUp), beUp),
     Tried(orig / 0x100 < j && Fresh(orig, beDown), beDown)]
  }

  ghost function Arith32Step(orig: U32, j: int): seq<Try> {
    var be := Swap32(orig);
    var up, down := Moved(orig, j, 0x1_0000_0000), Moved(orig, -j, 0x1_0000_0000);
    var beUp, beDown := Swap32(Moved(be, j, 0x1_0000_0000)), Swap32(Moved(be, -j, 0x1_0000_0000));
    [Tried(orig % 0x1_0000 + j > 0xffff && Fresh(orig, up), up),
     Tried(orig % 0x1_0000 < j && Fresh(orig, down), down),
     Tried(be % 0x1_0000 + j > 0xffff && Fresh(orig, beUp), beUp),
     Tried(be % 0x1_0000 < j && Fresh(orig, beDown), beDown)]
  }

  ghost function Interest8Step(orig: nat, v: int): seq<Try>
    requires orig < 0x100
  {
    var u := v % 0x100;
    [Tried(!(IsBitflip(Xor(orig, u)) || IsArith(orig, u, 1)), u)]
  }

  ghost function Interest16Step(orig: U16, v: int): seq<Try> {
    var le := v % 0x1_0000;
    var be := Swap16(le);
    [Tried(Fresh(orig, le) && !IsArith(orig, le, 2) && !IsInterest(orig, le, 2, false), le),
     Tried(le != be && Fresh(orig, be) && !IsArith(orig, be, 2) && !IsInterest(orig, be, 2, true), be)]
  }

  ghost function Interest32Step(orig: U32, v: int): seq<Try> {
    var le := v % 0x1_0000_0000;
    var be := Swap32(le);
    [Tried(Fresh(orig, le) && !IsArith(orig, le, 4) && !IsInterest(orig, le, 4, false), le),
     Tried(le != be && Fresh(orig, be) && !IsArith(orig, be, 4) && !IsInterest(orig, be, 4, true), be)]
  }

  /** Candidates for the offsets 1 to j. */
  ghost function ArithTries(stage: Stage, orig: U32, j: nat): seq<Try>
    requires orig < Range(Span(stage))
  {
    if j == 0 then []
    else
      ArithTries(stage, orig, j - 1) + (
      if stage.Arith8? then Arith8Step(orig, j)
      else if Span(stage) == 2 then Arith16Step(orig, j)
      else Arith32Step(orig, j))
  }

  /** Candidates for the first j interesting values. */
  ghost function InterestTries(stage: Stage, orig: U32, values: seq<int>, j: nat): seq<Try>
    requires orig < Range(Span(stage)) && j <= |values|
    decreases j
  {
    if j == 0 then []
    else
      InterestTries(stage, orig, values, j - 1) + (
      if Span(stage) == 1 then Interest8Step(orig, values[j - 1])
      else if Span(stage) == 2 then Interest16Step(orig, values[j - 1])
      else Interest32Step(orig, values[j - 1]))
  }

  /** All candidates of a stage for one word. */
  ghost function Tries(stage: Stage, orig: U32): seq<Try>
    requires orig < Range(Span(stage))
  {
    match stage
    case Flip16 => [Put(Xor(orig, 0xffff))]
    case Flip32 => [Put(Xor(orig, 0xffffffff))]
    case Arith8 => ArithTries(stage, orig, ARITH_MAX)
    case Arith16 => ArithTries(stage, orig, ARITH_MAX)
    case Arith32 => ArithTries(stage, orig, ARITH_MAX)
    case Interest8 => InterestTries(stage, orig, INTERESTING_8, |INTERESTING_8|)
    case Interest16 => InterestTries(stage, orig, INTERESTING_16, |INTERESTING_16|)
    case Interest32 => InterestTries(stage, orig, INTERESTING_32, |INTERESTING_32|)
  }

  /** How many candidates the stage counts for one word. */
  function PerWord(stage: Stage): nat {
    match stage
    case Flip16 => 1
    case Flip32 => 1
    case Arith8 => 2 * ARITH_MAX
    case Arith16 => 4 * ARITH_MAX
    case Arith32 => 4 * ARITH_MAX
    case Interest8 => |INTERESTING_8|
    case Interest16 => 2 * |INTERESTING_16|
    case Interest32 => 2 * |INTERESTING_32|
  }

  lemma {:induction false} ArithTriesCount(stage: Stage, orig: U32, j: nat)
    requires orig < Range(Span(stage))
    ensures |ArithTries(stage, orig, j)| == j * if stage.Arith8? then 2 else 4
  {
    if j > 0 {
      ArithTriesCount(stage, orig, j - 1);
    }
  }

  lemma {:induction false} InterestTriesCount(stage: Stage, orig: U32, values: seq<int>, j: nat)
    requires orig < Range(Span(stage)) && j <= |values|
    ensures |InterestTries(stage, orig, values, j)| == j * if Span(stage) == 1 then 1 else 2
  {
    if j > 0 {
      InterestTriesCount(stage, orig, values, j - 1);
    }
  }

  lemma TriesCount(stage: Stage, orig: U32)
    requires orig < Range(Span(stage))
    ensures |Tries(stage, orig)| == PerWord(stage)
  {
    hide Range;
    match stage
    case Flip16 =>
    case Flip32 =>
    case Arith8 => ArithTriesCount(stage, orig, ARITH_MAX);
    case Arith16 => ArithTriesCount(stage, orig, ARITH_MAX);
    case Arith32 => ArithTriesCount(stage, orig, ARITH_MAX);
    case Interest8 => InterestTriesCount(stage, orig, INTERESTING_8, |INTERESTING_8|);
    case Interest16 => InterestTriesCount(stage, orig, INTERESTING_16, |INTERESTING_16|);
    case Interest32 => InterestTriesCount(stage, orig, INTERESTING_32, |INTERESTING_32|);
  }

  lemma RangeOfSpan(stage: Stage)
    ensures Range(1) == 0x100 && Range(2) == 0x1_0000 && Range(4) == 0x1_0000_0000
    ensures Range(Span(stage)) <= 0x1_0000_0000
  {
    assert Range(3) == 0x100_0000;
  }

  /** The test cases of a stage for the word at i. */
  ghost function WordLog(stage: Stage, buf: seq<byte>, i: nat): seq<seq<byte>>
    requires i + Span(stage) <= |buf|
  {
    RangeOfSpan(stage);
    PosLog(buf, i, Span(stage), Tries(stage, Peek(buf, i, Span(stage))))
  }

  /** The test cases of a stage for the words before position n. */
  ghost function StageLog(stage: Stage, buf: seq<byte>, eff: seq<bool>, n: nat): seq<seq<byte>>
    requires n == 0 || n - 1 + Span(stage) <= |buf|
    requires |eff| == EffAlen(|buf|)
    decreases n
  {
    if n == 0 then []
    else
      StageLog(stage, buf, eff, n - 1) + (
      if AnyEff(eff, n - 1, Span(stage)) then WordLog(stage, buf, n - 1) else [])
  }

  /** The buffer has room for the words of all stages. */
  predicate StagesFit(stages: seq<Stage>, len: nat) {
    forall k :: 0 <= k < |stages| ==> Span(stages[k]) <= len
  }

  /** The stages that replace words, in their order. */
  function WordStages(noArith: bool, len: nat): (stages: seq<Stage>)
    requires len > 0
    ensures StagesFit(stages, len)
  {
    (if len < 2 then [] else if len < 4 then [Flip16] else [Flip16, Flip32])
    + (if noArith then [] else [Arith8] + if len < 2 then [] else if len < 4 then [Arith16] else [Arith16, Arith32])
    + [Interest8]
    + (if noArith || len < 2 then [] else if len < 4 then [Interest16] else [Interest16, Interest32])
  }

  ghost function StagesLog(stages: seq<Stage>, buf: seq<byte>, eff: seq<bool>): seq<seq<byte>>
    requires |eff| == EffAlen(|buf|)
    requires StagesFit(stages, |buf|)
  {
    if stages == [] then []
    else
      var last := stages[|stages| - 1];
      StagesLog(stages[..|stages| - 1], buf, eff) + StageLog(last, buf, eff, |buf| - Span(last) + 1)
  }

  ghost function FlipsLog(buf: seq<byte>): seq<seq<byte>>
    requires buf != []
  {
    var n := 8 * |buf|;
    FlipLog(buf, 1, n) + FlipLog(buf, 2, n - 1) + FlipLog(buf, 4, n - 3) + Flip8Log(buf, |buf|)
  }

  lemma AppendInOrder<T>(s: seq<T>, a: seq<T>, b: seq<T>, c: seq<T>, d: seq<T>)
    ensures s + a + b + c + d == s + (a + b + c + d)
  {
    assert s + a + b == s + (a + b);
    assert s + (a + b) + c == s + (a + b + c);
    assert s + (a + b + c) + d == s + (a + b + c + d);
  }

  lemma FlipsInOrder(log0: seq<seq<byte>>, log1: seq<seq<byte>>, log2: seq<seq<byte>>, log4: seq<seq<byte>>,
      log8: seq<seq<byte>>, buf: seq<byte>)
    requires buf != []
    requires log1 == log0 + FlipLog(buf, 1, 8 * |buf|) && log2 == log1 + FlipLog(buf, 2, 8 * |buf| - 1)
    requires log4 == log2 + FlipLog(buf, 4, 8 * |buf| - 3) && log8 == log4 + Flip8Log(buf, |buf|)
    ensures log8 == log0 + FlipsLog(buf)
  {
    hide FlipLog, Flip8Log;
    var n := 8 * |buf|;
    AppendInOrder(log0, FlipLog(buf, 1, n), FlipLog(buf, 2, n - 1), FlipLog(buf, 4, n - 3), Flip8Log(buf, |buf|));
  }

  /** All test cases of the deterministic stages. */
  ghost function DetLog(buf: seq<byte>, t: Target, noArith: bool): seq<seq<byte>>
    requires buf != []
  {
    FlipsLog(buf) + StagesLog(WordStages(noArith, |buf|), buf, EffMap(buf, t))
  }

  /** The initial `stage_max` for n words. */
  function StageTotal(stage: Stage, n: int): int {
    PerWord(stage) * n
  }

  lemma StageTotalStep(stage: Stage, n: int)
    ensures StageTotal(stage, n) == StageTotal(stage, n - 1) + PerWord(stage) && StageTotal(stage, 0) == 0
  {
  }
}
