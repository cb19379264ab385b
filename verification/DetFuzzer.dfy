/**
 The deterministic stages as the fuzzer runs them: in place on `out_buf`, with `stage_cur` and
 `stage_max`, each proved to give the target exactly the test cases its specification lists and to
 leave the buffer as it was.
 */
module DetFuzzer {
  import opened Bytes
  import opened DupTests
  import opened DetStages

  /** A store of w bytes. */
  method Store(buf: array<byte>, i: nat, w: nat, v: nat)
    requires i + w <= buf.Length
    modifies buf
    ensures buf[..] == Poke(old(buf[..]), i, w, v)
  {
    var k: nat, rest: nat := 0, v;
    while k < w
      invariant k <= w && Poke(buf[..], i + k, w - k, rest) == Poke(old(buf[..]), i, w, v)
    {
      ghost var before := buf[..];
      buf[i + k] := (rest % 0x100) as byte;
      assert buf[..] == before[i + k := (rest % 0x100) as byte];
      k, rest := k + 1, rest / 0x100;
    }
  }

  /** The state in which a stage starts on the word of w bytes at i. */
  datatype Mark = Mark(base: seq<byte>, i: nat, w: nat, log: seq<seq<byte>>, cur: int, max: int)

  class FuzzOne {
    const outBuf: array<byte>
    const target: Target
    var effMap: seq<bool>
    var stageCur: int
    var stageMax: int
    /** The test cases given to the target so far. */
    var log: seq<seq<byte>>

    constructor (inBuf: seq<byte>, target: Target)
      ensures fresh(outBuf) && outBuf[..] == inBuf && this.target == target && log == []
    {
      outBuf := new byte[|inBuf|](i requires 0 <= i < |inBuf| => inBuf[i]);
      this.target, effMap, stageCur, stageMax, log := target, [], 0, 0, [];
    }

    /** `common_fuzz_stuff` */
    method CommonFuzzStuff()
      modifies `log
      ensures log == old(log) + [outBuf[..]]
    {
      log := log + [outBuf[..]];
    }

    /** FLIP_BIT for n bits from bit k on. */
    method FlipAll(k: nat, n: nat)
      requires k + n <= 8 * outBuf.Length
      modifies outBuf
      ensures outBuf[..] == FlipBits(old(outBuf[..]), k, n)
    {
      hide Flipped, BitMask;
      var j := 0;
      while j < n
        invariant 0 <= j <= n && outBuf[..] == FlipBits(old(outBuf[..]), k, j)
      {
        outBuf[(k + j) / 8] := Flipped(outBuf[(k + j) / 8], BitMask(k + j));
        j := j + 1;
      }
    }

    /** bitflip 1/1, 2/1 and 4/1: all test cases, and the buffer as it was. */
    method WalkingBits(n: nat)
      requires 1 <= n <= 4 && outBuf.Length > 0
      modifies outBuf, `stageCur, `stageMax, `log
      ensures outBuf[..] == old(outBuf[..])
      ensures stageCur == stageMax == 8 * outBuf.Length - (n - 1)
      ensures log == old(log) + FlipLog(outBuf[..], n, 8 * outBuf.Length - (n - 1))
    {
      hide FlipBits;
      ghost var base := outBuf[..];
      stageMax := 8 * outBuf.Length - (n - 1);
      stageCur := 0;
      while stageCur < stageMax
        invariant stageMax == 8 * outBuf.Length - (n - 1) && 0 <= stageCur <= stageMax
        invariant outBuf[..] == base && log == old(log) + FlipLog(base, n, stageCur)
      {
        FlipAll(stageCur, n);
        CommonFuzzStuff();
        FlipAll(stageCur, n);
        FlipBitsUndo(base, stageCur, n);
        stageCur := stageCur + 1;
      }
    }

    /** One step of bitflip 8/8. */
    method WalkByte(i: nat, effCnt: nat) returns (cnt: nat)
      requires i < outBuf.Length && |effMap| == EffAlen(outBuf.Length)
      modifies outBuf, `effMap, `log
      ensures outBuf[..] == old(outBuf[..]) && log == old(log) + [FlipByte(outBuf[..], i)]
      ensures effMap == if HasEffect(outBuf[..], target, i) then old(effMap)[i / 8 := true] else old(effMap)
      ensures cnt - effCnt == CountSet(effMap) - CountSet(old(effMap))
    {
      cnt := effCnt;
      ghost var base := outBuf[..];
      FlippedTwice(outBuf[i], 0xff, 0);
      hide Flipped;
      outBuf[i] := Flipped(outBuf[i], 0xff);
      assert outBuf[..] == FlipByte(base, i);
      CommonFuzzStuff();
      if !effMap[i / 8] {
        var changed := true;
        if !target.dumb && outBuf.Length >= EFF_MIN_LEN {
          changed := target.cksum(outBuf[..]) != target.execCksum;
        }
        if changed {
          CountSetOne(effMap, i / 8);
          effMap := effMap[i / 8 := true];
          cnt := cnt + 1;
        }
      }
      outBuf[i] := Flipped(outBuf[i], 0xff);
      assert outBuf[..] == base;
    }

    /** The effector map before the walking byte flip. */
    method InitEffMap() returns (effCnt: nat)
      requires outBuf.Length > 0
      modifies `effMap
      ensures effMap == EffAfter(outBuf[..], target, 0) && effCnt == CountSet(effMap)
    {
      hide HasEffect, CountSet;
      effCnt := 1;
      var last := (outBuf.Length - 1) / 8;
      CountSetNone(EffAlen(outBuf.Length));
      CountSetOne(Falses(EffAlen(outBuf.Length)), 0);
      effMap := Falses(EffAlen(outBuf.Length))[0 := true];
      CountSetOne(effMap, last);
      if last != 0 {
        effMap := effMap[last := true];
        effCnt := effCnt + 1;
      }
    }

    /** bitflip 8/8, which also builds the effector map. */
    method WalkingByte()
      requires outBuf.Length > 0
      modifies outBuf, `effMap, `stageCur, `stageMax, `log
      ensures outBuf[..] == old(outBuf[..]) && stageCur == stageMax == outBuf.Length
      ensures effMap == EffMap(outBuf[..], target)
      ensures log == old(log) + Flip8Log(outBuf[..], outBuf.Length)
    {
      hide HasEffect, CountSet;
      ghost var base := outBuf[..];
      var effCnt := InitEffMap();
      stageMax, stageCur := outBuf.Length, 0;
      while stageCur < stageMax
        invariant stageMax == outBuf.Length && 0 <= stageCur <= stageMax && outBuf[..] == base
        invariant effMap == EffAfter(base, target, stageCur) && effCnt == CountSet(effMap)
        invariant log == old(log) + Flip8Log(base, stageCur)
      {
        effCnt := WalkByte(stageCur, effCnt);
        stageCur := stageCur + 1;
      }
      if effCnt != EffAlen(outBuf.Length) && effCnt * 100 / EffAlen(outBuf.Length) > EFF_MAX_PERC {
        effMap := Trues(EffAlen(outBuf.Length));
      }
    }

    /** Where a stage stands at one word: ts are the candidates dealt with since the mark. */
    ghost predicate At(m: Mark, ts: seq<Try>)
      reads this, outBuf
    {
      && m.i + m.w <= |m.base| && AgreeOutside(outBuf[..], m.base, m.i, m.w)
      && log == m.log + PosLog(m.base, m.i, m.w, ts)
      && stageCur == m.cur + Puts(ts) && stageMax == m.max - |ts| + Puts(ts)
    }

    /** Run the target with v stored at i, or count the candidate as skipped. */
    method Attempt(ghost m: Mark, ghost ts: seq<Try>, i: nat, w: nat, go: bool, v: nat)
      requires At(m, ts) && m.i == i && m.w == w
      modifies outBuf, `stageCur, `stageMax, `log
      ensures At(m, ts + [Tried(go, v)])
    {
      assert (ts + [Tried(go, v)])[..|ts|] == ts;
      if go {
        PokeAgrees(outBuf[..], m.base, i, w, v);
        Store(outBuf, i, w, v);
        CommonFuzzStuff();
        stageCur := stageCur + 1;
      } else {
        stageMax := stageMax - 1;
      }
    }

    /** Put the original word back. */
    method Restore(ghost m: Mark, ghost ts: seq<Try>, i: nat, w: nat, orig: nat)
      requires At(m, ts) && m.i == i && m.w == w && orig == Peek(m.base, i, w)
      modifies outBuf
      ensures At(m, ts) && outBuf[..] == m.base
    {
      PokeAgrees(outBuf[..], m.base, i, w, orig);
      PokePeek(m.base, i, w);
      Store(outBuf, i, w, orig);
    }

    /** The stage has dealt with the word at i. */
    twostate predicate Worked(stage: Stage, i: nat)
      requires i + Span(stage) <= outBuf.Length
      reads this, outBuf
    {
      && outBuf[..] == old(outBuf[..]) && log == old(log) + WordLog(stage, outBuf[..], i)
      && stageCur == old(stageCur) + |WordLog(stage, outBuf[..], i)|
      && stageMax == old(stageMax) - PerWord(stage) + |WordLog(stage, outBuf[..], i)|
    }

    /** orig ^ v is not left to the bit flips. */
    method IsFresh(orig: U32, v: U32) returns (r: bool)
      ensures r == Fresh(orig, v)
    {
      XorFits(orig, v);
      var flip := CouldBeBitflip(Xor(orig, v));
      r := !flip;
    }

    method Arith8At(i: nat)
      requires i < outBuf.Length
      modifies outBuf, `stageCur, `stageMax, `log
      ensures Worked(Arith8, i)
    {
      hide AgreeOutside, PosLog, Puts, Moved, Fresh;
      var orig := Peek(outBuf[..], i, 1);
      ghost var m := Mark(outBuf[..], i, 1, log, stageCur, stageMax);
      AtStart(m);
      var j := 1;
      while j <= ARITH_MAX
        invariant 1 <= j <= ARITH_MAX + 1 && outBuf[..] == m.base
        invariant At(m, ArithTries(Arith8, orig, j - 1))
      {
        ghost var ts := ArithTries(Arith8, orig, j - 1);
        var up, down := Moved(orig, j, 0x100), Moved(orig, -j, 0x100);
        var f := IsFresh(orig, up);
        Attempt(m, ts, i, 1, f, up);
        var g := IsFresh(orig, down);
        Attempt(m, ts + [Tried(f, up)], i, 1, g, down);
        ghost var both := ts + [Tried(f, up)] + [Tried(g, down)];
        assert both == ArithTries(Arith8, orig, j);
        Restore(m, both, i, 1, orig);
        j := j + 1;
      }
      TriesCount(Arith8, orig);
    }

    method Arith16At(i: nat)
      requires i + 2 <= outBuf.Length
      modifies outBuf, `stageCur, `stageMax, `log
      ensures Worked(Arith16, i)
    {
      hide AgreeOutside, PosLog, Puts, Moved, Fresh, Swap16;
      RangeOfSpan(Arith16);
      var orig := Peek(outBuf[..], i, 2);
      ghost var m := Mark(outBuf[..], i, 2, log, stageCur, stageMax);
      AtStart(m);
      var j := 1;
      while j <= ARITH_MAX
        invariant 1 <= j <= ARITH_MAX + 1 && outBuf[..] == m.base
        invariant At(m, ArithTries(Arith16, orig, j - 1))
      {
        ghost var ts := Arith16Word(m, ArithTries(Arith16, orig, j - 1), i, orig, j);
        Restore(m, ts, i, 2, orig);
        j := j + 1;
      }
      TriesCount(Arith16, orig);
    }

    /** Both directions of offset j, in both byte orders. */
    method Arith16Word(ghost m: Mark, ghost ts: seq<Try>, i: nat, orig: U16, j: int) returns (ghost all: seq<Try>)
      requires At(m, ts) && m.i == i && m.w == 2
      modifies outBuf, `stageCur, `stageMax, `log
      ensures all == ts + Arith16Step(orig, j) && At(m, all)
    {
      hide At, Moved, Fresh, Swap16;
      all := ts;
      var v := Moved(orig, j, 0x1_0000);
      var f := IsFresh(orig, v);
      Attempt(m, all, i, 2, orig % 0x100 + j > 0xff && f, v);
      all := all + [Tried(orig % 0x100 + j > 0xff && f, v)];
      v := Moved(orig, -j, 0x1_0000);
      f := IsFresh(orig, v);
      Attempt(m, all, i, 2, orig % 0x100 < j && f, v);
      all := all + [Tried(orig % 0x100 < j && f, v)];
      v := Swap16(Moved(Swap16(orig), j, 0x1_0000));
      f := IsFresh(orig, v);
      Attempt(m, all, i, 2, orig / 0x100 + j > 0xff && f, v);
      all := all + [Tried(orig / 0x100 + j > 0xff && f, v)];
      v := Swap16(Moved(Swap16(orig), -j, 0x1_0000));
      f := IsFresh(orig, v);
      Attempt(m, all, i, 2, orig / 0x100 < j && f, v);
      all := all + [Tried(orig / 0x100 < j && f, v)];
    }

    method Arith32At(i: nat)
      requires i + 4 <= outBuf.Length
      modifies outBuf, `stageCur, `stageMax, `log
      ensures Worked(Arith32, i)
    {
      hide AgreeOutside, PosLog, Puts, Moved, Fresh, Swap32;
      RangeOfSpan(Arith32);
      var orig := Peek(outBuf[..], i, 4);
      ghost var m := Mark(outBuf[..], i, 4, log, stageCur, stageMax);
      AtStart(m);
      var j := 1;
      while j <= ARITH_MAX
        invariant 1 <= j <= ARITH_MAX + 1 && outBuf[..] == m.base
        invariant At(m, ArithTries(Arith32, orig, j - 1))
      {
        ghost var ts := Arith32Word(m, ArithTries(Arith32, orig, j - 1), i, orig, j);
        Restore(m, ts, i, 4, orig);
        j := j + 1;
      }
      TriesCount(Arith32, orig);
    }

    /** Both directions of offset j, in both byte orders. */
    method Arith32Word(ghost m: Mark, ghost ts: seq<Try>, i: nat, orig: U32, j: int) returns (ghost all: seq<Try>)
      requires At(m, ts) && m.i == i && m.w == 4
      modifies outBuf, `stageCur, `stageMax, `log
      ensures all == ts + Arith32Step(orig, j) && At(m, all)
    {
      hide At, Moved, Fresh, Swap32;
      all := ts;
      var be := Swap32(orig);
      var v := Moved(orig, j, 0x1_0000_0000);
      var f := IsFresh(orig, v);
      Attempt(m, all, i, 4, orig % 0x1_0000 + j > 0xffff && f, v);
      all := all + [Tried(orig % 0x1_0000 + j > 0xffff && f, v)];
      v := Moved(orig, -j, 0x1_0000_0000);
      f := IsFresh(orig, v);
      Attempt(m, all, i, 4, orig % 0x1_0000 < j && f, v);
      all := all + [Tried(orig % 0x1_0000 < j && f, v)];
      v := Swap32(Moved(Swap32(orig), j, 0x1_0000_0000));
      f := IsFresh(orig, v);
      Attempt(m, all, i, 4, be % 0x1_0000 + j > 0xffff && f, v);
      all := all + [Tried(be % 0x1_0000 + j > 0xffff && f, v)];
      v := Swap32(Moved(Swap32(orig), -j, 0x1_0000_0000));
      f := IsFresh(orig, v);
      Attempt(m, all, i, 4, be % 0x1_0000 < j && f, v);
      all := all + [Tried(be % 0x1_0000 < j && f, v)];
    }

    method Interest8At(i: nat)
      requires i < outBuf.Length
      modifies outBuf, `stageCur, `stageMax, `log
      ensures Worked(Interest8, i)
    {
      hide AgreeOutside, PosLog, Puts, IsBitflip, IsArith;
      var orig := Peek(outBuf[..], i, 1);
      ghost var m := Mark(outBuf[..], i, 1, log, stageCur, stageMax);
      AtStart(m);
      var j := 0;
      while j < |INTERESTING_8|
        invariant 0 <= j <= |INTERESTING_8| && outBuf[..] == m.base
        invariant At(m, InterestTries(Interest8, orig, INTERESTING_8, j))
      {
        ghost var ts := InterestTries(Interest8, orig, INTERESTING_8, j);
        var v := INTERESTING_8[j] % 0x100;
        XorFits(orig, v);
        var flip := CouldBeBitflip(Xor(orig, v));
        var arith := CouldBeArith(orig, v, 1);
        Attempt(m, ts, i, 1, !(flip || arith), v);
        Restore(m, ts + [Tried(!(flip || arith), v)], i, 1, orig);
        j := j + 1;
      }
      TriesCount(Interest8, orig);
    }

    method Interest16At(i: nat)
      requires i + 2 <= outBuf.Length
      modifies outBuf, `stageCur, `stageMax, `log
      ensures Worked(Interest16, i)
    {
      hide AgreeOutside, PosLog, Puts, Fresh, IsArith, IsInterest, Swap16;
      RangeOfSpan(Interest16);
      var orig := Peek(outBuf[..], i, 2);
      ghost var m := Mark(outBuf[..], i, 2, log, stageCur, stageMax);
      ghost var ts := [];
      AtStart(m);
      var j := 0;
      while j < |INTERESTING_16|
        invariant 0 <= j <= |INTERESTING_16|
        invariant ts == InterestTries(Interest16, orig, INTERESTING_16, j) && At(m, ts)
      {
        ts := Interest16Word(m, ts, i, orig, INTERESTING_16[j]);
        j := j + 1;
      }
      Restore(m, ts, i, 2, orig);
      TriesCount(Interest16, orig);
    }

    /** One interesting value in both byte orders. */
    method Interest16Word(ghost m: Mark, ghost ts: seq<Try>, i: nat, orig: U16, value: int)
      returns (ghost all: seq<Try>)
      requires At(m, ts) && m.i == i && m.w == 2
      modifies outBuf, `stageCur, `stageMax, `log
      ensures all == ts + Interest16Step(orig, value) && At(m, all)
    {
      hide At, Fresh, IsArith, IsInterest, Swap16;
      all := ts;
      var le := value % 0x1_0000;
      var f := IsFresh(orig, le);
      var arith := CouldBeArith(orig, le, 2);
      var interest := CouldBeInterest(orig, le, 2, false);
      Attempt(m, all, i, 2, f && !arith && !interest, le);
      all := all + [Tried(f && !arith && !interest, le)];
      var be := Swap16(le);
      f := IsFresh(orig, be);
      arith := CouldBeArith(orig, be, 2);
      interest := CouldBeInterest(orig, be, 2, true);
      Attempt(m, all, i, 2, le != be && f && !arith && !interest, be);
      all := all + [Tried(le != be && f && !arith && !interest, be)];
    }

    method Interest32At(i: nat)
      requires i + 4 <= outBuf.Length
      modifies outBuf, `stageCur, `stageMax, `log
      ensures Worked(Interest32, i)
    {
      hide AgreeOutside, PosLog, Puts, Fresh, IsArith, IsInterest, Swap32;
      RangeOfSpan(Interest32);
      var orig := Peek(outBuf[..], i, 4);
      ghost var m := Mark(outBuf[..], i, 4, log, stageCur, stageMax);
      ghost var ts := [];
      AtStart(m);
      var j := 0;
      while j < |INTERESTING_32|
        invariant 0 <= j <= |INTERESTING_32|
        invariant ts == InterestTries(Interest32, orig, INTERESTING_32, j) && At(m, ts)
      {
        ts := Interest32Word(m, ts, i, orig, INTERESTING_32[j]);
        j := j + 1;
      }
      Restore(m, ts, i, 4, orig);
      TriesCount(Interest32, orig);
    }

    /** One interesting value in both byte orders. */
    method Interest32Word(ghost m: Mark, ghost ts: seq<Try>, i: nat, orig: U32, value: int)
      returns (ghost all: seq<Try>)
      requires At(m, ts) && m.i == i && m.w == 4
      modifies outBuf, `stageCur, `stageMax, `log
      ensures all == ts + Interest32Step(orig, value) && At(m, all)
    {
      hide At, Fresh, IsArith, IsInterest, Swap32;
      all := ts;
      var le := value % 0x1_0000_0000;
      var f := IsFresh(orig, le);
      var arith := CouldBeArith(orig, le, 4);
      var interest := CouldBeInterest(orig, le, 4, false);
      Attempt(m, all, i, 4, f && !arith && !interest, le);
      all := all + [Tried(f && !arith && !interest, le)];
      var be := Swap32(le);
      f := IsFresh(orig, be);
      arith := CouldBeArith(orig, be, 4);
      interest := CouldBeInterest(orig, be, 4, true);
      Attempt(m, all, i, 4, le != be && f && !arith && !interest, be);
      all := all + [Tried(le != be && f && !arith && !interest, be)];
    }

    /** Flip all bits of the word, run, and flip them back. */
    method FlipWordAt(stage: Stage, i: nat)
      requires stage.Flip16? || stage.Flip32?
      requires i + Span(stage) <= outBuf.Length
      modifies outBuf, `stageCur, `log
      ensures Worked(stage, i)
    {
      var w, ones := Span(stage), if stage.Flip16? then 0xffff else 0xffffffff;
      RangeOfSpan(stage);
      ghost var base := outBuf[..];
      var v := Peek(outBuf[..], i, w);
      XorFits(v, ones);
      XorSolves(v, ones, 0);
      PeekPoke(base, i, w, Xor(v, ones));
      Store(outBuf, i, w, Xor(v, ones));
      CommonFuzzStuff();
      stageCur := stageCur + 1;
      v := Peek(outBuf[..], i, w);
      PokeAgrees(base, base, i, w, Xor(v, ones));
      PokeAgrees(outBuf[..], base, i, w, Xor(v, ones));
      PokePeek(base, i, w);
      Store(outBuf, i, w, Xor(v, ones));
    }

    /** The work of a stage at one position. */
    method WorkAt(stage: Stage, i: nat)
      requires i + Span(stage) <= outBuf.Length
      modifies outBuf, `stageCur, `stageMax, `log
      ensures Worked(stage, i)
    {
      match stage
      case Flip16 => FlipWordAt(stage, i);
      case Flip32 => FlipWordAt(stage, i);
      case Arith8 => Arith8At(i);
      case Arith16 => Arith16At(i);
      case Arith32 => Arith32At(i);
      case Interest8 => Interest8At(i);
      case Interest16 => Interest16At(i);
      case Interest32 => Interest32At(i);
    }

    /** One position of a stage: words without a set cell are skipped. */
    method VisitWord(stage: Stage, i: nat)
      requires i + Span(stage) <= outBuf.Length && |effMap| == EffAlen(outBuf.Length)
      modifies outBuf, `stageCur, `stageMax, `log
      ensures outBuf[..] == old(outBuf[..])
      ensures log == old(log) + if AnyEff(effMap, i, Span(stage)) then WordLog(stage, outBuf[..], i) else []
      ensures stageCur - old(stageCur) == |log| - |old(log)|
      ensures stageMax - stageCur == old(stageMax) - old(stageCur) - PerWord(stage)
    {
      hide WordLog, AnyEff, PerWord;
      if AnyEff(effMap, i, Span(stage)) {
        WorkAt(stage, i);
      } else {
        stageMax := stageMax - PerWord(stage);
      }
    }

    /** A whole stage.  The buffer ends as it was, and the counter agrees with the adjusted total and
        with the number of runs. */
    method RunStage(stage: Stage)
      requires Span(stage) <= outBuf.Length && |effMap| == EffAlen(outBuf.Length)
      modifies outBuf, `stageCur, `stageMax, `log
      ensures outBuf[..] == old(outBuf[..])
      ensures log == old(log) + StageLog(stage, outBuf[..], effMap, outBuf.Length - Span(stage) + 1)
      ensures stageCur == stageMax == |log| - |old(log)|
    {
      hide WordLog, AnyEff, PerWord, Span, StageTotal;
      ghost var base := outBuf[..];
      var n := outBuf.Length - Span(stage) + 1;
      stageCur, stageMax := 0, StageTotal(stage, n);
      var i := 0;
      while i < n
        invariant 0 <= i <= n && outBuf[..] == base
        invariant log == old(log) + StageLog(stage, base, effMap, i)
        invariant stageCur == |log| - |old(log)|
        invariant stageMax - stageCur == StageTotal(stage, n - i)
      {
        StageTotalStep(stage, n - i);
        VisitWord(stage, i);
        i := i + 1;
      }
      StageTotalStep(stage, 0);
    }

    /** A stage after those in done. */
    method RunNext(stage: Stage, ghost done: seq<Stage>, ghost start: seq<seq<byte>>)
      requires Span(stage) <= outBuf.Length && |effMap| == EffAlen(outBuf.Length)
      requires StagesFit(done, outBuf.Length)
      requires log == start + StagesLog(done, outBuf[..], effMap)
      modifies outBuf, `stageCur, `stageMax, `log
      ensures outBuf[..] == old(outBuf[..])
      ensures StagesFit(done + [stage], outBuf.Length)
      ensures log == start + StagesLog(done + [stage], outBuf[..], effMap)
    {
      hide StageLog, EffAlen, Span;
      assert (done + [stage])[..|done|] == done;
      RunStage(stage);
    }

    /** The walking flips of bits and bytes. */
    method WalkingFlips()
      requires outBuf.Length > 0
      modifies outBuf, `effMap, `stageCur, `stageMax, `log
      ensures outBuf[..] == old(outBuf[..]) && effMap == EffMap(outBuf[..], target)
      ensures log == old(log) + FlipsLog(outBuf[..])
    {
      hide *;
      WalkingBits(1);
      ghost var log1 := log;
      WalkingBits(2);
      ghost var log2 := log;
      WalkingBits(4);
      ghost var log4 := log;
      WalkingByte();
      FlipsInOrder(old(log), log1, log2, log4, log, outBuf[..]);
    }

    /** All deterministic stages, from bitflip 1/1 to interest 32/8. */
    method Deterministic(noArith: bool)
      requires outBuf.Length > 0
      modifies outBuf, `effMap, `stageCur, `stageMax, `log
      ensures outBuf[..] == old(outBuf[..]) && effMap == EffMap(outBuf[..], target)
      ensures log == old(log) + DetLog(outBuf[..], target, noArith)
    {
      hide StagesLog, EffMap, FlipsLog, StagesFit;
      WalkingFlips();
      ghost var start := log;
      ghost var done := FlipWords(start);
      if !noArith {
        done := Arithmetics(start, done);
      }
      done := Interesting(noArith, start, done);
      assert done == WordStages(noArith, outBuf.Length);
    }

    lemma AtStart(m: Mark)
      requires m == Mark(outBuf[..], m.i, m.w, log, stageCur, stageMax) && m.i + m.w <= outBuf.Length
      ensures At(m, [])
    {
    }

    method FlipWords(ghost start: seq<seq<byte>>) returns (ghost done: seq<Stage>)
      requires |effMap| == EffAlen(outBuf.Length) && outBuf.Length > 0 && log == start
      modifies outBuf, `stageCur, `stageMax, `log
      ensures outBuf[..] == old(outBuf[..])
      ensures done == if outBuf.Length < 2 then [] else if outBuf.Length < 4 then [Flip16] else [Flip16, Flip32]
      ensures StagesFit(done, outBuf.Length) && log == start + StagesLog(done, outBuf[..], effMap)
    {
      done := [];
      StagesLogNone(outBuf[..], effMap);
      hide StagesLog;
      if outBuf.Length < 2 {
        return;
      }
      RunNext(Flip16, done, start);
      done := done + [Flip16];
      if outBuf.Length < 4 {
        return;
      }
      RunNext(Flip32, done, start);
      done := done + [Flip32];
    }

    method Arithmetics(ghost start: seq<seq<byte>>, ghost before: seq<Stage>) returns (ghost done: seq<Stage>)
      requires |effMap| == EffAlen(outBuf.Length) && outBuf.Length > 0
      requires StagesFit(before, outBuf.Length)
      requires log == start + StagesLog(before, outBuf[..], effMap)
      modifies outBuf, `stageCur, `stageMax, `log
      ensures outBuf[..] == old(outBuf[..])
      ensures done == before + [Arith8] +
                if outBuf.Length < 2 then [] else if outBuf.Length < 4 then [Arith16] else [Arith16, Arith32]
      ensures StagesFit(done, outBuf.Length) && log == start + StagesLog(done, outBuf[..], effMap)
    {
      hide StagesLog;
      RunNext(Arith8, before, start);
      done := before + [Arith8];
      if outBuf.Length < 2 {
        return;
      }
      RunNext(Arith16, done, start);
      done := done + [Arith16];
      if outBuf.Length < 4 {
        return;
      }
      RunNext(Arith32, done, start);
      done := done + [Arith32];
    }

    method Interesting(noArith: bool, ghost start: seq<seq<byte>>, ghost before: seq<Stage>)
      returns (ghost done: seq<Stage>)
      requires |effMap| == EffAlen(outBuf.Length) && outBuf.Length > 0
      requires StagesFit(before, outBuf.Length)
      requires log == start + StagesLog(before, outBuf[..], effMap)
      modifies outBuf, `stageCur, `stageMax, `log
      ensures outBuf[..] == old(outBuf[..])
      ensures done == before + [Interest8] +
                if noArith || outBuf.Length < 2 then []
                else if outBuf.Length < 4 then [Interest16]
                else [Interest16, Interest32]
      ensures StagesFit(done, outBuf.Length) && log == start + StagesLog(done, outBuf[..], effMap)
    {
      hide StagesLog;
      RunNext(Interest8, before, start);
      done := before + [Interest8];
      if noArith || outBuf.Length < 2 {
        return;
      }
      RunNext(Interest16, done, start);
      done := done + [Interest16];
      if outBuf.Length < 4 {
        return;
      }
      RunNext(Interest32, done, start);
      done := done + [Interest32];
    }

    lemma StagesLogNone(buf: seq<byte>, eff: seq<bool>)
      requires |eff| == EffAlen(|buf|)
      ensures StagesLog([], buf, eff) == []
    {
    }
  }
}
