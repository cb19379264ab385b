/**
 The deterministic stages that overwrite the input with dictionary tokens, user-supplied or
 collected.  Between two tokens at one offset nothing is restored; at the end of the offset only
 as many bytes as the last token had.  That this is enough rests on the order of the tokens.
 */
module DictStages {
  import opened Bytes
  import opened DetStages
  import opened DetFuzzer

  const MAX_DET_EXTRAS := 200
  const USE_AUTO_EXTRAS := 50

  type Token = t: seq<byte> | t != [] witness [0]

  predicate SortedBySize(tokens: seq<Token>) {
    forall a, b :: 0 <= a < b < |tokens| ==> |tokens[a]| <= |tokens[b]|
  }

  function Overlay(buf: seq<byte>, i: nat, tok: seq<byte>): (r: seq<byte>)
    requires i + |tok| <= |buf|
    ensures |r| == |buf|
  {
    buf[..i] + tok + buf[i + |tok|..]
  }

  /** With many tokens each is left out with some probability; ur is the random number drawn. */
  predicate LeftOut(count: nat, ur: nat) {
    count > MAX_DET_EXTRAS && ur >= MAX_DET_EXTRAS
  }

  /** The token fits at i and its span has a byte with an effect. */
  predicate Usable(buf: seq<byte>, eff: seq<bool>, i: nat, tok: Token)
    requires |eff| == EffAlen(|buf|)
  {
    |tok| <= |buf| - i && AnyEff(eff, i, |tok|)
  }

  /** The buffer, the length of the last token written, and the runs at one offset. */
  datatype Over = Over(buf: seq<byte>, lastLen: nat, log: seq<seq<byte>>)

  function Overwritten(s: Over, eff: seq<bool>, i: nat, tok: Token, leftOut: bool): (r: Over)
    requires |eff| == EffAlen(|s.buf|)
    ensures |r.buf| == |s.buf|
  {
    if leftOut || !Usable(s.buf, eff, i, tok) || s.buf[i..i + |tok|] == tok then s
    else
      var buf := Overlay(s.buf, i, tok);
      Over(buf, |tok|, s.log + [buf])
  }

  /** The first j tokens at offset i. */
  function AtOffset(buf: seq<byte>, eff: seq<bool>, i: nat, tokens: seq<Token>, ur: (nat, nat) -> nat, j: nat)
    : (r: Over)
    requires |eff| == EffAlen(|buf|) && i <= |buf| && j <= |tokens|
    ensures |r.buf| == |buf|
    decreases j
  {
    if j == 0 then Over(buf, 0, [])
    else
      var s := AtOffset(buf, eff, i, tokens, ur, j - 1);
      Overwritten(s, eff, i, tokens[j - 1], LeftOut(|tokens|, ur(i, j - 1)))
  }

  /** The runs of the stage at the offsets before n. */
  function OverLog(buf: seq<byte>, eff: seq<bool>, tokens: seq<Token>, ur: (nat, nat) -> nat, n: nat): seq<seq<byte>>
    requires |eff| == EffAlen(|buf|) && n <= |buf|
    decreases n
  {
    if n == 0 then []
    else OverLog(buf, eff, tokens, ur, n - 1) + AtOffset(buf, eff, n - 1, tokens, ur, |tokens|).log
  }

  // ----- what the stage runs -----

  /** The clobbered bytes are those of the last token, and each run is the input with one token. */
  lemma {:induction false} OffsetState(buf: seq<byte>, eff: seq<bool>, i: nat, tokens: seq<Token>,
      ur: (nat, nat) -> nat, j: nat)
    requires |eff| == EffAlen(|buf|) && i <= |buf| && j <= |tokens| && SortedBySize(tokens)
    ensures var s := AtOffset(buf, eff, i, tokens, ur, j);
            && i + s.lastLen <= |buf| && (j < |tokens| ==> s.lastLen <= |tokens[j]|)
            && AgreeOutside(s.buf, buf, i, s.lastLen)
            && s.buf == (if s.log == [] then buf else s.log[|s.log| - 1])
    decreases j
  {
    if j > 0 {
      OffsetState(buf, eff, i, tokens, ur, j - 1);
    }
  }

  lemma OverlayForgets(a: seq<byte>, b: seq<byte>, i: nat, n: nat, tok: Token)
    requires AgreeOutside(a, b, i, n) && n <= |tok| && i + |tok| <= |a|
    ensures Overlay(a, i, tok) == Overlay(b, i, tok)
  {
  }

  lemma OverlayOfSame(buf: seq<byte>, i: nat, tok: seq<byte>)
    requires i + |tok| <= |buf| && buf[i..i + |tok|] == tok
    ensures Overlay(buf, i, tok) == buf
  {
  }

  /** Restoring lastLen bytes gives the input back. */
  lemma RestoresInput(buf: seq<byte>, eff: seq<bool>, i: nat, tokens: seq<Token>, ur: (nat, nat) -> nat)
    requires |eff| == EffAlen(|buf|) && i <= |buf| && SortedBySize(tokens)
    ensures var s := AtOffset(buf, eff, i, tokens, ur, |tokens|);
            i + s.lastLen <= |buf| && Overlay(s.buf, i, buf[i..i + s.lastLen]) == buf
  {
    OffsetState(buf, eff, i, tokens, ur, |tokens|);
  }

  /** Nothing but the input with one of the tokens is run... */
  lemma {:induction false} RunsAreOverlays(buf: seq<byte>, eff: seq<bool>, i: nat, tokens: seq<Token>,
      ur: (nat, nat) -> nat, j: nat, r: nat)
    requires |eff| == EffAlen(|buf|) && i <= |buf| && j <= |tokens| && SortedBySize(tokens)
    requires r < |AtOffset(buf, eff, i, tokens, ur, j).log|
    ensures exists k: nat :: k < j && !LeftOut(|tokens|, ur(i, k)) && Usable(buf, eff, i, tokens[k])
              && AtOffset(buf, eff, i, tokens, ur, j).log[r] == Overlay(buf, i, tokens[k])
    decreases j
  {
    if j > 0 {
      var s := AtOffset(buf, eff, i, tokens, ur, j - 1);
      if r < |s.log| {
        RunsAreOverlays(buf, eff, i, tokens, ur, j - 1, r);
      } else {
        OffsetState(buf, eff, i, tokens, ur, j - 1);
        OverlayForgets(s.buf, buf, i, s.lastLen, tokens[j - 1]);
      }
    }
  }

  /** ... and each usable token is: the test against the clobbered buffer only leaves out what has
      just been run, or the input itself. */
  lemma {:induction false} TokensAreRun(buf: seq<byte>, eff: seq<bool>, i: nat, tokens: seq<Token>,
      ur: (nat, nat) -> nat, j: nat, k: nat)
    requires |eff| == EffAlen(|buf|) && i <= |buf| && k < j <= |tokens| && SortedBySize(tokens)
    requires !LeftOut(|tokens|, ur(i, k)) && Usable(buf, eff, i, tokens[k])
    ensures var run := Overlay(buf, i, tokens[k]);
            run == buf || run in AtOffset(buf, eff, i, tokens, ur, j).log
    decreases j
  {
    hide AnyEff, AgreeOutside, Overlay, LeftOut, SortedBySize;
    var s := AtOffset(buf, eff, i, tokens, ur, j - 1);
    if k < j - 1 {
      TokensAreRun(buf, eff, i, tokens, ur, j - 1, k);
    } else {
      OffsetState(buf, eff, i, tokens, ur, k);
      OverlayForgets(s.buf, buf, i, s.lastLen, tokens[k]);
      if s.buf[i..i + |tokens[k]|] == tokens[k] {
        OverlayOfSame(s.buf, i, tokens[k]);
      }
    }
  }

  /** If a shorter token could follow a longer one, bytes of the longer one would survive. */
  lemma UnsortedTokensLeak()
    ensures var tokens: seq<Token> := [[1, 2], [3]];
            var s := AtOffset([0, 0], [true], 0, tokens, (i, j) => 0, 2);
            Overlay(s.buf, 0, [0, 0][..s.lastLen]) == [0, 2]
  {
    var tokens: seq<Token> := [[1, 2], [3]];
    var ur := (i: nat, j: nat) => 0;
    var s1 := AtOffset([0, 0], [true], 0, tokens, ur, 1);
    assert AnyEff([true], 0, 1) && AnyEff([true], 0, 2);
    assert s1.buf == [1, 2] && s1.lastLen == 2;
    assert s1.buf[0..1] == [1];
    assert AtOffset([0, 0], [true], 0, tokens, ur, 2).buf == [3, 2];
  }

  // ----- the stage -----

  /** memcpy of a token. */
  method CopyToken(dst: array<byte>, i: nat, tok: seq<byte>)
    requires i + |tok| <= dst.Length
    modifies dst
    ensures dst[..] == Overlay(old(dst[..]), i, tok)
  {
    forall k | 0 <= k < |tok| {
      dst[i + k] := tok[k];
    }
  }

  /** One token at one offset. */
  method TryToken(f: FuzzOne, i: nat, tok: Token, leftOut: bool, last: nat, ghost s: Over, ghost start: seq<seq<byte>>)
    returns (lastLen: nat)
    requires i < f.outBuf.Length && |f.effMap| == EffAlen(f.outBuf.Length)
    requires f.outBuf[..] == s.buf && f.log == start + s.log && last == s.lastLen
    modifies f.outBuf, f`stageCur, f`stageMax, f`log
    ensures var r := Overwritten(s, f.effMap, i, tok, leftOut);
            f.outBuf[..] == r.buf && f.log == start + r.log && lastLen == r.lastLen
    ensures f.stageCur - old(f.stageCur) == |f.log| - |old(f.log)|
    ensures f.stageMax - f.stageCur == old(f.stageMax) - old(f.stageCur) - 1
  {
    hide AnyEff, Overlay;
    lastLen := last;
    if leftOut || !Usable(f.outBuf[..], f.effMap, i, tok) || f.outBuf[i..i + |tok|] == tok {
      f.stageMax := f.stageMax - 1;
    } else {
      lastLen := |tok|;
      CopyToken(f.outBuf, i, tok);
      f.CommonFuzzStuff();
      f.stageCur := f.stageCur + 1;
    }
  }

  /** All tokens at one offset, and the restoring copy. */
  method OverwriteAt(f: FuzzOne, inBuf: array<byte>, i: nat, tokens: seq<Token>, ur: (nat, nat) -> nat)
    requires i < f.outBuf.Length && inBuf != f.outBuf && inBuf[..] == f.outBuf[..]
    requires |f.effMap| == EffAlen(f.outBuf.Length) && SortedBySize(tokens)
    modifies f.outBuf, f`stageCur, f`stageMax, f`log
    ensures f.outBuf[..] == inBuf[..]
    ensures f.log == old(f.log) + AtOffset(inBuf[..], f.effMap, i, tokens, ur, |tokens|).log
    ensures f.stageCur - old(f.stageCur) == |f.log| - |old(f.log)|
    ensures f.stageMax - f.stageCur == old(f.stageMax) - old(f.stageCur) - |tokens|
  {
    hide Overwritten, Overlay, SortedBySize, LeftOut;
    ghost var base, start := inBuf[..], f.log;
    var lastLen: nat, j: nat := 0, 0;
    while j < |tokens|
      invariant j <= |tokens|
      invariant f.outBuf[..] == AtOffset(base, f.effMap, i, tokens, ur, j).buf
      invariant lastLen == AtOffset(base, f.effMap, i, tokens, ur, j).lastLen
      invariant f.log == start + AtOffset(base, f.effMap, i, tokens, ur, j).log
      invariant f.stageCur - old(f.stageCur) == |f.log| - |old(f.log)|
      invariant f.stageMax - f.stageCur == old(f.stageMax) - old(f.stageCur) - j
    {
      ghost var s := AtOffset(base, f.effMap, i, tokens, ur, j);
      lastLen := TryToken(f, i, tokens[j], LeftOut(|tokens|, ur(i, j)), lastLen, s, start);
      j := j + 1;
    }
    RestoresInput(base, f.effMap, i, tokens, ur);
    CopyToken(f.outBuf, i, inBuf[i..i + lastLen]);
  }

  /** stage_max for the offsets still to come. */
  function Remaining(tokens: nat, offsets: int): int {
    tokens * offsets
  }

  lemma RemainingStep(tokens: nat, offsets: int)
    ensures Remaining(tokens, offsets) == Remaining(tokens, offsets - 1) + tokens && Remaining(tokens, 0) == 0
  {
  }

  /** "user extras (over)" and "auto extras (over)". */
  method Overwrite(f: FuzzOne, inBuf: array<byte>, tokens: seq<Token>, ur: (nat, nat) -> nat)
    requires inBuf != f.outBuf && inBuf[..] == f.outBuf[..]
    requires |f.effMap| == EffAlen(f.outBuf.Length) && SortedBySize(tokens)
    modifies f.outBuf, f`stageCur, f`stageMax, f`log
    ensures f.outBuf[..] == inBuf[..]
    ensures f.log == old(f.log) + OverLog(inBuf[..], f.effMap, tokens, ur, inBuf.Length)
    ensures f.stageCur == f.stageMax == |f.log| - |old(f.log)|
  {
    hide AtOffset, SortedBySize, Remaining;
    assert inBuf.Length == |inBuf[..]| == f.outBuf.Length;
    ghost var base := inBuf[..];
    f.stageCur, f.stageMax := 0, Remaining(|tokens|, f.outBuf.Length);
    var i := 0;
    while i < f.outBuf.Length
      invariant 0 <= i <= f.outBuf.Length && f.outBuf[..] == base
      invariant f.log == old(f.log) + OverLog(base, f.effMap, tokens, ur, i)
      invariant f.stageCur == |f.log| - |old(f.log)|
      invariant f.stageMax - f.stageCur == Remaining(|tokens|, f.outBuf.Length - i)
    {
      OverwriteAt(f, inBuf, i, tokens, ur);
      RemainingStep(|tokens|, f.outBuf.Length - i);
      i := i + 1;
    }
    RemainingStep(|tokens|, 0);
  }
}
