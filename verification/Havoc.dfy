/**
 The havoc stage of `fuzz_one`: stacks of random tweaks of the input, and the performance score
 that sets its length.

 Every `UR(n)` is an arbitrary number below n, so what is proved holds for all random choices.
 A tweak is specified by what it does to the test case, the first `temp_len` bytes of `out_buf`.
 */
module Havoc {
  import opened Bytes
  import opened DupTests
  import opened DetStages
  import opened DetFuzzer
  import opened DictStages
  import opened PerfScore

  const MAX_FILE := 1024 * 1024
  const HAVOC_CYCLES := 256
  const HAVOC_CYCLES_INIT := 1024
  const HAVOC_MIN := 16
  const SPLICE_HAVOC := 32
  const HAVOC_STACK_POW2 := 7
  const HAVOC_BLK_SMALL := 32
  const HAVOC_BLK_MEDIUM := 128
  const HAVOC_BLK_LARGE := 1500
  const HAVOC_BLK_XL := 32768

  // ----- tweaks -----

  datatype Tweak =
    | Nothing
    | Flip(bit: nat)
    | SetWord(at: nat, width: nat, value: nat)
    | Delete(from: nat, len: nat)
    | Insert(at: nat, block: seq<byte>)
    | Replace(at: nat, block: seq<byte>)

  predicate Legal(s: seq<byte>, t: Tweak) {
    match t
    case Nothing => true
    case Flip(bit) => bit < 8 * |s|
    case SetWord(at, width, _) => at + width <= |s|
    case Delete(from, len) => 0 < len < |s| && from + len <= |s|
    case Insert(at, block) => at <= |s| && |s| + |block| < MAX_FILE
    case Replace(at, block) => at + |block| <= |s|
  }

  function Applied(s: seq<byte>, t: Tweak): (r: seq<byte>)
    requires Legal(s, t)
    ensures 1 <= |s| <= MAX_FILE ==> 1 <= |r| <= MAX_FILE
  {
    match t
    case Nothing => s
    case Flip(bit) => FlipBit(s, bit)
    case SetWord(at, width, value) => Poke(s, at, width, value)
    case Delete(from, len) => s[..from] + s[from + len..]
    case Insert(at, block) => s[..at] + block + s[at..]
    case Replace(at, block) => Overlay(s, at, block)
  }

  /** An offset of 1 to ARITH_MAX up or down. */
  predicate Offset(d: int, up: bool) {
    if up then 1 <= d <= ARITH_MAX else -ARITH_MAX <= d <= -1
  }

  /** A word of the test case moved by an offset, in either byte order. */
  ghost predicate Arithmetic(s: seq<byte>, t: Tweak, width: nat, up: bool)
    requires width == 1 || width == 2 || width == 4
  {
    && t.SetWord? && t.width == width && t.at + width <= |s| && RangeIs(width)
    && exists d, bigEndian :: Offset(d, up) && t.value == MovedWord(Peek(s, t.at, width), d, width, bigEndian)
  }

  predicate RangeIs(width: nat) {
    Range(width) == if width == 1 then 0x100 else if width == 2 then 0x1_0000 else 0x1_0000_0000
  }

  function Values(width: nat): seq<int> {
    if width == 1 then INTERESTING_8 else if width == 2 then INTERESTING_16 else INTERESTING_32
  }

  /** v is x in a word of the given width, in either byte order. */
  predicate Encodes(v: nat, x: int, width: nat) {
    if width == 1 then v == x % 0x100
    else if width == 2 then v == x % 0x1_0000 || v == Swap16(x % 0x1_0000)
    else v == x % 0x1_0000_0000 || v == Swap32(x % 0x1_0000_0000)
  }

  /** An interesting value, in either byte order. */
  ghost predicate Interesting(t: Tweak, width: nat) {
    t.SetWord? && t.width == width && exists x :: x in Values(width) && Encodes(t.value, x, width)
  }

  predicate SliceOf(s: seq<byte>, from: nat, block: seq<byte>) {
    from + |block| <= |s| && block == s[from..from + |block|]
  }

  /** A block of bytes from the test case, or of one byte. */
  ghost predicate BlockOf(s: seq<byte>, block: seq<byte>) {
    (exists b :: block == Repeat(b, |block|)) || exists from :: SliceOf(s, from, block)
  }

  predicate XoredBy(b: byte, m: nat, v: nat) {
    1 <= m <= 255 && v == Xor(b as int, m)
  }

  /** What case c of the switch may do to the test case s. */
  ghost predicate Offered(s: seq<byte>, c: nat, t: Tweak, tokens: seq<Token>) {
    Legal(s, t) &&
    if c == 0 then t.Flip?
    else if c == 1 then Interesting(t, 1)
    else if c == 2 then if |s| < 2 then t.Nothing? else Interesting(t, 2)
    else if c == 3 then if |s| < 4 then t.Nothing? else Interesting(t, 4)
    else if c == 4 || c == 5 then Arithmetic(s, t, 1, c == 5)
    else if c == 6 || c == 7 then if |s| < 2 then t.Nothing? else Arithmetic(s, t, 2, c == 7)
    else if c == 8 || c == 9 then if |s| < 4 then t.Nothing? else Arithmetic(s, t, 4, c == 9)
    else if c == 10 then
      t.SetWord? && t.width == 1 && t.at < |s| && exists m :: XoredBy(s[t.at], m, t.value)
    else if c == 11 || c == 12 then if |s| < 2 then t.Nothing? else t.Delete? && t.len <= HAVOC_BLK_XL
    else if c == 13 then
      if |s| + HAVOC_BLK_XL >= MAX_FILE then t.Nothing?
      else t.Insert? && t.at < |s| && 1 <= |t.block| <= HAVOC_BLK_XL && BlockOf(s, t.block)
    else if c == 14 then
      if |s| < 2 then t.Nothing?
      else t.Replace? && 1 <= |t.block| < |s| && BlockOf(s, t.block)
    else if c == 15 then
      if t.Nothing? then exists tok :: tok in tokens && |tok| > |s| else t.Replace? && t.block in tokens
    else if c == 16 then
      if t.Nothing? then exists tok :: tok in tokens && |s| + |tok| >= MAX_FILE else t.Insert? && t.block in tokens
    else false
  }

  /** Case c turns the test case q into r. */
  ghost predicate Tweaked(q: seq<byte>, c: nat, t: Tweak, tokens: seq<Token>, r: seq<byte>) {
    Offered(q, c, t, tokens) && r == Applied(q, t)
  }

  /** The test case after a stack of tweaks. */
  ghost predicate Stacked(s: seq<byte>, cases: seq<nat>, tweaks: seq<Tweak>, tokens: seq<Token>, r: seq<byte>) {
    |cases| == |tweaks| &&
    if tweaks == [] then r == s
    else
      var n := |tweaks| - 1;
      exists q :: Stacked(s, cases[..n], tweaks[..n], tokens, q) && Tweaked(q, cases[n], tweaks[n], tokens, r)
  }

  lemma StackedNone(s: seq<byte>, tokens: seq<Token>)
    ensures Stacked(s, [], [], tokens, s)
  {
  }

  lemma StackedMore(s: seq<byte>, cases: seq<nat>, tweaks: seq<Tweak>, tokens: seq<Token>, q: seq<byte>,
      c: nat, t: Tweak, r: seq<byte>)
    requires Stacked(s, cases, tweaks, tokens, q) && Tweaked(q, c, t, tokens, r)
    ensures Stacked(s, cases + [c], tweaks + [t], tokens, r)
  {
    hide Tweaked;
    var n := |tweaks|;
    var cs, ts := cases + [c], tweaks + [t];
    assert cs[..n] == cases && ts[..n] == tweaks && cs[n] == c && ts[n] == t && |ts| - 1 == n;
    assert Stacked(s, cs[..n], ts[..n], tokens, q) && Tweaked(q, cs[n], ts[n], tokens, r);
  }

  /** Any stack of offered tweaks leaves between one byte and MAX_FILE bytes. */
  lemma {:induction false} StackedInBounds(s: seq<byte>, cases: seq<nat>, tweaks: seq<Tweak>, tokens: seq<Token>,
      r: seq<byte>)
    requires Stacked(s, cases, tweaks, tokens, r) && 1 <= |s| <= MAX_FILE
    ensures 1 <= |r| <= MAX_FILE
    decreases |tweaks|
  {
    if tweaks != [] {
      var n := |tweaks| - 1;
      var q :| Stacked(s, cases[..n], tweaks[..n], tokens, q) && Tweaked(q, cases[n], tweaks[n], tokens, r);
      StackedInBounds(s, cases[..n], tweaks[..n], tokens, q);
    }
  }

  lemma XoredDiffers(b: byte, m: nat, v: nat)
    requires XoredBy(b, m, v)
    ensures v < 0x100 && v != b as nat
  {
    XorSolves(b as int, m, b as int);
    XorSelf(b as int);
    XorBound(b as int, m, 8);
  }

  /** Case 10 is never a no-op. */
  lemma RandomByteChanges(s: seq<byte>, t: Tweak, tokens: seq<Token>)
    requires Offered(s, 10, t, tokens)
    ensures Applied(s, t) != s
  {
    hide XoredBy;
    var m :| XoredBy(s[t.at], m, t.value);
    XoredDiffers(s[t.at], m, t.value);
    assert Applied(s, t) == s[t.at := t.value as byte] by {
      assert Poke(s, t.at, 1, t.value) == s[t.at := t.value as byte];
    }
    assert Applied(s, t)[t.at] != s[t.at];
  }

  // ----- block lengths -----

  /** An arbitrary random number. */
  method UR(limit: nat) returns (r: nat)
    requires limit > 0
    ensures r < limit
  {
    r :| 0 <= r < limit;
  }

  /** `choose_block_len`: never zero, never more than the limit or the largest block. */
  method ChooseBlockLen(limit: nat, queueCycle: nat, runOver10m: bool) returns (len: nat)
    requires limit > 0 && queueCycle > 0
    ensures 1 <= len <= limit
    ensures len <= if queueCycle == 1 || !runOver10m then 32 else if queueCycle == 2 then 128 else 32768
  {
    var minValue, maxValue: nat;
    var rlim := Min(queueCycle, 3);
    if !runOver10m {
      rlim := 1;
    }
    var c := UR(rlim);
    if c == 0 {
      minValue, maxValue := 1, HAVOC_BLK_SMALL;
    } else if c == 1 {
      minValue, maxValue := HAVOC_BLK_SMALL, HAVOC_BLK_MEDIUM;
    } else {
      var d := UR(10);
      if d != 0 {
        minValue, maxValue := HAVOC_BLK_MEDIUM, HAVOC_BLK_LARGE;
      } else {
        minValue, maxValue := HAVOC_BLK_LARGE, HAVOC_BLK_XL;
      }
    }
    if minValue >= limit {
      minValue := 1;
    }
    var r := UR(Min(maxValue, limit) - minValue + 1);
    len := minValue + r;
  }

  lemma {:induction false} PokePrefix(buf: seq<byte>, n: nat, i: nat, w: nat, v: nat)
    requires i + w <= n <= |buf|
    ensures Poke(buf, i, w, v)[..n] == Poke(buf[..n], i, w, v)
    decreases w
  {
    if w > 0 {
      var x := (v % 0x100) as byte;
      assert buf[i := x][..n] == buf[..n][i := x];
      PokePrefix(buf[i := x], n, i + 1, w - 1, v / 0x100);
    }
  }

  function Cycles(doingDet: bool, splicing: bool): nat {
    if splicing then SPLICE_HAVOC else if doingDet then HAVOC_CYCLES_INIT else HAVOC_CYCLES
  }

  lemma DivShrinks(x: nat, d: nat)
    requires d > 0
    ensures 0 <= x / d <= x
  {
    MulGrows(1, d, x / d);
  }

  lemma StageMaxBound(cycles: nat, score: nat, havocDiv: nat)
    requires cycles <= HAVOC_CYCLES_INIT && havocDiv > 0
    ensures 100 * (cycles * score / havocDiv / 100) <= HAVOC_CYCLES_INIT * score
  {
    MulGrows(cycles, HAVOC_CYCLES_INIT, score);
    DivShrinks(cycles * score, havocDiv);
  }

  lemma NothingIsLegal(s: seq<byte>)
    ensures Legal(s, Nothing)
  {
  }

  /** Filling the gap of a widened copy is inserting. */
  lemma InsertIsOverlay(s: seq<byte>, wide: seq<byte>, at: nat, block: seq<byte>)
    requires at <= |s| && |wide| == |s| + |block| < MAX_FILE
    requires wide[..at] == s[..at] && wide[at + |block|..] == s[at..]
    ensures Legal(s, Insert(at, block)) && Overlay(wide, at, block) == Applied(s, Insert(at, block))
  {
  }

  lemma ReplaceInPrefix(whole: seq<byte>, n: nat, at: nat, block: seq<byte>)
    requires at + |block| <= n <= |whole|
    ensures Legal(whole[..n], Replace(at, block))
    ensures Overlay(whole, at, block)[..n] == Applied(whole[..n], Replace(at, block))
  {
  }

  /** Delete a block from the first n bytes by moving down what stands behind it. */
  method MoveDown(buf: array<byte>, n: nat, from: nat, len: nat)
    requires from + len <= n <= buf.Length
    modifies buf
    ensures buf[..n - len] == old(buf[..n][..from] + buf[..n][from + len..])
  {
    MemCopy(buf, from, buf, from + len, n - from - len);
    assert buf[..n - len] == buf[..][..n - len];
  }

  lemma NoDeletion(s: seq<byte>, c: nat, tokens: seq<Token>)
    requires (c == 11 || c == 12) && |s| < 2
    ensures Tweaked(s, c, Nothing, tokens, s)
  {
  }

  lemma DeleteIsOffered(s: seq<byte>, c: nat, from: nat, len: nat, tokens: seq<Token>)
    requires (c == 11 || c == 12) && 0 < len < |s| && len <= HAVOC_BLK_XL && from + len <= |s|
    ensures Tweaked(s, c, Delete(from, len), tokens, s[..from] + s[from + len..])
  {
  }

  lemma SliceInPrefix(whole: seq<byte>, n: nat, from: nat, len: nat)
    requires from + len <= n <= |whole|
    ensures whole[..n][from..from + len] == whole[from..from + len]
  {
  }

  function MovedWord(v: nat, d: int, width: nat, bigEndian: bool): nat
    requires width == 1 || width == 2 || width == 4
    requires RangeIs(width) && v < Range(width)
  {
    if width == 1 then Moved(v, d, 0x100)
    else if width == 2 then
      if bigEndian then Swap16(Moved(Swap16(v), d, 0x1_0000)) else Moved(v, d, 0x1_0000)
    else
      if bigEndian then Swap32(Moved(Swap32(v), d, 0x1_0000_0000)) else Moved(v, d, 0x1_0000_0000)
  }

  // ----- the stage -----

  class HavocStage {
    var outBuf: array<byte>
    var tempLen: nat
    const inBuf: array<byte>
    const extras: seq<Token>
    const aExtras: seq<Token>
    const queueCycle: nat
    const runOver10m: bool
    var log: seq<seq<byte>>

    ghost predicate Valid()
      reads this
    {
      && outBuf != inBuf && tempLen <= outBuf.Length && 1 <= tempLen <= MAX_FILE
      && 1 <= inBuf.Length <= MAX_FILE && queueCycle > 0
    }

    /** The current test case. */
    ghost function Case(): (s: seq<byte>)
      requires Valid()
      reads this, outBuf
    {
      outBuf[..tempLen]
    }

    /** One tweak: t, offered by case c of the switch, was applied to the test case s. */
    ghost predicate Did(c: nat, t: Tweak, s: seq<byte>)
      requires Valid()
      reads this, outBuf
    {
      Tweaked(s, c, t, extras + aExtras, Case())
    }

    method FlipSomeBit() returns (ghost t: Tweak)
      requires Valid()
      modifies outBuf
      ensures Valid() && Did(0, t, old(Case()))
    {
      var bit := UR(8 * tempLen);
      t := Flip(bit);
      outBuf[bit / 8] := Flipped(outBuf[bit / 8], BitMask(bit));
      assert Case() == FlipBit(old(Case()), bit);
    }

    /** Cases 1 to 3. */
    method SetInteresting(c: nat, width: nat) returns (ghost t: Tweak)
      requires Valid() && (c, width) in {(1, 1), (2, 2), (3, 4)}
      modifies outBuf
      ensures Valid() && Did(c, t, old(Case()))
    {
      t := Nothing;
      if tempLen < width {
        return;
      }
      var bigEndian := UR(2);
      var at := UR(tempLen - width + 1);
      var j := UR(|Values(width)|);
      var x := Values(width)[j];
      var v: nat :=
        if width == 1 then x % 0x100
        else if width == 2 then if bigEndian == 0 then Swap16(x % 0x1_0000) else x % 0x1_0000
        else if bigEndian == 0 then Swap32(x % 0x1_0000_0000) else x % 0x1_0000_0000;
      assert x in Values(width) && Encodes(v, x, width);
      t := SetWord(at, width, v);
      PokePrefix(outBuf[..], tempLen, at, width, v);
      Store(outBuf, at, width, v);
    }

    /** Cases 4 to 9: add or subtract a small number. */
    method AddSomething(c: nat, width: nat, up: bool) returns (ghost t: Tweak)
      requires Valid()
      requires (c, width, up) in {(4, 1, false), (5, 1, true), (6, 2, false), (7, 2, true), (8, 4, false), (9, 4, true)}
      modifies outBuf
      ensures Valid() && Did(c, t, old(Case()))
    {
      t := Nothing;
      if tempLen < width {
        return;
      }
      var bigEndian := UR(2);
      var at := UR(tempLen - width + 1);
      var num := UR(ARITH_MAX);
      var d: int := 1 + num;
      if !up {
        d := -d;
      }
      RangeOfSpan(Flip16);
      var orig := Peek(outBuf[..], at, width);
      var v: nat := MovedWord(orig, d, width, bigEndian == 0);
      t := SetWord(at, width, v);
      PeekElsewhere(outBuf[..], Case(), at, width);
      PokePrefix(outBuf[..], tempLen, at, width, v);
      assert Offset(d, up) && v == MovedWord(Peek(Case(), at, width), d, width, bigEndian == 0);
      Store(outBuf, at, width, v);
    }

    /** Case 10. */
    method XorSomeByte() returns (ghost t: Tweak)
      requires Valid()
      modifies outBuf
      ensures Valid() && Did(10, t, old(Case()))
    {
      var at := UR(tempLen);
      var r := UR(255);
      var m := 1 + r;
      var v := Flipped(outBuf[at], m);
      t := SetWord(at, 1, v as nat);
      assert XoredBy(Case()[at], m, v as nat);
      assert Poke(Case(), at, 1, v as nat) == Case()[at := v];
      outBuf[at] := v;
      assert Case() == old(Case())[at := v];
    }

    /** Cases 11 and 12. */
    method DeleteSomething(c: nat) returns (ghost t: Tweak)
      requires Valid() && (c == 11 || c == 12)
      modifies outBuf, `tempLen
      ensures Valid() && Did(c, t, old(Case()))
    {
      hide Tweaked;
      t := Nothing;
      if tempLen < 2 {
        NoDeletion(Case(), c, extras + aExtras);
        return;
      }
      var delLen := ChooseBlockLen(tempLen - 1, queueCycle, runOver10m);
      var delFrom := UR(tempLen - delLen + 1);
      t := Delete(delFrom, delLen);
      DeleteIsOffered(Case(), c, delFrom, delLen, extras + aExtras);
      MoveDown(outBuf, tempLen, delFrom, delLen);
      tempLen := tempLen - delLen;
    }

    /** A random byte, or one of the test case. */
    method FillByte() returns (b: byte)
      requires Valid()
    {
      var own := UR(2);
      if own != 0 {
        var r := UR(256);
        b := r as byte;
      } else {
        var k := UR(tempLen);
        b := outBuf[k];
      }
    }

    /** Write a copy of the block at from, or a block of one byte, over dst. */
    method FillBlock(dst: array<byte>, at: nat, copy: bool, from: nat, len: nat) returns (ghost block: seq<byte>)
      requires Valid() && at + len <= dst.Length && (copy ==> from + len <= tempLen)
      modifies dst
      ensures |block| == len && dst[..] == Overlay(old(dst[..]), at, block) && BlockOf(old(Case()), block)
    {
      ghost var s := Case();
      if copy {
        block := s[from..from + len];
        assert SliceOf(s, from, block);
        SliceInPrefix(outBuf[..], tempLen, from, len);
        if dst != outBuf || from != at {
          MemCopy(dst, at, outBuf, from, len);
        }
      } else {
        var b := FillByte();
        block := Repeat(b, len);
        MemSet(dst, at, b, len);
      }
    }

    /** A new buffer with the test case around a gap. */
    method Widened(at: nat, len: nat) returns (newBuf: array<byte>)
      requires Valid() && at <= tempLen
      ensures fresh(newBuf) && newBuf.Length == tempLen + len
      ensures newBuf[..at] == Case()[..at] && newBuf[at + len..] == Case()[at..]
    {
      newBuf := new byte[tempLen + len];
      MemCopy(newBuf, 0, outBuf, 0, at);
      ghost var head := newBuf[..at];
      MemCopy(newBuf, at + len, outBuf, at, tempLen - at);
      assert newBuf[..at] == head;
    }

    /** The new buffer replaces out_buf. */
    method Adopt(newBuf: array<byte>, len: nat)
      requires Valid() && newBuf != inBuf && newBuf.Length == len && 1 <= len <= MAX_FILE
      modifies `outBuf, `tempLen
      ensures Valid() && outBuf == newBuf && Case() == newBuf[..]
    {
      outBuf, tempLen := newBuf, len;
    }

    /** Case 13: insert a copy of a block, or a block of one byte, in a new buffer. */
    method CloneSomething() returns (ghost t: Tweak)
      requires Valid()
      modifies outBuf, `outBuf, `tempLen
      ensures Valid() && (outBuf == old(outBuf) || fresh(outBuf)) && Did(13, t, old(Case()))
    {
      hide BlockOf, Legal, Overlay;
      t := Nothing;
      if tempLen + HAVOC_BLK_XL >= MAX_FILE {
        NothingIsLegal(Case());
        return;
      }
      ghost var s := Case();
      var actuallyClone := UR(4);
      var cloneLen, cloneFrom := 0, 0;
      if actuallyClone != 0 {
        cloneLen := ChooseBlockLen(tempLen, queueCycle, runOver10m);
        cloneFrom := UR(tempLen - cloneLen + 1);
      } else {
        cloneLen := ChooseBlockLen(HAVOC_BLK_XL, queueCycle, runOver10m);
      }
      var cloneTo := UR(tempLen);
      var newBuf := Widened(cloneTo, cloneLen);
      ghost var wide := newBuf[..];
      ghost var block := FillBlock(newBuf, cloneTo, actuallyClone != 0, cloneFrom, cloneLen);
      InsertIsOverlay(s, wide, cloneTo, block);
      t := Insert(cloneTo, block);
      Adopt(newBuf, tempLen + cloneLen);
    }

    /** Case 14: overwrite with a copy of a block, or with one byte. */
    method ReplaceSomething() returns (ghost t: Tweak)
      requires Valid()
      modifies outBuf
      ensures Valid() && Did(14, t, old(Case()))
    {
      hide BlockOf, Legal, Overlay;
      t := Nothing;
      if tempLen < 2 {
        NothingIsLegal(Case());
        return;
      }
      ghost var s, whole := Case(), outBuf[..];
      var copyLen := ChooseBlockLen(tempLen - 1, queueCycle, runOver10m);
      var copyFrom := UR(tempLen - copyLen + 1);
      var copyTo := UR(tempLen - copyLen + 1);
      var copy := UR(4);
      ghost var block := FillBlock(outBuf, copyTo, copy != 0, copyFrom, copyLen);
      ReplaceInPrefix(whole, tempLen, copyTo, block);
      t := Replace(copyTo, block);
    }

    /** An automatic token if there is no other, or by chance; else a user token. */
    method PickToken() returns (tok: Token)
      requires extras + aExtras != []
      ensures tok in extras + aExtras
    {
      var useAuto := |extras| == 0;
      if !useAuto && |aExtras| > 0 {
        var r := UR(2);
        useAuto := r != 0;
      }
      if useAuto {
        var k := UR(|aExtras|);
        tok := aExtras[k];
      } else {
        var k := UR(|extras|);
        tok := extras[k];
      }
    }

    /** Case 15. */
    method ReplaceByToken() returns (ghost t: Tweak)
      requires Valid() && extras + aExtras != []
      modifies outBuf
      ensures Valid() && Did(15, t, old(Case()))
    {
      hide Legal, Overlay;
      t := Nothing;
      ghost var s, whole := Case(), outBuf[..];
      var tok := PickToken();
      if |tok| > tempLen {
        NothingIsLegal(s);
        return;
      }
      var insertAt := UR(tempLen - |tok| + 1);
      CopyToken(outBuf, insertAt, tok);
      ReplaceInPrefix(whole, tempLen, insertAt, tok);
      t := Replace(insertAt, tok);
    }

    /** Case 16: insert a token, in a new buffer. */
    method InsertToken() returns (ghost t: Tweak)
      requires Valid() && extras + aExtras != []
      modifies outBuf, `outBuf, `tempLen
      ensures Valid() && (outBuf == old(outBuf) || fresh(outBuf)) && Did(16, t, old(Case()))
    {
      hide Legal, Overlay;
      t := Nothing;
      ghost var s := Case();
      var insertAt := UR(tempLen + 1);
      var tok := PickToken();
      if tempLen + |tok| >= MAX_FILE {
        NothingIsLegal(s);
        return;
      }
      var newBuf := Widened(insertAt, |tok|);
      ghost var wide := newBuf[..];
      CopyToken(newBuf, insertAt, tok);
      InsertIsOverlay(s, wide, insertAt, tok);
      t := Insert(insertAt, tok);
      Adopt(newBuf, tempLen + |tok|);
    }

    /** The switch. */
    method TweakOnce() returns (ghost c: nat, ghost t: Tweak)
      requires Valid()
      modifies outBuf, `outBuf, `tempLen
      ensures Valid() && (outBuf == old(outBuf) || fresh(outBuf)) && Did(c, t, old(Case()))
    {
      hide Tweaked;
      var r := UR(15 + if |extras| + |aExtras| > 0 then 2 else 0);
      c := r;
      if r == 0 { t := FlipSomeBit(); }
      else if r == 1 { t := SetInteresting(1, 1); }
      else if r == 2 { t := SetInteresting(2, 2); }
      else if r == 3 { t := SetInteresting(3, 4); }
      else if r == 4 { t := AddSomething(4, 1, false); }
      else if r == 5 { t := AddSomething(5, 1, true); }
      else if r == 6 { t := AddSomething(6, 2, false); }
      else if r == 7 { t := AddSomething(7, 2, true); }
      else if r == 8 { t := AddSomething(8, 4, false); }
      else if r == 9 { t := AddSomething(9, 4, true); }
      else if r == 10 { t := XorSomeByte(); }
      else if r <= 12 { t := DeleteSomething(r); }
      else if r == 13 { t := CloneSomething(); }
      else if r == 14 { t := ReplaceSomething(); }
      else if r == 15 { t := ReplaceByToken(); }
      else { t := InsertToken(); }
    }

    /** A stack of tweaks on the test case. */
    method Stack(n: nat) returns (ghost cases: seq<nat>, ghost tweaks: seq<Tweak>)
      requires Valid()
      modifies outBuf, `outBuf, `tempLen
      ensures Valid() && (outBuf == old(outBuf) || fresh(outBuf))
      ensures |tweaks| == n && Stacked(old(Case()), cases, tweaks, extras + aExtras, Case())
    {
      hide Tweaked, Stacked;
      cases, tweaks := [], [];
      StackedNone(Case(), extras + aExtras);
      ghost var s := Case();
      var i := 0;
      while i < n
        invariant 0 <= i <= n && Valid() && (outBuf == old(outBuf) || fresh(outBuf))
        invariant |tweaks| == i && Stacked(s, cases, tweaks, extras + aExtras, Case())
      {
        ghost var q := Case();
        ghost var c, t := TweakOnce();
        StackedMore(s, cases, tweaks, extras + aExtras, q, c, t, Case());
        cases, tweaks := cases + [c], tweaks + [t];
        i := i + 1;
      }
    }

    /** `common_fuzz_stuff`; it may find new paths. */
    method CommonFuzzStuff(queuedPaths: nat) returns (paths: nat)
      requires Valid()
      modifies `log
      ensures log == old(log) + [Case()] && paths >= queuedPaths
    {
      log := log + [outBuf[..tempLen]];
      var found: nat :| 0 <= found;
      paths := queuedPaths + found;
    }

    /** Give out_buf its original size and contents. */
    method RestoreBuf()
      requires Valid()
      modifies outBuf, `outBuf, `tempLen
      ensures Valid() && (outBuf == old(outBuf) || fresh(outBuf))
      ensures tempLen == inBuf.Length && Case() == inBuf[..]
    {
      var len := inBuf.Length;
      if tempLen < len {
        var newBuf := new byte[len];
        MemCopy(newBuf, 0, outBuf, 0, Min(len, outBuf.Length));
        outBuf := newBuf;
      }
      tempLen := len;
      MemCopy(outBuf, 0, inBuf, 0, len);
    }

    /** One round: the target gets the input with 2 to 128 tweaks, and the buffer is restored. */
    method Round(queuedPaths: nat) returns (paths: nat, ghost k: nat, ghost cases: seq<nat>, ghost tweaks: seq<Tweak>)
      requires Valid() && tempLen == inBuf.Length && Case() == inBuf[..]
      modifies outBuf, `outBuf, `tempLen, `log
      ensures Valid() && (outBuf == old(outBuf) || fresh(outBuf))
      ensures tempLen == inBuf.Length && Case() == inBuf[..] == old(inBuf[..]) && paths >= queuedPaths
      ensures |log| == |old(log)| + 1 && log[..|old(log)|] == old(log)
      ensures k < HAVOC_STACK_POW2 && |tweaks| == ShiftLeft(1, 1 + k)
      ensures Stacked(inBuf[..], cases, tweaks, extras + aExtras, log[|log| - 1])
      ensures 1 <= |log[|log| - 1]| <= MAX_FILE
    {
      var pow := UR(HAVOC_STACK_POW2);
      k := pow;
      cases, tweaks := Stack(ShiftLeft(1, 1 + pow));
      paths := CommonFuzzStuff(queuedPaths);
      StackedInBounds(inBuf[..], cases, tweaks, extras + aExtras, Case());
      RestoreBuf();
    }

    /** The stage: whatever is found, it ends after at most 32768 rounds. */
    method RunStage(doingDet: bool, splicing: bool, score: nat, havocDiv: nat, queuedPaths: nat)
      returns (rounds: nat, paths: nat, ghost doublings: nat)
      requires Valid() && tempLen == inBuf.Length && Case() == inBuf[..]
      requires 2 <= score <= HAVOC_MAX_MULT * 100 && havocDiv > 0
      modifies outBuf, `outBuf, `tempLen, `log
      ensures Valid() && tempLen == inBuf.Length && Case() == inBuf[..] == old(inBuf[..])
      ensures rounds == ShiftLeft(
                Max(16, (if splicing then 32 else if doingDet then 1024 else 256) * score / havocDiv / 100), doublings)
      ensures paths >= queuedPaths && (doublings == 0 <==> paths == queuedPaths)
      ensures HAVOC_MIN <= rounds <= 2 * HAVOC_CYCLES_INIT * HAVOC_MAX_MULT == 32768
      ensures |log| == |old(log)| + rounds && log[..|old(log)|] == old(log)
      ensures forall r :: |old(log)| <= r < |log| ==> 1 <= |log[r]| <= MAX_FILE
    {
      hide Stacked;
      var perfScore, stageMax := score, Cycles(doingDet, splicing) * score / havocDiv / 100;
      var havocQueued := queuedPaths;
      paths, doublings := queuedPaths, 0;
      StageMaxBound(Cycles(doingDet, splicing), score, havocDiv);
      if stageMax < HAVOC_MIN {
        stageMax := HAVOC_MIN;
      }
      ghost var base := stageMax;
      hide ShiftLeft;
      ShiftedAgain(base, 0);
      rounds := 0;
      while rounds < stageMax
        invariant Valid() && (outBuf == old(outBuf) || fresh(outBuf))
        invariant tempLen == inBuf.Length && Case() == inBuf[..] == old(inBuf[..])
        invariant HAVOC_MIN <= stageMax && rounds <= stageMax && stageMax == ShiftLeft(base, doublings)
        invariant paths == havocQueued >= queuedPaths && (doublings == 0 <==> paths == queuedPaths)
        invariant doublings == 0 ==> perfScore == score
        invariant 100 * stageMax <= HAVOC_CYCLES_INIT * perfScore && perfScore <= 2 * HAVOC_MAX_MULT * 100
        invariant |log| == |old(log)| + rounds && log[..|old(log)|] == old(log)
        invariant forall r :: |old(log)| <= r < |log| ==> 1 <= |log[r]| <= MAX_FILE
        decreases 32768 - rounds
      {
        ghost var before := log;
        var now, _, _, _ := Round(paths);
        paths := now;
        assert log == before + [log[|log| - 1]];
        if paths != havocQueued {
          if perfScore <= HAVOC_MAX_MULT * 100 {
            stageMax, perfScore := stageMax * 2, perfScore * 2;
            ShiftedAgain(base, doublings);
            doublings := doublings + 1;
          }
          havocQueued := paths;
        }
        rounds := rounds + 1;
      }
    }
  }

  lemma ShiftedAgain(base: nat, s: nat)
    ensures ShiftLeft(base, s + 1) == ShiftLeft(base, s) * 2 && ShiftLeft(base, 0) == base
  {
  }
}
