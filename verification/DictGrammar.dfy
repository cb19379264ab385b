/**
 The grammar of dictionary files, from the side of whoever writes one: how a byte may be spelled, and
 what a line looks like.  The loader reads exactly these lines.
 */
module DictGrammar {
  import opened Wrappers
  import opened Bytes
  import opened TokenDict

  // ----- values -----

  const LOWER := "0123456789abcdef"
  const UPPER := "0123456789ABCDEF"

  /** d is the hexadecimal digit for v, in either case. */
  predicate IsDigitFor(d: byte, v: nat) {
    v < 16 && (d as int == LOWER[v] as int || d as int == UPPER[v] as int)
  }

  /** w is a way to write c: c itself if it is printable and no backslash; a backslash before a quote or a
      backslash; or `\xNN`. */
  predicate Spells(c: byte, w: seq<byte>) {
    || (w == [c] && 32 <= c <= 127 && c != 92)
    || (w == [92, c] && (c == 34 || c == 92))
    || (|w| == 4 && w[0] == 92 && w[1] == 120 && IsDigitFor(w[2], c as nat / 16) && IsDigitFor(w[3], c as nat % 16))
  }

  /** w spells the bytes of the token one after the other. */
  predicate Spelling(token: seq<byte>, w: seq<byte>) {
    if token == [] then w == []
    else exists n :: 0 < n <= |w| && Spells(token[0], w[..n]) && Spelling(token[1..], w[n..])
  }

  lemma Digit(d: byte)
    ensures IsXDigit(d) ==> IsDigitFor(d, HexValue(d))
    ensures forall v :: IsDigitFor(d, v) ==> IsXDigit(d) && HexValue(d) == v
  {
    assert LOWER[10] == 'a' && LOWER[11] == 'b' && LOWER[12] == 'c' && LOWER[13] == 'd' && LOWER[14] == 'e' && LOWER[15] == 'f';
    assert UPPER[10] == 'A' && UPPER[11] == 'B' && UPPER[12] == 'C' && UPPER[13] == 'D' && UPPER[14] == 'E' && UPPER[15] == 'F';
    assert forall v :: 0 <= v < 10 ==> LOWER[v] as int == 48 + v && UPPER[v] as int == 48 + v;
    assert forall v :: 10 <= v < 16 ==> LOWER[v] as int == 87 + v && UPPER[v] as int == 55 + v;
  }

  /** The next byte is read exactly where it is spelled. */
  lemma NextIff(s: seq<byte>, c: byte, n: nat)
    requires s != [] && 0 !in s
    ensures NextByte(s) == Got(c, n) <==> 0 < n <= |s| && Spells(c, s[..n])
  {
    if |s| >= 4 {
      Digit(s[2]);
      Digit(s[3]);
      HexParts(c);
      if IsXDigit(s[2]) && IsXDigit(s[3]) {
        var v := 16 * HexValue(s[2]) + HexValue(s[3]);
        assert v / 16 == HexValue(s[2]) && v % 16 == HexValue(s[3]);
      }
      assert s[..4][2] == s[2] && s[..4][3] == s[3] && s[..4][0] == s[0] && s[..4][1] == s[1];
    }
    assert s[0] != 0;
    hide IsDigitFor, IsXDigit, HexValue;
    if n == 1 {
      assert s[..1] == [s[0]];
    } else if n == 2 && |s| >= 2 {
      assert s[..2] == [s[0], s[1]];
    }
  }

  lemma HexParts(c: byte)
    ensures c as nat == 16 * (c as nat / 16) + c as nat % 16
  {
  }

  /** Resolving the escapes gives exactly the tokens that the text spells. */
  lemma {:induction false} UnescapedIff(w: seq<byte>, token: seq<byte>)
    requires 0 !in w
    ensures Unescaped(w) == Token(token) <==> Spelling(token, w)
  {
    hide NextByte, Spells;
    if w != [] {
      if NextByte(w).Got? {
        var c, n := NextByte(w).c, NextByte(w).width;
        NextIff(w, c, n);
        if token != [] {
          UnescapedIff(w[n..], token[1..]);
          assert token == [token[0]] + token[1..];
          forall m | 0 < m <= |w| && Spells(token[0], w[..m])
            ensures m == n && token[0] == c
          {
            NextIff(w, token[0], m);
          }
        }
        NotEmpty(w, c, n, token);
      } else if token != [] {
        forall m | 0 < m <= |w|
          ensures !Spells(token[0], w[..m])
        {
          NextIff(w, token[0], m);
        }
      }
    }
  }

  lemma NotEmpty(w: seq<byte>, c: byte, n: nat, token: seq<byte>)
    requires w != [] && NextByte(w) == Got(c, n)
    ensures Unescaped(w) == Token(token) <==>
              token != [] && token[0] == c && Unescaped(w[n..]) == Token(token[1..])
  {
    hide NextByte;
    if Unescaped(w) == Token(token) {
      assert token == [c] + Unescaped(w[n..]).data;
    }
    if token != [] && token[0] == c && Unescaped(w[n..]) == Token(token[1..]) {
      assert token == [c] + token[1..];
    }
  }

  /** Where reading stops: at a character that may not occur, or at a backslash that begins no escape. */
  predicate Offends(s: seq<byte>, error: Error) {
    && s != []
    && match error
       case NonPrintable => s[0] <= 31 || s[0] >= 128
       case BadEscape => s[0] == 92 && forall c, n :: 0 < n <= |s| ==> !Spells(c, s[..n])
       case _ => false
  }

  /** The loader stops at the first place where the text spells nothing, and says why. */
  lemma {:induction false} UnescapedFatal(w: seq<byte>, error: Error)
    requires 0 !in w
    ensures Unescaped(w) == Fatal(error) <==>
              exists k, token :: 0 <= k < |w| && Spelling(token, w[..k]) && Offends(w[k..], error)
  {
    if w != [] {
      if NextByte(w).Got? {
        FatalLater(w, error);
      } else {
        FatalHere(w, error);
      }
    }
  }

  lemma BadByte(w: seq<byte>, error: Error)
    requires w != [] && 0 !in w
    ensures NextByte(w) == Bad(error) <==> Offends(w, error)
  {
    assert w[0] != 0;
    if NextByte(w).Got? {
      NextIff(w, NextByte(w).c, NextByte(w).width);
      assert Spells(NextByte(w).c, w[..NextByte(w).width]);
    } else if w[0] == 92 {
      forall c, n | 0 < n <= |w|
        ensures !Spells(c, w[..n])
      {
        NextIff(w, c, n);
      }
    }
  }

  lemma FatalHere(w: seq<byte>, error: Error)
    requires w != [] && 0 !in w && NextByte(w).Bad?
    ensures Unescaped(w) == Fatal(error) <==>
              exists k, token :: 0 <= k < |w| && Spelling(token, w[..k]) && Offends(w[k..], error)
  {
    BadByte(w, error);
    hide NextByte, Spells, Offends;
    assert w[0..] == w && w[..0] == [] && Spelling([], []);
    if Offends(w, error) {
      assert Spelling([], w[..0]) && Offends(w[0..], error);
    }
    if k, token :| 0 <= k < |w| && Spelling(token, w[..k]) && Offends(w[k..], error) {
      NothingSpelled(w, token, k);
    }
  }

  lemma NothingSpelled(w: seq<byte>, token: seq<byte>, k: nat)
    requires w != [] && 0 !in w && NextByte(w).Bad? && k < |w| && Spelling(token, w[..k])
    ensures k == 0
  {
    hide NextByte, Spells;
    if token != [] {
      var n :| 0 < n <= k && Spells(token[0], w[..k][..n]) && Spelling(token[1..], w[..k][n..]);
      assert w[..k][..n] == w[..n];
      NextIff(w, token[0], n);
    }
  }

  lemma {:induction false} FatalLater(w: seq<byte>, error: Error)
    requires w != [] && 0 !in w && NextByte(w).Got?
    ensures Unescaped(w) == Fatal(error) <==>
              exists k, token :: 0 <= k < |w| && Spelling(token, w[..k]) && Offends(w[k..], error)
    decreases |w|
  {
    var c, n := NextByte(w).c, NextByte(w).width;
    var rest := w[n..];
    FatalAfter(w, error);
    hide NextByte, Spells, Offends, Unescaped;
    if rest != [] {
      if NextByte(rest).Got? {
        FatalLater(rest, error);
      } else {
        FatalHere(rest, error);
      }
    }
    if k, token :| 0 <= k < |rest| && Spelling(token, rest[..k]) && Offends(rest[k..], error) {
      FatalFurther(w, error, c, n, k, token);
    }
    if k, token :| 0 <= k < |w| && Spelling(token, w[..k]) && Offends(w[k..], error) {
      FatalShift(w, error, c, n, k, token);
    }
  }

  lemma FatalAfter(w: seq<byte>, error: Error)
    requires w != [] && NextByte(w).Got?
    ensures Unescaped(w) == Fatal(error) <==> Unescaped(w[NextByte(w).width..]) == Fatal(error)
    ensures Unescaped([]) != Fatal(error)
  {
    hide NextByte;
  }

  lemma FatalFurther(w: seq<byte>, error: Error, c: byte, n: nat, k: nat, token: seq<byte>)
    requires w != [] && 0 !in w && NextByte(w) == Got(c, n) && 0 < n <= |w|
    requires k < |w[n..]| && Spelling(token, w[n..][..k]) && Offends(w[n..][k..], error)
    ensures Spelling([c] + token, w[..n + k]) && Offends(w[n + k..], error)
  {
    NextIff(w, c, n);
    hide NextByte, Spells, Offends;
    assert w[..n + k][..n] == w[..n] && w[..n + k][n..] == w[n..][..k] && w[n + k..] == w[n..][k..];
    assert ([c] + token)[0] == c && ([c] + token)[1..] == token;
  }

  lemma FatalShift(w: seq<byte>, error: Error, c: byte, n: nat, k: nat, token: seq<byte>)
    requires w != [] && 0 !in w && NextByte(w) == Got(c, n) && 0 < n <= |w|
    requires k < |w| && Spelling(token, w[..k]) && Offends(w[k..], error)
    ensures n <= k && token != [] && Spelling(token[1..], w[n..][..k - n]) && Offends(w[n..][k - n..], error)
  {
    hide NextByte, Spells, Offends;
    SpellsSomething(w, error, k, token);
    if token != [] {
      var m :| 0 < m <= k && Spells(token[0], w[..k][..m]) && Spelling(token[1..], w[..k][m..]);
      assert w[..k][..m] == w[..m];
      NextIff(w, token[0], m);
      Slices(w, n, k);
    }
  }

  lemma SpellsSomething(w: seq<byte>, error: Error, k: nat, token: seq<byte>)
    requires w != [] && 0 !in w && NextByte(w).Got? && k < |w| && Spelling(token, w[..k]) && Offends(w[k..], error)
    ensures token != []
  {
    hide NextByte, Spells, Offends;
    assert w[0..] == w;
    BadByte(w, error);
  }

  lemma Slices(w: seq<byte>, n: nat, k: nat)
    requires n <= k <= |w|
    ensures w[..k][n..] == w[n..][..k - n] && w[n..][k - n..] == w[k..]
  {
  }

  // ----- lines -----

  /** A line: indentation, label, level, what stands before the value, the value in quotes, trailing
      space. */
  datatype Parts = Parts(indent: seq<byte>, name: seq<byte>, level: Option<seq<byte>>, equals: seq<byte>,
    value: seq<byte>, trail: seq<byte>)

  predicate AllIn(s: seq<byte>, cls: byte -> bool) {
    forall k :: 0 <= k < |s| ==> cls(s[k])
  }

  predicate Written(p: Parts) {
    && AllIn(p.indent, IsSpace) && AllIn(p.name, IsLabel) && AllIn(p.equals, IsEquals) && AllIn(p.trail, IsSpace)
    && (p.level.Some? ==> AllIn(p.level.value, IsDigit)) && 0 !in p.value
  }

  function LevelText(p: Parts): seq<byte> {
    if p.level.Some? then [AT] + p.level.value else []
  }

  function Text(p: Parts): seq<byte> {
    p.indent + p.name + LevelText(p) + p.equals + [QUOTE] + p.value + [QUOTE] + p.trail
  }

  /** The number that decimal digits write. */
  function Decimal(ds: seq<byte>): int {
    if ds == [] then 0 else 10 * Decimal(ds[..|ds| - 1]) + (ds[|ds| - 1] as int - 48)
  }

  lemma {:induction false} DigitsAre(ds: seq<byte>, rest: seq<byte>, acc: nat)
    requires AllIn(ds, IsDigit) && (rest == [] || !IsDigit(rest[0]))
    ensures Digits(ds + rest, acc) == Power10(|ds|) * acc + Decimal(ds)
  {
    if ds == [] {
      assert ds + rest == rest;
    } else {
      var more := 10 * acc + (ds[0] as nat - 48);
      assert (ds + rest)[1..] == ds[1..] + rest;
      DigitsAre(ds[1..], rest, more);
      FirstDigit(ds);
      TimesTen(Power10(|ds| - 1), acc, ds[0] as nat - 48);
    }
  }

  function Power10(n: nat): nat {
    if n == 0 then 1 else 10 * Power10(n - 1)
  }

  lemma TimesTen(p: nat, acc: nat, d: nat)
    ensures p * (10 * acc + d) == 10 * p * acc + p * d
  {
  }

  lemma {:induction false} FirstDigit(ds: seq<byte>)
    requires ds != []
    ensures Decimal(ds) == Power10(|ds| - 1) * (ds[0] as int - 48) + Decimal(ds[1..])
  {
    if |ds| > 1 {
      var n := |ds| - 1;
      FirstDigit(ds[..n]);
      assert ds[..n][1..] == ds[1..][..n - 1];
    }
  }

  lemma {:induction false} DropAll(pre: seq<byte>, rest: seq<byte>, cls: byte -> bool)
    requires AllIn(pre, cls) && (rest == [] || !cls(rest[0]))
    ensures DropWhile(pre + rest, cls) == rest
  {
    if pre == [] {
      assert pre + rest == rest;
    } else {
      assert (pre + rest)[1..] == pre[1..] + rest;
      DropAll(pre[1..], rest, cls);
    }
  }

  lemma {:induction false} DropSplits(s: seq<byte>, cls: byte -> bool) returns (pre: seq<byte>)
    ensures s == pre + DropWhile(s, cls) && AllIn(pre, cls)
    ensures DropWhile(s, cls) != [] ==> !cls(DropWhile(s, cls)[0])
  {
    if s != [] && cls(s[0]) {
      pre := DropSplits(s[1..], cls);
      pre := [s[0]] + pre;
    } else {
      pre := [];
    }
  }

  lemma {:induction false} TrimAll(s: seq<byte>, trail: seq<byte>)
    requires s != [] && !IsSpace(s[|s| - 1]) && AllIn(trail, IsSpace)
    ensures DropSpacesRight(s + trail) == s
  {
    if trail == [] {
      assert s + trail == s;
    } else {
      assert (s + trail)[..|s + trail| - 1] == s + trail[..|trail| - 1];
      TrimAll(s, trail[..|trail| - 1]);
    }
  }

  lemma {:induction false} TrimSplits(s: seq<byte>) returns (trail: seq<byte>)
    ensures s == DropSpacesRight(s) + trail && AllIn(trail, IsSpace)
    ensures DropSpacesRight(s) != [] ==> !IsSpace(DropSpacesRight(s)[|DropSpacesRight(s)| - 1])
  {
    if s != [] && IsSpace(s[|s| - 1]) {
      trail := TrimSplits(s[..|s| - 1]);
      trail := trail + [s[|s| - 1]];
    } else {
      trail := [];
    }
  }

  /** The line without indentation and trailing space, and without the last quote. */
  function Front(p: Parts): seq<byte> {
    p.name + LevelText(p) + p.equals + [QUOTE] + p.value
  }

  /** Indentation ends where the rest begins. */
  predicate Tight(p: Parts) {
    p.name == [] && p.level.None? && p.equals != [] ==> !IsSpace(p.equals[0])
  }

  lemma Tighten(p: Parts) returns (q: Parts)
    requires Written(p)
    ensures Written(q) && Text(q) == Text(p) && Tight(q) && q.level == p.level && q.value == p.value
  {
    q := p;
    if p.name == [] && p.level.None? {
      var pre := DropSplits(p.equals, IsSpace);
      var rest := DropWhile(p.equals, IsSpace);
      assert p.equals == pre + rest;
      forall k | 0 <= k < |rest|
        ensures IsEquals(rest[k])
      {
        assert rest[k] == p.equals[|pre| + k];
      }
      q := p.(indent := p.indent + pre, equals := rest);
      assert LevelText(p) == [] && LevelText(q) == [];
      assert Text(q) == Text(p);
    }
  }

  lemma FrontStarts(p: Parts)
    requires Written(p) && Tight(p)
    ensures Front(p) != [] && !IsSpace(Front(p)[0]) && Front(p)[0] != HASH
  {
    var x := LevelText(p) + p.equals + [QUOTE] + p.value;
    assert Front(p) == p.name + x;
    assert p.name != [] ==> Front(p)[0] == p.name[0];
    assert p.name == [] ==> Front(p)[0] == x[0];
  }

  lemma TrimsToFront(p: Parts)
    requires Written(p) && Tight(p)
    ensures DropSpacesRight(DropWhile(Text(p), IsSpace)) == Front(p) + [QUOTE]
  {
    FrontStarts(p);
    var core := Front(p) + [QUOTE] + p.trail;
    assert Text(p) == p.indent + core;
    DropAll(p.indent, core, IsSpace);
    TrimAll(Front(p) + [QUOTE], p.trail);
  }

  /** What the front amounts to, with the level that is compared. */
  lemma FrontValue(p: Parts, dictLevel: nat)
    requires Written(p)
    ensures Value(Front(p), dictLevel)
         == if p.level.Some? && Decimal(p.level.value) % 0x1_0000_0000 > dictLevel then Ignored
            else Quoted([QUOTE] + p.value)
  {
    var rest := p.equals + [QUOTE] + p.value;
    var x := LevelText(p) + rest;
    assert Front(p) == p.name + x;
    hide DropWhile, Quoted, Level;
    assert p.equals + ([QUOTE] + p.value) == rest;
    DropAll(p.equals, [QUOTE] + p.value, IsEquals);
    RestStarts(p, rest);
    DropAll(p.name, x, IsLabel);
    if p.level.Some? {
      var ds := p.level.value;
      assert x == [AT] + (ds + rest);
      assert x[1..] == ds + rest;
      DropAll(ds, rest, IsDigit);
      LevelIs(ds, p.equals, p.value);
    } else {
      assert x == rest;
    }
  }

  lemma RestStarts(p: Parts, rest: seq<byte>)
    requires Written(p) && rest == p.equals + [QUOTE] + p.value
    ensures rest != [] && !IsLabel(rest[0]) && !IsDigit(rest[0]) && rest[0] != AT
    ensures forall pre :: pre + rest != []
  {
    assert p.equals != [] ==> rest[0] == p.equals[0];
    assert p.equals == [] ==> rest[0] == QUOTE;
  }

  lemma LevelIs(ds: seq<byte>, equals: seq<byte>, value: seq<byte>)
    requires AllIn(ds, IsDigit) && AllIn(equals, IsEquals)
    ensures Level(ds + (equals + [QUOTE] + value)) == Decimal(ds) % 0x1_0000_0000
  {
    var rest := equals + [QUOTE] + value;
    assert rest[0] == if equals != [] then equals[0] else QUOTE;
    var s := ds + rest;
    if ds != [] {
      assert s[0] == ds[0];
      DropStop(s, IsSpace);
      DigitsAre(ds, rest, 0);
      DecimalIsNat(ds);
    } else {
      var pre := DropSplits(equals, IsSpace);
      var t := DropWhile(equals, IsSpace) + [QUOTE] + value;
      assert equals != [] && t != [] ==> t[0] == QUOTE || t[0] == equals[|pre|];
      assert s == pre + t;
      DropAll(pre, t, IsSpace);
    }
  }

  lemma {:induction false} DecimalIsNat(ds: seq<byte>)
    requires AllIn(ds, IsDigit)
    ensures Decimal(ds) >= 0
  {
    if ds != [] {
      DecimalIsNat(ds[..|ds| - 1]);
    }
  }

  /** A line written this way: it is skipped if its level is too high, and otherwise its value is read. */
  lemma TextParsed(p: Parts, dictLevel: nat)
    requires Written(p)
    ensures Parsed(Text(p), dictLevel)
         == if p.level.Some? && Decimal(p.level.value) % 0x1_0000_0000 > dictLevel then Ignored
            else Quoted([QUOTE] + p.value)
  {
    var q := Tighten(p);
    FrontStarts(q);
    TrimsToFront(q);
    hide DropWhile, DropSpacesRight, Value, Quoted, Text;
    var s := Front(q) + [QUOTE];
    assert s[..|s| - 1] == Front(q) && s[0] == Front(q)[0];
    FrontValue(q, dictLevel);
  }

  /** Every line that is written this way, whatever the spelling of its bytes: it is skipped if it has a
      level above the one asked for; otherwise it gives the token, or stops the fuzzer if the token is
      too big or the value empty. */
  lemma HandWritten(p: Parts, token: seq<byte>, dictLevel: nat)
    requires Written(p) && Spelling(token, p.value)
    ensures Parsed(Text(p), dictLevel)
         == if p.level.Some? && Decimal(p.level.value) % 0x1_0000_0000 > dictLevel then Ignored
            else if p.value == [] then Fatal(Empty)
            else if |token| > MAX_DICT_FILE then Fatal(TooBig)
            else Token(token)
  {
    hide Unescaped, Spelling, Text, Decimal;
    TextParsed(p, dictLevel);
    UnescapedIff(p.value, token);
    assert ([QUOTE] + p.value)[1..] == p.value;
  }

  lemma QuoteFirst(v: seq<byte>)
    ensures Quoted(v).Token? ==> v != [] && v == [QUOTE] + v[1..]
  {
    hide Unescaped;
  }

  /** What stands behind the label of a front: a level or none, the equals sign, and the value. */
  lemma BehindLabel(u: seq<byte>, token: seq<byte>, dictLevel: nat) returns (level: Option<seq<byte>>, x: seq<byte>)
    requires Value(u, dictLevel) == Token(token)
    ensures DropWhile(u, IsLabel) == (if level.Some? then [AT] + level.value else []) + x
    ensures level.Some? ==> AllIn(level.value, IsDigit)
    ensures Quoted(DropWhile(x, IsEquals)) == Token(token)
  {
    hide DropWhile, Quoted, Level;
    var t := DropWhile(u, IsLabel);
    level, x := None, t;
    if t != [] && t[0] == AT {
      var ds := DropSplits(t[1..], IsDigit);
      level, x := Some(ds), DropWhile(t[1..], IsDigit);
    }
  }

  lemma Assembled(name: seq<byte>, level: seq<byte>, equals: seq<byte>, value: seq<byte>)
    ensures name + (level + (equals + ([QUOTE] + value))) == name + level + equals + [QUOTE] + value
  {
  }

  /** A front whose value is read is name, level, equals and a quote before the value. */
  lemma FrontIsWritten(u: seq<byte>, token: seq<byte>, dictLevel: nat) returns (p: Parts)
    requires Value(u, dictLevel) == Token(token)
    ensures u == Front(p) && p.indent == p.trail == [] && Quoted([QUOTE] + p.value) == Token(token)
    ensures AllIn(p.name, IsLabel) && AllIn(p.equals, IsEquals) && (p.level.Some? ==> AllIn(p.level.value, IsDigit))
  {
    hide DropWhile, Value, Quoted, AllIn;
    var name := DropSplits(u, IsLabel);
    var level, x := BehindLabel(u, token, dictLevel);
    var equals := DropSplits(x, IsEquals);
    var v := DropWhile(x, IsEquals);
    QuoteFirst(v);
    p := Parts([], name, level, equals, v[1..], []);
    Assembled(name, LevelText(p), equals, v[1..]);
  }

  /** A line that gives a token is written this way. */
  lemma TokenIsWritten(line: seq<byte>, token: seq<byte>, dictLevel: nat) returns (p: Parts)
    requires 0 !in line && Parsed(line, dictLevel) == Token(token)
    ensures Written(p) && line == Text(p) && Spelling(token, p.value)
  {
    hide DropWhile, DropSpacesRight, Unescaped, Value, Spelling;
    var indent := DropSplits(line, IsSpace);
    var inner := DropWhile(line, IsSpace);
    var trail := TrimSplits(inner);
    var s := DropSpacesRight(inner);
    assert s == s[..|s| - 1] + [QUOTE];
    var q := FrontIsWritten(s[..|s| - 1], token, dictLevel);
    p := q.(indent := indent, trail := trail);
    assert line == indent + (Front(q) + [QUOTE] + trail);
    assert Front(p) == Front(q);
    TextIs(p);
    ValueIsInside(line, p);
    UnescapedIff(p.value, token);
    assert ([QUOTE] + p.value)[1..] == p.value;
  }

  lemma TextIs(p: Parts)
    ensures Text(p) == p.indent + (Front(p) + [QUOTE] + p.trail)
  {
  }

  lemma ValueIsInside(line: seq<byte>, p: Parts)
    requires line == Text(p) && 0 !in line
    ensures 0 !in p.value
  {
    var pre := p.indent + p.name + LevelText(p) + p.equals + [QUOTE];
    assert line == pre + p.value + ([QUOTE] + p.trail);
    forall k | 0 <= k < |p.value|
      ensures p.value[k] != 0
    {
      assert p.value[k] == line[|pre| + k];
    }
  }

  /** The loader takes exactly the lines that are written as a line for the token, with a level that is not
      too high. */
  lemma LineIff(line: seq<byte>, token: seq<byte>, dictLevel: nat)
    requires 0 !in line
    ensures Parsed(line, dictLevel) == Token(token) <==>
              exists p :: Written(p) && line == Text(p) && Spelling(token, p.value)
                && !(p.level.Some? && Decimal(p.level.value) % 0x1_0000_0000 > dictLevel)
                && p.value != [] && |token| <= MAX_DICT_FILE
  {
    hide Parsed, Spelling, Text, Decimal;
    if Parsed(line, dictLevel) == Token(token) {
      var p := TokenIsWritten(line, token, dictLevel);
      HandWritten(p, token, dictLevel);
    }
    forall p | Written(p) && line == Text(p) && Spelling(token, p.value)
      ensures Parsed(line, dictLevel)
           == if p.level.Some? && Decimal(p.level.value) % 0x1_0000_0000 > dictLevel then Ignored
              else if p.value == [] then Fatal(Empty)
              else if |token| > MAX_DICT_FILE then Fatal(TooBig)
              else Token(token)
    {
      HandWritten(p, token, dictLevel);
    }
  }

  /** Blank lines and comments are skipped. */
  lemma SkippedLines(indent: seq<byte>, rest: seq<byte>, dictLevel: nat)
    requires AllIn(indent, IsSpace)
    ensures Parsed(indent, dictLevel) == Ignored && Parsed(indent + [HASH] + rest, dictLevel) == Ignored
  {
    assert indent + [] == indent && indent + ([HASH] + rest) == indent + [HASH] + rest;
    DropAll(indent, [], IsSpace);
    DropAll(indent, [HASH] + rest, IsSpace);
    StaysFirst([HASH] + rest);
  }

  lemma {:induction false} StaysFirst(s: seq<byte>)
    requires s != [] && !IsSpace(s[0])
    ensures DropSpacesRight(s) != [] && DropSpacesRight(s)[0] == s[0]
  {
    if IsSpace(s[|s| - 1]) {
      StaysFirst(s[..|s| - 1]);
    }
  }

  lemma CutLine(s: seq<byte>, rest: seq<byte>)
    requires Plain(s) && |s| < MAX_LINE - 1
    ensures var file := s + [NEWLINE] + rest;
            var n := LineLength(file, MAX_LINE - 1);
            n == |s| + 1 && Cut(file[..n]) == s + [NEWLINE] && file[n..] == rest
  {
    hide LineLength, Cut;
    LineLengthIs(s, rest, MAX_LINE - 1);
    var file := s + [NEWLINE] + rest;
    assert file[..|s| + 1] == s + [NEWLINE] && file[|s| + 1..] == rest;
    NoZero(s);
    CutStops(s + [NEWLINE], |s| + 1);
  }

  lemma NoZero(s: seq<byte>)
    requires Plain(s)
    ensures forall k :: 0 <= k < |s| + 1 ==> (s + [NEWLINE])[k] != 0
    ensures (s + [NEWLINE])[..|s| + 1] == s + [NEWLINE]
  {
  }

  function After(e: Entry, rest: Loaded): Loaded {
    match e
    case Fatal(error) => Stopped(error)
    case Ignored => rest
    case Token(data) => if rest.Extras? then Extras([data] + rest.tokens) else rest
  }

  lemma LoadUnfolds(file: seq<byte>, dictLevel: nat, n: nat)
    requires file != [] && n == LineLength(file, MAX_LINE - 1)
    ensures Load(file, dictLevel) == After(Parsed(Cut(file[..n]), dictLevel), Load(file[n..], dictLevel))
  {
    hide Parsed, LineLength, Cut;
  }

  /** A file is read line by line. */
  lemma LoadLine(s: seq<byte>, rest: seq<byte>, dictLevel: nat)
    requires Plain(s) && |s| < MAX_LINE - 1
    ensures Load(s + [NEWLINE] + rest, dictLevel) == After(Parsed(s + [NEWLINE], dictLevel), Load(rest, dictLevel))
  {
    hide Parsed, LineLength, Cut, Load, After;
    CutLine(s, rest);
    LoadUnfolds(s + [NEWLINE] + rest, dictLevel, |s| + 1);
  }
}
