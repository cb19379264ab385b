/**
 Dictionary tokens: the line `__tokencap_dump` prints for a token, and what `load_extras_file`
 reads from a dictionary file.

 Bytes are numbers; a C string is the part of a buffer before its first NUL.  Character classes
 are those of the C locale.
 */
module TokenDict {
  import opened Bytes

  const MIN_AUTO_EXTRA := 3
  const MAX_AUTO_EXTRA := 32
  const MAX_DICT_FILE := 128
  const MAX_LINE := 8192

  const QUOTE: byte := 34
  const BACKSLASH: byte := 92
  const NEWLINE: byte := 10
  const LETTER_X: byte := 120

  predicate IsSpace(c: byte) { 9 <= c <= 13 || c == 32 }

  predicate IsDigit(c: byte) { 48 <= c <= 57 }

  predicate IsAlnum(c: byte) { IsDigit(c) || 65 <= c <= 90 || 97 <= c <= 122 }

  predicate IsLabel(c: byte) { IsAlnum(c) || c == 95 }

  predicate IsEquals(c: byte) { IsSpace(c) || c == 61 }

  predicate IsXDigit(c: byte) { IsDigit(c) || 65 <= c <= 70 || 97 <= c <= 102 }

  /** The value of a hexadecimal digit of either case. */
  function HexValue(c: byte): (v: nat)
    requires IsXDigit(c)
    ensures v < 16
  {
    (if IsDigit(c) then c - 48 else if c <= 70 then c - 55 else c - 87) as nat
  }

  /** The digit %x prints. */
  function HexDigit(v: nat): (c: byte)
    requires v < 16
    ensures IsXDigit(c) && HexValue(c) == v
  {
    (if v < 10 then 48 + v else 87 + v) as byte
  }

  // ----- the printer -----

  predicate NeedsEscape(c: byte) {
    c <= 31 || c >= 127 || c == QUOTE || c == BACKSLASH
  }

  function Escaped(c: byte): (r: seq<byte>)
    ensures 1 <= |r| <= 4
  {
    if NeedsEscape(c) then [BACKSLASH, LETTER_X, HexDigit(c as nat / 16), HexDigit(c as nat % 16)] else [c]
  }

  function EscapedAll(s: seq<byte>): (r: seq<byte>)
    ensures |s| <= |r| <= 4 * |s|
  {
    if s == [] then [] else EscapedAll(s[..|s| - 1]) + Escaped(s[|s| - 1])
  }

  /** The printed line. */
  function Line(token: seq<byte>): seq<byte> {
    [QUOTE] + EscapedAll(token) + [QUOTE, NEWLINE]
  }

  /** Text ends at its first NUL. */
  function Cut(s: seq<byte>): (r: seq<byte>)
    ensures r <= s && 0 !in r
    ensures |r| < |s| ==> s[|r|] == 0
  {
    if s == [] || s[0] == 0 then [] else [s[0]] + Cut(s[1..])
  }

  /** The bytes that are printed for len bytes at ptr. */
  function TokenOf(ptr: seq<byte>, len: nat, isText: bool): seq<byte>
    requires len <= |ptr| || (isText && 0 in ptr)
  {
    if isText then Cut(ptr[..Min(len, |ptr|)]) else ptr[..len]
  }

  lemma {:induction false} CutStops(s: seq<byte>, k: nat)
    requires k <= |s| && 0 !in s[..k] && (k < |s| ==> s[k] == 0)
    ensures Cut(s) == s[..k]
  {
    if k > 0 {
      assert s[0] == s[..k][0];
      assert s[1..][..k - 1] == s[..k][1..];
      CutStops(s[1..], k - 1);
    }
  }

  lemma EscapedMore(s: seq<byte>, c: byte)
    ensures EscapedAll(s + [c]) == EscapedAll(s) + Escaped(c)
  {
    assert (s + [c])[..|s|] == s;
  }

  lemma EscapedNothing()
    ensures EscapedAll([]) == []
  {
  }

  /** One byte of the token, printed at pos; sprintf also stores a NUL. */
  method PrintByte(buf: array<byte>, pos: nat, c: byte) returns (next: nat)
    requires pos + 5 <= buf.Length
    modifies buf
    ensures next == pos + |Escaped(c)| && buf[..next] == old(buf[..pos]) + Escaped(c)
  {
    if NeedsEscape(c) {
      buf[pos], buf[pos + 1] := BACKSLASH, LETTER_X;
      buf[pos + 2], buf[pos + 3] := HexDigit(c as nat / 16), HexDigit(c as nat % 16);
      buf[pos + 4] := 0;
      next := pos + 4;
    } else {
      buf[pos] := c;
      next := pos + 1;
    }
  }

  /** `__tokencap_dump` with an open output file: what it appends to the file. */
  method Dump(ptr: seq<byte>, len: nat, isText: bool) returns (printed: seq<byte>)
    requires Readable(DumpCall(ptr, len, isText))
    ensures printed == Output(DumpCall(ptr, len, isText))
  {
    hide Escaped, EscapedAll, Cut;
    if len < MIN_AUTO_EXTRA || len > MAX_AUTO_EXTRA {
      return [];
    }
    var buf := new byte[MAX_AUTO_EXTRA * 4 + 1];
    EscapedNothing();
    var i: nat, pos: nat := 0, 0;
    while i < len && !(isText && ptr[i] == 0)
      invariant i <= len && (i < len ==> i < |ptr|) && i <= |ptr|
      invariant isText ==> 0 !in ptr[..i]
      invariant pos <= 4 * i && buf[..pos] == EscapedAll(ptr[..i])
    {
      EscapedMore(ptr[..i], ptr[i]);
      assert ptr[..i + 1] == ptr[..i] + [ptr[i]];
      pos := PrintByte(buf, pos, ptr[i]);
      i := i + 1;
    }
    buf[pos] := 0;
    if isText {
      ghost var whole := ptr[..Min(len, |ptr|)];
      assert whole[..i] == ptr[..i];
      CutStops(whole, i);
    }
    printed := [QUOTE] + buf[..pos] + [QUOTE, NEWLINE];
  }

  // ----- the parser -----

  datatype Error = Malformed | Empty | NonPrintable | BadEscape | TooBig

  /** What a line of the file amounts to: nothing, a token, or the end of the fuzzer. */
  datatype Entry = Ignored | Token(data: seq<byte>) | Fatal(error: Error)

  /** The next byte of a value and the characters it takes, or an error. */
  datatype Next = Got(c: byte, width: nat) | Bad(error: Error)

  function NextByte(s: seq<byte>): (r: Next)
    requires s != []
    ensures r.Got? ==> 0 < r.width <= |s|
  {
    if 1 <= s[0] <= 31 || s[0] >= 128 then Bad(NonPrintable)
    else if s[0] != BACKSLASH then Got(s[0], 1)
    else if |s| >= 2 && (s[1] == BACKSLASH || s[1] == QUOTE) then Got(s[1], 2)
    else if |s| < 4 || s[1] != LETTER_X || !IsXDigit(s[2]) || !IsXDigit(s[3]) then Bad(BadEscape)
    else Got((16 * HexValue(s[2]) + HexValue(s[3])) as byte, 4)
  }

  /** The bytes between the quotes, with their escapes resolved. */
  function Unescaped(s: seq<byte>): Entry {
    if s == [] then Token([])
    else
      match NextByte(s)
      case Bad(error) => Fatal(error)
      case Got(c, width) => Prefixed(c, Unescaped(s[width..]))
  }

  function Prefixed(c: byte, rest: Entry): Entry {
    if rest.Token? then Token([c] + rest.data) else rest
  }

  function DropWhile(s: seq<byte>, cls: byte -> bool): seq<byte> {
    if s != [] && cls(s[0]) then DropWhile(s[1..], cls) else s
  }

  function DropSpacesRight(s: seq<byte>): (r: seq<byte>)
    ensures r <= s
  {
    if s != [] && IsSpace(s[|s| - 1]) then DropSpacesRight(s[..|s| - 1]) else s
  }

  function Digits(s: seq<byte>, acc: nat): nat {
    if s != [] && IsDigit(s[0]) then Digits(s[1..], 10 * acc + (s[0] as nat - 48)) else acc
  }

  /** `atoi`, converted to unsigned for the comparison with the level. */
  function Level(s: seq<byte>): nat {
    var t := DropWhile(s, IsSpace);
    var negated: int := if t != [] && t[0] == 45 then Digits(t[1..], 0) else 0;
    if t != [] && t[0] == 45 then (-negated) % 0x1_0000_0000
    else if t != [] && t[0] == 43 then Digits(t[1..], 0) % 0x1_0000_0000
    else Digits(t, 0) % 0x1_0000_0000
  }

  const AT: byte := 64
  const HASH: byte := 35

  /** The value in quotes; the last quote is gone already. */
  function Quoted(u: seq<byte>): Entry {
    if u == [] || u[0] != QUOTE then Fatal(Malformed)
    else if u[1..] == [] then Fatal(Empty)
    else
      var e := Unescaped(u[1..]);
      if e.Token? && |e.data| > MAX_DICT_FILE then Fatal(TooBig) else e
  }

  /** A line after trimming: label, level, the equals sign, and the value. */
  function Value(s: seq<byte>, dictLevel: nat): Entry {
    var t := DropWhile(s, IsLabel);
    if t == [] || t[0] != AT then Quoted(DropWhile(t, IsEquals))
    else if Level(t[1..]) > dictLevel then Ignored
    else Quoted(DropWhile(DropWhile(t[1..], IsDigit), IsEquals))
  }

  /** One line of the file, a C string. */
  function Parsed(line: seq<byte>, dictLevel: nat): Entry {
    var s := DropSpacesRight(DropWhile(line, IsSpace));
    if s == [] || s[0] == HASH then Ignored
    else if s[|s| - 1] != QUOTE then Fatal(Malformed)
    else Value(s[..|s| - 1], dictLevel)
  }

  // ----- the round trip -----

  lemma UnescapedOne(c: byte, rest: seq<byte>)
    ensures Unescaped(Escaped(c) + rest) == Prefixed(c, Unescaped(rest))
  {
    var s := Escaped(c) + rest;
    if NeedsEscape(c) {
      assert s[..4] == Escaped(c) && s[4..] == rest;
    } else {
      assert s[1..] == rest;
    }
  }

  /** Resolving the escapes of what is printed gives the bytes back. */
  lemma {:induction false} UnescapedEscaped(token: seq<byte>, rest: seq<byte>, read: seq<byte>)
    requires Unescaped(rest) == Token(read)
    ensures Unescaped(EscapedAll(token) + rest) == Token(token + read)
  {
    hide Unescaped, Escaped;
    if token == [] {
      assert EscapedAll(token) + rest == rest && token + read == read;
    } else {
      var n := |token| - 1;
      UnescapedOne(token[n], rest);
      UnescapedEscaped(token[..n], Escaped(token[n]) + rest, [token[n]] + read);
      assert EscapedAll(token) + rest == EscapedAll(token[..n]) + (Escaped(token[n]) + rest);
      assert token[..n] + ([token[n]] + read) == token + read;
    }
  }

  lemma QuotedTrim(e: seq<byte>)
    ensures DropSpacesRight(DropWhile([QUOTE] + e + [QUOTE, NEWLINE], IsSpace)) == [QUOTE] + e + [QUOTE]
  {
    var line := [QUOTE] + e + [QUOTE, NEWLINE];
    assert DropWhile(line, IsSpace) == line;
    assert line[..|line| - 1] == [QUOTE] + e + [QUOTE];
  }

  lemma QuotedValue(e: seq<byte>, dictLevel: nat)
    requires e != [] && Unescaped(e).Token? && |Unescaped(e).data| <= MAX_DICT_FILE
    ensures Value([QUOTE] + e, dictLevel) == Unescaped(e)
  {
    hide Unescaped, Level;
    var s := [QUOTE] + e;
    assert DropWhile(s, IsLabel) == s;
    assert DropWhile(s, IsEquals) == s;
    hide DropWhile;
    assert s[1..] == e;
  }

  /** Reading the line printed for a token gives the token, unless it is empty. */
  lemma LineParsed(token: seq<byte>, dictLevel: nat)
    requires |token| <= MAX_DICT_FILE
    ensures Parsed(Line(token), dictLevel) == if token == [] then Fatal(Empty) else Token(token)
  {
    hide Unescaped, DropWhile, DropSpacesRight, Value;
    var e := EscapedAll(token);
    QuotedTrim(e);
    assert token == [] ==> e == [];
    hide EscapedAll;
    var s := [QUOTE] + e + [QUOTE];
    assert s[..|s| - 1] == [QUOTE] + e;
    if token == [] {
      assert [QUOTE] + e == [QUOTE];
      EmptyValue(dictLevel);
    } else {
      UnescapedNothing();
      UnescapedEscaped(token, [], []);
      assert e + [] == e && token + [] == token;
      QuotedValue(e, dictLevel);
    }
  }

  lemma EmptyValue(dictLevel: nat)
    ensures Value([QUOTE], dictLevel) == Fatal(Empty)
  {
    assert [QUOTE][1..] == [];
  }

  lemma UnescapedNothing()
    ensures Unescaped([]) == Token([])
  {
  }

  // ----- whole files -----

  /** How many bytes fgets takes: up to a newline, at most limit. */
  function LineLength(file: seq<byte>, limit: nat): (n: nat)
    ensures n <= |file| && n <= limit
    ensures file != [] && limit > 0 ==> n > 0
  {
    if file == [] || limit == 0 then 0
    else if file[0] == NEWLINE then 1
    else 1 + LineLength(file[1..], limit - 1)
  }

  datatype Loaded = Extras(tokens: seq<seq<byte>>) | Stopped(error: Error)

  /** `load_extras_file`: the tokens of a file, or the error that stops the fuzzer. */
  function Load(file: seq<byte>, dictLevel: nat): Loaded {
    if file == [] then Extras([])
    else
      var n := LineLength(file, MAX_LINE - 1);
      match Parsed(Cut(file[..n]), dictLevel)
      case Fatal(error) => Stopped(error)
      case Ignored => Load(file[n..], dictLevel)
      case Token(data) =>
        var rest := Load(file[n..], dictLevel);
        if rest.Extras? then Extras([data] + rest.tokens) else rest
  }

  /** The file the printer leaves behind. */
  function Printed(tokens: seq<seq<byte>>): seq<byte> {
    if tokens == [] then [] else Line(tokens[0]) + Printed(tokens[1..])
  }

  predicate Plain(s: seq<byte>) {
    forall k :: 0 <= k < |s| ==> s[k] != NEWLINE && s[k] != 0
  }

  lemma {:induction false} EscapedIsPlain(token: seq<byte>)
    ensures Plain(EscapedAll(token))
  {
    if token != [] {
      EscapedIsPlain(token[..|token| - 1]);
    }
  }

  lemma {:induction false} LineLengthIs(s: seq<byte>, rest: seq<byte>, limit: nat)
    requires Plain(s) && |s| < limit
    ensures LineLength(s + [NEWLINE] + rest, limit) == |s| + 1
  {
    if s != [] {
      assert (s + [NEWLINE] + rest)[1..] == s[1..] + [NEWLINE] + rest;
      LineLengthIs(s[1..], rest, limit - 1);
    }
  }

  lemma FirstLine(token: seq<byte>, rest: seq<byte>)
    requires |token| <= MAX_DICT_FILE
    ensures var file := Line(token) + rest;
            var n := LineLength(file, MAX_LINE - 1);
            file != [] && Cut(file[..n]) == Line(token) && file[n..] == rest
  {
    var s := [QUOTE] + EscapedAll(token) + [QUOTE];
    EscapedIsPlain(token);
    hide EscapedAll;
    LineLengthIs(s, rest, MAX_LINE - 1);
    assert Line(token) == s + [NEWLINE];
    assert Line(token) + rest == s + [NEWLINE] + rest;
    assert (s + [NEWLINE] + rest)[..|s| + 1] == Line(token);
    CutStops(Line(token), |Line(token)|);
  }

  lemma LoadFirst(file: seq<byte>, dictLevel: nat, token: seq<byte>, rest: seq<byte>)
    requires file == Line(token) + rest && |token| <= MAX_DICT_FILE
    ensures Load(file, dictLevel)
         == if token == [] then Stopped(Empty)
            else if Load(rest, dictLevel).Extras? then Extras([token] + Load(rest, dictLevel).tokens)
            else Load(rest, dictLevel)
  {
    FirstLine(token, rest);
    LineParsed(token, dictLevel);
    hide Parsed, Line, LineLength, Cut;
  }

  /** A file printed for any list of tokens loads as exactly these tokens, in order; if one of them is
      empty, the fuzzer stops at it. */
  lemma {:induction false} PrintedLoads(tokens: seq<seq<byte>>, dictLevel: nat)
    requires forall k :: 0 <= k < |tokens| ==> |tokens[k]| <= MAX_DICT_FILE
    ensures Load(Printed(tokens), dictLevel) == if [] in tokens then Stopped(Empty) else Extras(tokens)
  {
    hide Parsed, Line, LineLength, Cut, Load;
    if tokens == [] {
      LoadNothing(dictLevel);
    } else {
      LoadFirst(Printed(tokens), dictLevel, tokens[0], Printed(tokens[1..]));
      PrintedLoads(tokens[1..], dictLevel);
      assert tokens == [tokens[0]] + tokens[1..];
    }
  }

  lemma LoadNothing(dictLevel: nat)
    ensures Load([], dictLevel) == Extras([])
  {
  }

  /** The token is empty, and its line unreadable, exactly when text starts with a NUL. */
  lemma EmptyTokens(ptr: seq<byte>, len: nat, isText: bool)
    requires MIN_AUTO_EXTRA <= len <= MAX_AUTO_EXTRA && (len <= |ptr| || (isText && 0 in ptr))
    ensures TokenOf(ptr, len, isText) == [] <==> isText && ptr[0] == 0
    ensures |TokenOf(ptr, len, isText)| <= MAX_AUTO_EXTRA
  {
  }

  // ----- what the printer leaves behind -----

  /** A call of the printer. */
  datatype DumpCall = DumpCall(ptr: seq<byte>, len: nat, isText: bool)

  predicate Readable(c: DumpCall) {
    c.len <= |c.ptr| || (c.isText && 0 in c.ptr)
  }

  /** What the call appends to the file. */
  function Output(c: DumpCall): seq<byte>
    requires Readable(c)
  {
    if MIN_AUTO_EXTRA <= c.len <= MAX_AUTO_EXTRA then Line(TokenOf(c.ptr, c.len, c.isText)) else []
  }

  /** The file after the calls. */
  function FileOf(calls: seq<DumpCall>): seq<byte>
    requires forall k :: 0 <= k < |calls| ==> Readable(calls[k])
  {
    if calls == [] then [] else Output(calls[0]) + FileOf(calls[1..])
  }

  /** The tokens of the calls with a length in range. */
  function TokensOf(calls: seq<DumpCall>): seq<seq<byte>>
    requires forall k :: 0 <= k < |calls| ==> Readable(calls[k])
  {
    if calls == [] then []
    else
      var c := calls[0];
      assert Readable(c);
      (if MIN_AUTO_EXTRA <= c.len <= MAX_AUTO_EXTRA then [TokenOf(c.ptr, c.len, c.isText)] else [])
      + TokensOf(calls[1..])
  }

  /** Text of a length in range that starts with a NUL. */
  predicate IsBlank(c: DumpCall)
    requires Readable(c)
  {
    MIN_AUTO_EXTRA <= c.len <= MAX_AUTO_EXTRA && c.isText && c.ptr[0] == 0
  }

  lemma {:induction false} FileIsPrinted(calls: seq<DumpCall>)
    requires forall k :: 0 <= k < |calls| ==> Readable(calls[k])
    ensures FileOf(calls) == Printed(TokensOf(calls))
    ensures forall k :: 0 <= k < |TokensOf(calls)| ==> |TokensOf(calls)[k]| <= MAX_AUTO_EXTRA
    ensures [] in TokensOf(calls) <==> exists k :: 0 <= k < |calls| && IsBlank(calls[k])
  {
    hide Line, TokenOf;
    if calls != [] {
      var c, rest := calls[0], TokensOf(calls[1..]);
      FileIsPrinted(calls[1..]);
      assert calls == [c] + calls[1..];
      if MIN_AUTO_EXTRA <= c.len <= MAX_AUTO_EXTRA {
        EmptyTokens(c.ptr, c.len, c.isText);
        var token := TokenOf(c.ptr, c.len, c.isText);
        assert TokensOf(calls) == [token] + rest && ([token] + rest)[1..] == rest;
      } else {
        assert TokensOf(calls) == rest;
      }
    }
  }

  /** Whatever the printer was called with, the file it leaves loads as the tokens in order; only text
      that starts with a NUL stops the fuzzer. */
  lemma DumpedFileLoads(calls: seq<DumpCall>, dictLevel: nat)
    requires forall k :: 0 <= k < |calls| ==> Readable(calls[k])
    ensures Load(FileOf(calls), dictLevel)
         == if exists k :: 0 <= k < |calls| && IsBlank(calls[k]) then Stopped(Empty) else Extras(TokensOf(calls))
  {
    FileIsPrinted(calls);
    PrintedLoads(TokensOf(calls), dictLevel);
  }

  // ----- the parser on its line buffer -----

  /** The string in the buffer from l on: it ends at the NUL at end. */
  predicate StringAt(s: seq<byte>, l: nat, end: nat) {
    l <= end < |s| && s[end] == 0 && forall k :: l <= k < end ==> s[k] != 0
  }

  lemma DropStep(s: seq<byte>, cls: byte -> bool)
    requires s != [] && cls(s[0])
    ensures DropWhile(s, cls) == DropWhile(s[1..], cls)
  {
  }

  lemma DropStop(s: seq<byte>, cls: byte -> bool)
    requires s == [] || !cls(s[0])
    ensures DropWhile(s, cls) == s
  {
  }

  /** The loops that advance over a class of characters; NUL is in none. */
  method SkipWhile(buf: array<byte>, l: nat, cls: byte -> bool, ghost end: nat) returns (next: nat)
    requires StringAt(buf[..], l, end) && !cls(0)
    ensures l <= next <= end && buf[next..end] == DropWhile(buf[l..end], cls)
  {
    hide DropWhile;
    next := l;
    while cls(buf[next])
      invariant l <= next <= end && DropWhile(buf[next..end], cls) == DropWhile(buf[l..end], cls)
      decreases end - next
    {
      DropStep(buf[next..end], cls);
      assert buf[next..end][1..] == buf[next + 1..end];
      next := next + 1;
    }
    DropStop(buf[next..end], cls);
  }

  method StrLen(buf: array<byte>, l: nat, ghost end: nat) returns (n: nat)
    requires StringAt(buf[..], l, end)
    ensures l + n == end
  {
    n := 0;
    while buf[l + n] != 0
      invariant l + n <= end
      decreases end - n
    {
      n := n + 1;
    }
  }

  /** Step back over trailing spaces. */
  method TrimRight(buf: array<byte>, l: nat, end: nat) returns (r: nat)
    requires StringAt(buf[..], l, end)
    ensures l <= r <= end && buf[l..r] == DropSpacesRight(buf[l..end])
  {
    r := end;
    while r > l && IsSpace(buf[r - 1])
      invariant l <= r <= end && DropSpacesRight(buf[l..r]) == DropSpacesRight(buf[l..end])
    {
      assert buf[l..r][..r - l - 1] == buf[l..r - 1];
      r := r - 1;
    }
  }

  /** The switch on the next character; no test reads past the NUL. */
  method DecodeNext(buf: array<byte>, l: nat, ghost end: nat) returns (r: Next)
    requires StringAt(buf[..], l, end) && l < end
    ensures r == NextByte(buf[l..end])
  {
    ghost var s := buf[l..end];
    assert s[0] == buf[l];
    if 1 <= buf[l] <= 31 || buf[l] >= 128 {
      return Bad(NonPrintable);
    }
    if buf[l] != BACKSLASH {
      return Got(buf[l], 1);
    }
    assert |s| >= 2 ==> s[1] == buf[l + 1];
    if buf[l + 1] == BACKSLASH || buf[l + 1] == QUOTE {
      return Got(buf[l + 1], 2);
    }
    assert |s| >= 3 ==> s[2] == buf[l + 2];
    assert |s| >= 4 ==> s[3] == buf[l + 3];
    if buf[l + 1] != LETTER_X || !IsXDigit(buf[l + 2]) || !IsXDigit(buf[l + 3]) {
      return Bad(BadEscape);
    }
    r := Got((16 * HexValue(buf[l + 2]) + HexValue(buf[l + 3])) as byte, 4);
  }

  ghost function PrefixedAll(read: seq<byte>, rest: Entry): Entry {
    if rest.Token? then Token(read + rest.data) else rest
  }

  lemma PrefixedSnoc(read: seq<byte>, c: byte, rest: Entry)
    ensures PrefixedAll(read, Prefixed(c, rest)) == PrefixedAll(read + [c], rest)
  {
    if rest.Token? {
      assert read + ([c] + rest.data) == read + [c] + rest.data;
    }
  }

  /** Copy the value, resolving escapes; the block allocated for it is large enough. */
  method CopyValue(buf: array<byte>, l: nat, end: nat) returns (e: Entry)
    requires StringAt(buf[..], l, end)
    ensures e == Unescaped(buf[l..end])
  {
    hide NextByte, PrefixedAll;
    var data := new byte[end - l];
    var lptr, wptr: nat := l, 0;
    ghost var whole := Unescaped(buf[l..end]);
    assert whole == PrefixedAll(data[..0], whole) by { PrefixedNone(whole); }
    while buf[lptr] != 0
      invariant l <= lptr <= end && wptr <= lptr - l
      invariant whole == PrefixedAll(data[..wptr], Unescaped(buf[lptr..end]))
      decreases end - lptr
    {
      var r := DecodeNext(buf, lptr, end);
      if r.Bad? {
        PrefixedFatal(data[..wptr], r.error);
        return Fatal(r.error);
      }
      PrefixedSnoc(data[..wptr], r.c, Unescaped(buf[lptr + r.width..end]));
      assert buf[lptr..end][r.width..] == buf[lptr + r.width..end];
      ghost var read := data[..wptr];
      data[wptr] := r.c;
      assert data[..wptr + 1] == read + [r.c];
      lptr, wptr := lptr + r.width, wptr + 1;
    }
    e := Token(data[..wptr]);
    PrefixedEnd(data[..wptr]);
  }

  lemma PrefixedNone(e: Entry)
    ensures PrefixedAll([], e) == e
  {
  }

  lemma PrefixedFatal(read: seq<byte>, error: Error)
    ensures PrefixedAll(read, Fatal(error)) == Fatal(error)
  {
  }

  lemma PrefixedEnd(read: seq<byte>)
    ensures PrefixedAll(read, Token([])) == Token(read)
  {
  }

  /** One line of `load_extras_file`, in its line buffer. */
  method ParseLine(buf: array<byte>, dictLevel: nat, ghost end: nat) returns (e: Entry)
    requires StringAt(buf[..], 0, end)
    modifies buf
    ensures e == Parsed(old(buf[..end]), dictLevel)
  {
    hide Value, DropWhile, DropSpacesRight;
    assert buf[..end] == buf[0..end];
    var lptr := SkipWhile(buf, 0, IsSpace, end);
    var n := StrLen(buf, lptr, end);
    var rptr := TrimRight(buf, lptr, lptr + n);
    ghost var s := buf[lptr..rptr];
    buf[rptr] := 0;
    assert s == buf[lptr..rptr];
    if buf[lptr] == 0 || buf[lptr] == HASH {
      return Ignored;
    }
    rptr := rptr - 1;
    if buf[rptr] != QUOTE {
      return Fatal(Malformed);
    }
    buf[rptr] := 0;
    assert s[..|s| - 1] == buf[lptr..rptr];
    e := ParseValue(buf, lptr, rptr, dictLevel);
  }

  /** The line without its last quote. */
  method ParseValue(buf: array<byte>, l: nat, end: nat, dictLevel: nat) returns (e: Entry)
    requires StringAt(buf[..], l, end)
    ensures e == Value(buf[l..end], dictLevel)
  {
    hide Quoted, DropWhile, Level;
    var lptr := SkipWhile(buf, l, IsLabel, end);
    ghost var t := buf[lptr..end];
    if buf[lptr] == AT {
      lptr := lptr + 1;
      assert t[1..] == buf[lptr..end];
      if Level(buf[lptr..end]) > dictLevel {
        return Ignored;
      }
      lptr := SkipWhile(buf, lptr, IsDigit, end);
    }
    lptr := SkipWhile(buf, lptr, IsEquals, end);
    e := ParseQuoted(buf, lptr, end);
  }

  method ParseQuoted(buf: array<byte>, l: nat, end: nat) returns (e: Entry)
    requires StringAt(buf[..], l, end)
    ensures e == Quoted(buf[l..end])
  {
    hide Unescaped;
    ghost var u := buf[l..end];
    assert u != [] ==> u[0] == buf[l];
    if buf[l] != QUOTE {
      return Fatal(Malformed);
    }
    assert u[1..] == buf[l + 1..end];
    if buf[l + 1] == 0 {
      return Fatal(Empty);
    }
    e := CopyValue(buf, l + 1, end);
    if e.Token? && |e.data| > MAX_DICT_FILE {
      e := Fatal(TooBig);
    }
  }

  ghost function Prepended(read: seq<seq<byte>>, rest: Loaded): Loaded {
    if rest.Extras? then Extras(read + rest.tokens) else rest
  }

  lemma {:induction false} CutEnds(s: seq<byte>)
    ensures StringAt(s + [0], 0, |Cut(s)|) && (s + [0])[..|Cut(s)|] == Cut(s)
  {
    if s != [] && s[0] != 0 {
      CutEnds(s[1..]);
      assert (s + [0])[1..] == s[1..] + [0];
      assert forall k :: 1 <= k <= |s| ==> (s + [0])[k] == (s[1..] + [0])[k - 1];
    }
  }

  /** fgets: the next line of the file, with its NUL, in the buffer. */
  method FGets(buf: array<byte>, file: seq<byte>) returns (n: nat)
    requires buf.Length == MAX_LINE && file != []
    modifies buf
    ensures n == LineLength(file, MAX_LINE - 1) && buf[..n + 1] == file[..n] + [0]
  {
    n := LineLength(file, MAX_LINE - 1);
    forall k | 0 <= k < n {
      buf[k] := file[k];
    }
    buf[n] := 0;
  }

  /** Reading one more line. */
  lemma LoadLine(read: seq<seq<byte>>, file: seq<byte>, dictLevel: nat, n: nat)
    requires file != [] && n == LineLength(file, MAX_LINE - 1)
    ensures var e, rest := Parsed(Cut(file[..n]), dictLevel), Load(file[n..], dictLevel);
            var more := if e.Token? then read + [e.data] else read;
            Prepended(read, Load(file, dictLevel)) == if e.Fatal? then Stopped(e.error) else Prepended(more, rest)
  {
    hide Parsed, Cut, LineLength;
  }

  method LoadExtrasFile(file: seq<byte>, dictLevel: nat) returns (r: Loaded)
    ensures r == Load(file, dictLevel)
  {
    hide Parsed, Cut, LineLength, StringAt, Load, Prepended;
    var buf := new byte[MAX_LINE];
    var rest, extras := file, [];
    NothingPrepended(Load(file, dictLevel));
    while rest != []
      invariant Load(file, dictLevel) == Prepended(extras, Load(rest, dictLevel))
      decreases |rest|
    {
      var n := FGets(buf, rest);
      ghost var line := Cut(rest[..n]);
      CutEnds(rest[..n]);
      StringExtends(buf[..n + 1], buf[..], |line|);
      assert buf[..|line|] == buf[..n + 1][..|line|];
      LoadLine(extras, rest, dictLevel, n);
      var e := ParseLine(buf, dictLevel, |line|);
      if e.Fatal? {
        return Stopped(e.error);
      }
      if e.Token? {
        extras := extras + [e.data];
      }
      rest := rest[n..];
    }
    LoadNothing(dictLevel);
    AllPrepended(extras);
    r := Extras(extras);
  }

  lemma NothingPrepended(r: Loaded)
    ensures Prepended([], r) == r
  {
  }

  lemma AllPrepended(read: seq<seq<byte>>)
    ensures Prepended(read, Extras([])) == Extras(read)
  {
  }

  lemma StringExtends(a: seq<byte>, b: seq<byte>, end: nat)
    requires a <= b && StringAt(a, 0, end)
    ensures StringAt(b, 0, end) && end < |a|
  {
  }
}
