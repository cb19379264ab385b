/**
 The two dictionaries of the fuzzer: user tokens, sorted by size when they are loaded, and tokens
 collected on the way by `maybe_add_auto`, of which the most used ones are kept sorted by size.

 What `qsort` makes of equal elements is left open.
 */
module AutoExtras {
  import opened Bytes
  import opened DupTests
  import opened DetStages
  import opened DetFuzzer
  import opened DictStages

  const MAX_AUTO_EXTRAS := 500

  /** `struct extra_data`; hits is a u32. */
  datatype Extra = Extra(data: Token, hits: nat)

  // ----- tokens -----

  /** `tolower` in the C locale. */
  function Lower(b: byte): byte {
    if 65 <= b <= 90 then b + 32 else b
  }

  predicate SameNoCase(a: seq<byte>, b: seq<byte>) {
    |a| == |b| && forall i :: 0 <= i < |a| ==> Lower(a[i]) == Lower(b[i])
  }

  predicate IsRun(t: Token) {
    forall i :: 0 <= i < |t| ==> t[i] == t[0]
  }

  /** A two- or four-byte token that is a builtin value in one of the byte orders.  The u16 read is
      compared with an s16, so that a negative value only counts when it is swapped. */
  predicate IsBuiltin(t: Token) {
    || (|t| == 2 && exists j: nat :: j < |INTERESTING_16| && IsWord16(Word16(t), INTERESTING_16[j]))
    || (|t| == 4 && exists j: nat :: j < |INTERESTING_32| && IsWord32(Word32(t), INTERESTING_32[j]))
  }

  function Word16(t: Token): int
    requires |t| == 2
  {
    OfBytes(t[0] as int, t[1] as int, 0, 0)
  }

  function Word32(t: Token): int
    requires |t| == 4
  {
    OfBytes(t[0] as int, t[1] as int, t[2] as int, t[3] as int)
  }

  predicate IsWord16(v: int, value: int) {
    v == value || v == Swap16(value % 0x1_0000)
  }

  predicate IsWord32(v: int, value: int) {
    v == value % 0x1_0000_0000 || v == Swap32(value % 0x1_0000_0000)
  }

  /** A token that is not collected: a run of one byte, a builtin value, or a user token up to case. */
  predicate Rejected(t: Token, extras: seq<Token>) {
    IsRun(t) || IsBuiltin(t) || exists k: nat :: k < |extras| && SameNoCase(extras[k], t)
  }

  // ----- sorting -----

  predicate DescendingUse(es: seq<Extra>) {
    forall a, b :: 0 <= a < b < |es| ==> es[a].hits >= es[b].hits
  }

  predicate AscendingSize(es: seq<Extra>) {
    forall a, b :: 0 <= a < b < |es| ==> |es[a].data| <= |es[b].data|
  }

  /** The difference of two such counts, taken in 32 bits, has the right sign. */
  predicate FewHits(es: seq<Extra>) {
    forall a :: 0 <= a < |es| ==> es[a].hits < 0x8000_0000
  }

  /** `qsort` with `compare_extras_use_d` and with `compare_extras_len`, the latter on user tokens too. */
  datatype Qsort = Qsort(byUse: seq<Extra> -> seq<Extra>, bySize: seq<Extra> -> seq<Extra>,
    user: seq<Token> -> seq<Token>)

  ghost predicate Sorts(q: Qsort) {
    && (forall ts :: multiset(q.user(ts)) == multiset(ts) && SortedBySize(q.user(ts)))
    && forall es ::
      && multiset(q.byUse(es)) == multiset(es) && (FewHits(es) ==> DescendingUse(q.byUse(es)))
      && multiset(q.bySize(es)) == multiset(es) && AscendingSize(q.bySize(es))
  }

  function Used(n: nat): nat {
    Min(n, USE_AUTO_EXTRAS)
  }

  /** By use; then the top entries by size. */
  function Arranged(q: Qsort, es: seq<Extra>): seq<Extra> {
    var byUse := q.byUse(es);
    q.bySize(byUse[..Used(|byUse|)]) + byUse[Used(|byUse|)..]
  }

  /** The entries at the top are sorted by size; and unless counts are huge each of them was used at
      least as often as each of the others. */
  predicate TopSorted(es: seq<Extra>) {
    AscendingSize(es[..Used(|es|)])
  }

  predicate TopUsedMost(es: seq<Extra>) {
    forall a, b :: 0 <= a < Used(|es|) <= b < |es| ==> es[a].hits >= es[b].hits
  }

  lemma ArrangedIs(q: Qsort, es: seq<Extra>)
    requires Sorts(q)
    ensures multiset(Arranged(q, es)) == multiset(es) && |Arranged(q, es)| == |es|
    ensures TopSorted(Arranged(q, es)) && (FewHits(es) ==> TopUsedMost(Arranged(q, es)))
  {
    var byUse := q.byUse(es);
    SameSize(byUse, es);
    var m := Used(|byUse|);
    var top, rest := byUse[..m], byUse[m..];
    assert byUse == top + rest;
    SameSize(q.bySize(top), top);
    var r := q.bySize(top) + rest;
    assert r[..m] == q.bySize(top);
    if FewHits(es) {
      forall a, b | 0 <= a < m <= b < |r|
        ensures r[a].hits >= r[b].hits
      {
        assert r[a] in multiset(q.bySize(top));
        var c :| 0 <= c < m && top[c] == r[a];
        assert byUse[c] == r[a] && byUse[b] == r[b];
      }
    }
  }

  lemma SameSize(a: seq<Extra>, b: seq<Extra>)
    requires multiset(a) == multiset(b)
    ensures |a| == |b|
  {
    assert |multiset(a)| == |a| && |multiset(b)| == |b|;
  }

  // ----- what a call does -----

  predicate Matches(e: Extra, t: Token) {
    SameNoCase(e.data, t)
  }

  function FirstMatch(es: seq<Extra>, t: Token): (k: nat)
    ensures k <= |es| && (k < |es| ==> Matches(es[k], t)) && forall m :: 0 <= m < k ==> !Matches(es[m], t)
  {
    if es == [] || Matches(es[0], t) then 0 else 1 + FirstMatch(es[1..], t)
  }

  /** The list before it is sorted: one more hit, a new entry, or a new entry in the place of one from
      the bottom half. */
  function Noted(es: seq<Extra>, t: Token, ur: nat): seq<Extra>
    requires |es| <= MAX_AUTO_EXTRAS && ur < MAX_AUTO_EXTRAS / 2
  {
    var k := FirstMatch(es, t);
    if k < |es| then es[k := Extra(es[k].data, (es[k].hits + 1) % 0x1_0000_0000)]
    else if |es| < MAX_AUTO_EXTRAS then es + [Extra(t, 0)]
    else es[MAX_AUTO_EXTRAS / 2 + ur := Extra(t, 0)]
  }

  /** No two tokens are equal up to case. */
  ghost predicate Different(es: seq<Extra>) {
    forall a, b :: 0 <= a < b < |es| ==> !SameNoCase(es[a].data, es[b].data)
  }

  /** None is a run or a builtin value; and none is a user token, unless it was collected early, before
      the user tokens were loaded. */
  ghost predicate NoneRejected(es: seq<Extra>, extras: seq<Token>, early: set<Token>) {
    forall a :: 0 <= a < |es| ==> !Rejected(es[a].data, if es[a].data in early then [] else extras)
  }

  lemma NoCaseSymmetric(a: seq<byte>, b: seq<byte>)
    ensures SameNoCase(a, b) <==> SameNoCase(b, a)
  {
  }

  lemma FewerReject(t: Token, extras: seq<Token>)
    ensures Rejected(t, []) ==> Rejected(t, extras)
  {
  }

  lemma NotedKeeps(es: seq<Extra>, t: Token, ur: nat, extras: seq<Token>, early: set<Token>)
    requires |es| <= MAX_AUTO_EXTRAS && ur < MAX_AUTO_EXTRAS / 2
    requires Different(es) && NoneRejected(es, extras, early) && !Rejected(t, extras)
    ensures Different(Noted(es, t, ur)) && NoneRejected(Noted(es, t, ur), extras, early)
    ensures |Noted(es, t, ur)| <= MAX_AUTO_EXTRAS
  {
    FewerReject(t, extras);
    hide Rejected;
    var now := Noted(es, t, ur);
    forall a, b | 0 <= a < b < |now|
      ensures !SameNoCase(now[a].data, now[b].data)
    {
      if now[a].data == t {
        NoCaseSymmetric(now[a].data, now[b].data);
      }
      if FirstMatch(es, t) == |es| {
        assert b < |es| && now[b] == es[b] ==> !Matches(es[b], t);
        assert a < |es| && now[a] == es[a] ==> !Matches(es[a], t);
      }
    }
  }

  /** Different tokens stay different in any order: the elements of the multiset say it. */
  ghost predicate AllDifferent(m: multiset<Extra>) {
    && (forall x :: x in m ==> m[x] == 1)
    && (forall x, y :: x in m && y in m && x != y ==> !SameNoCase(x.data, y.data))
  }

  lemma {:induction false} CountOne(es: seq<Extra>, x: Extra, a: nat, b: nat)
    requires a < b < |es| && es[a] == x && es[b] == x
    ensures multiset(es)[x] >= 2
  {
    assert es == es[..b] + es[b..];
    assert es[..b][a] == x && es[b..][0] == x;
    assert x in multiset(es[..b]) && x in multiset(es[b..]);
  }

  lemma {:induction false} CountAtMostOne(es: seq<Extra>)
    requires forall a, b :: 0 <= a < b < |es| ==> es[a] != es[b]
    ensures forall x :: x in multiset(es) ==> multiset(es)[x] == 1
  {
    if es != [] {
      var n := |es| - 1;
      CountAtMostOne(es[..n]);
      assert es == es[..n] + [es[n]];
      assert es[n] !in es[..n];
    }
  }

  lemma DifferentIsAllDifferent(es: seq<Extra>)
    ensures Different(es) <==> AllDifferent(multiset(es))
  {
    if Different(es) {
      forall a, b | 0 <= a < b < |es|
        ensures es[a] != es[b]
      {
        assert SameNoCase(es[a].data, es[a].data);
      }
      CountAtMostOne(es);
      forall x, y | x in multiset(es) && y in multiset(es) && x != y
        ensures !SameNoCase(x.data, y.data)
      {
        var a :| 0 <= a < |es| && es[a] == x;
        var b :| 0 <= b < |es| && es[b] == y;
        NoCaseSymmetric(x.data, y.data);
      }
    }
    if AllDifferent(multiset(es)) {
      forall a, b | 0 <= a < b < |es|
        ensures !SameNoCase(es[a].data, es[b].data)
      {
        if es[a] == es[b] {
          CountOne(es, es[a], a, b);
        }
        assert es[a] in multiset(es) && es[b] in multiset(es);
      }
    }
  }

  lemma ArrangedKeeps(q: Qsort, es: seq<Extra>, extras: seq<Token>, early: set<Token>)
    requires Sorts(q) && Different(es) && NoneRejected(es, extras, early)
    ensures Different(Arranged(q, es)) && NoneRejected(Arranged(q, es), extras, early)
  {
    hide Rejected;
    var r := Arranged(q, es);
    ArrangedIs(q, es);
    DifferentIsAllDifferent(es);
    DifferentIsAllDifferent(r);
    forall a | 0 <= a < |r|
      ensures !Rejected(r[a].data, if r[a].data in early then [] else extras)
    {
      assert r[a] in multiset(r);
      var b :| 0 <= b < |es| && es[b] == r[a];
    }
  }

  /** A new token never takes the place of one of those in use: all tokens of the top entries are still
      in the list afterwards. */
  lemma UsedTokensStay(q: Qsort, es: seq<Extra>, t: Token, ur: nat, a: nat)
    requires Sorts(q) && |es| <= MAX_AUTO_EXTRAS && ur < MAX_AUTO_EXTRAS / 2 && a < Used(|es|)
    ensures var now := Arranged(q, Noted(es, t, ur)); exists b :: 0 <= b < |now| && now[b].data == es[a].data
  {
    var now := Noted(es, t, ur);
    assert now[a].data == es[a].data;
    ArrangedIs(q, now);
    assert now[a] in multiset(Arranged(q, now));
    var b :| 0 <= b < |Arranged(q, now)| && Arranged(q, now)[b] == now[a];
  }

  /** The data of the entries. */
  function Tokens(es: seq<Extra>): (ts: seq<Token>)
    ensures |ts| == |es| && forall k :: 0 <= k < |es| ==> ts[k] == es[k].data
  {
    if es == [] then [] else Tokens(es[..|es| - 1]) + [es[|es| - 1].data]
  }

  /** What the stage that overwrites with collected tokens relies on. */
  lemma TopIsSorted(es: seq<Extra>)
    requires TopSorted(es)
    ensures SortedBySize(Tokens(es)[..Used(|es|)])
  {
    var top := es[..Used(|es|)];
    forall a, b | 0 <= a < b < |top|
      ensures |Tokens(es)[..Used(|es|)][a]| <= |Tokens(es)[..Used(|es|)][b]|
    {
      assert |top[a].data| <= |top[b].data|;
    }
  }

  // ----- in place -----

  class Dictionary {
    var extras: seq<Token>
    var aExtras: seq<Extra>
    var autoChanged: bool
    ghost var early: set<Token>
    const qsort: Qsort

    /** User tokens sorted by size; collected tokens few enough, different up to case from each other
        and, but for those collected early, from all user tokens, no runs, no builtin values; those in
        use sorted by size. */
    ghost predicate Valid()
      reads this
    {
      && Sorts(qsort) && SortedBySize(extras) && |aExtras| <= MAX_AUTO_EXTRAS
      && Different(aExtras) && NoneRejected(aExtras, extras, early) && TopSorted(aExtras)
    }

    constructor (qsort: Qsort)
      requires Sorts(qsort)
      ensures Valid() && extras == [] && aExtras == [] && this.qsort == qsort
    {
      this.qsort, extras, aExtras, autoChanged, early := qsort, [], [], false, {};
    }

    /** The end of `load_extras`, which is called once, after the tokens of an earlier session have been
        collected again: sort by size; to load nothing is fatal. */
    method LoadExtras(loaded: seq<Token>) returns (ok: bool)
      requires Valid() && extras == []
      modifies `extras, `early
      ensures Valid() && (ok <==> loaded != []) && (!ok ==> extras == [])
      ensures ok ==> multiset(extras) == multiset(loaded) && early == set e | e in aExtras :: e.data
    {
      if |loaded| == 0 {
        return false;
      }
      hide Rejected;
      forall a | 0 <= a < |aExtras|
        ensures !Rejected(aExtras[a].data, [])
      {
        assert !Rejected(aExtras[a].data, if aExtras[a].data in early then [] else extras);
      }
      extras := qsort.user(loaded);
      early := set e | e in aExtras :: e.data;
      ok := true;
    }

    method TestRun(t: Token) returns (run: bool)
      ensures run <==> IsRun(t)
    {
      var i := 1;
      while i < |t|
        invariant 1 <= i <= |t| && forall k :: 0 <= k < i ==> t[k] == t[0]
      {
        if t[0] != t[i] {
          return false;
        }
        i := i + 1;
      }
      return true;
    }

    method TestBuiltin(t: Token) returns (builtin: bool)
      ensures builtin <==> IsBuiltin(t)
    {
      if |t| == 2 {
        var i := |INTERESTING_16|;
        while i > 0
          invariant 0 <= i <= |INTERESTING_16|
          invariant forall j: nat :: i <= j < |INTERESTING_16| ==> !IsWord16(Word16(t), INTERESTING_16[j])
        {
          i := i - 1;
          if IsWord16(Word16(t), INTERESTING_16[i]) {
            return true;
          }
        }
      }
      if |t| == 4 {
        var i := |INTERESTING_32|;
        while i > 0
          invariant 0 <= i <= |INTERESTING_32|
          invariant forall j: nat :: i <= j < |INTERESTING_32| ==> !IsWord32(Word32(t), INTERESTING_32[j])
        {
          i := i - 1;
          if IsWord32(Word32(t), INTERESTING_32[i]) {
            return true;
          }
        }
      }
      return false;
    }

    /** `memcmp_nocase` */
    method CompareNoCase(a: seq<byte>, b: seq<byte>) returns (differ: bool)
      requires |a| == |b|
      ensures differ <==> !SameNoCase(a, b)
    {
      var i := 0;
      while i < |a|
        invariant 0 <= i <= |a| && forall k :: 0 <= k < i ==> Lower(a[k]) == Lower(b[k])
      {
        if Lower(a[i]) != Lower(b[i]) {
          return true;
        }
        i := i + 1;
      }
      return false;
    }

    /** Only the user tokens of the same size are compared; as they are sorted, nothing is missed. */
    method TestUser(t: Token) returns (known: bool)
      requires SortedBySize(extras)
      ensures known <==> exists k: nat :: k < |extras| && SameNoCase(extras[k], t)
    {
      var i := 0;
      while i < |extras| && |extras[i]| < |t|
        invariant 0 <= i <= |extras| && forall k: nat :: k < i ==> |extras[k]| < |t|
      {
        i := i + 1;
      }
      while i < |extras| && |extras[i]| == |t|
        invariant 0 <= i <= |extras| && forall k: nat :: k < i ==> !SameNoCase(extras[k], t)
        invariant i < |extras| ==> |extras[i]| >= |t|
      {
        var differ := CompareNoCase(extras[i], t);
        if !differ {
          return true;
        }
        i := i + 1;
      }
      assert forall k: nat :: i <= k < |extras| ==> |extras[k]| > |t|;
      return false;
    }

    method FindAuto(t: Token) returns (k: nat)
      ensures k == FirstMatch(aExtras, t)
    {
      hide SameNoCase;
      k := 0;
      while k < |aExtras|
        invariant 0 <= k <= |aExtras| && forall m :: 0 <= m < k ==> !Matches(aExtras[m], t)
      {
        if |aExtras[k].data| == |t| {
          var differ := CompareNoCase(aExtras[k].data, t);
          if !differ {
            return;
          }
        } else {
          SizesDiffer(aExtras[k].data, t);
        }
        k := k + 1;
      }
    }

    /** `maybe_add_auto`: a rejected token changes nothing; otherwise the list is noted and sorted, and
        however often it is called the tokens in use are sorted by size. */
    method MaybeAddAuto(mem: Token, ur: nat)
      requires Valid() && ur < (MAX_AUTO_EXTRAS + 1) / 2
      modifies `aExtras, `autoChanged
      ensures Valid()
      ensures Rejected(mem, extras) ==> aExtras == old(aExtras) && autoChanged == old(autoChanged)
      ensures !Rejected(mem, extras) ==>
                && autoChanged && multiset(aExtras) == multiset(Noted(old(aExtras), mem, ur))
                && (FewHits(Noted(old(aExtras), mem, ur)) ==> TopUsedMost(aExtras))
    {
      hide IsRun, IsBuiltin, SameNoCase, Different, NoneRejected, TopSorted, TopUsedMost, FewHits, Sorts;
      var run := TestRun(mem);
      if run {
        return;
      }
      var builtin := TestBuiltin(mem);
      if builtin {
        return;
      }
      var known := TestUser(mem);
      if known {
        return;
      }
      autoChanged := true;
      ghost var was := aExtras;
      NotedKeeps(was, mem, ur, extras, early);
      var i := FindAuto(mem);
      if i < |aExtras| {
        aExtras := aExtras[i := Extra(aExtras[i].data, (aExtras[i].hits + 1) % 0x1_0000_0000)];
      } else if |aExtras| < MAX_AUTO_EXTRAS {
        aExtras := aExtras + [Extra(mem, 0)];
      } else {
        i := MAX_AUTO_EXTRAS / 2 + ur;
        aExtras := aExtras[i := Extra(mem, 0)];
      }
      assert aExtras == Noted(was, mem, ur);
      ArrangedIs(qsort, aExtras);
      ArrangedKeeps(qsort, aExtras, extras, early);
      aExtras := Arranged(qsort, aExtras);
    }

    /** "user extras (over)" */
    method OverwriteUser(f: FuzzOne, inBuf: array<byte>, ur: (nat, nat) -> nat)
      requires Valid() && inBuf != f.outBuf && inBuf[..] == f.outBuf[..] && |f.effMap| == EffAlen(f.outBuf.Length)
      modifies f.outBuf, f`stageCur, f`stageMax, f`log
      ensures f.outBuf[..] == inBuf[..]
      ensures f.log == old(f.log) + OverLog(inBuf[..], f.effMap, extras, ur, inBuf.Length)
      ensures f.stageCur == f.stageMax == |f.log| - |old(f.log)|
    {
      Overwrite(f, inBuf, extras, ur);
    }

    /** "auto extras (over)": the tokens in use, none left out. */
    method OverwriteAuto(f: FuzzOne, inBuf: array<byte>)
      requires Valid() && inBuf != f.outBuf && inBuf[..] == f.outBuf[..] && |f.effMap| == EffAlen(f.outBuf.Length)
      modifies f.outBuf, f`stageCur, f`stageMax, f`log
      ensures f.outBuf[..] == inBuf[..]
      ensures f.log == old(f.log) +
                OverLog(inBuf[..], f.effMap, Tokens(aExtras)[..Used(|aExtras|)], (i, j) => 0, inBuf.Length)
      ensures f.stageCur == f.stageMax == |f.log| - |old(f.log)|
    {
      TopIsSorted(aExtras);
      Overwrite(f, inBuf, Tokens(aExtras)[..Used(|aExtras|)], (i, j) => 0);
    }
  }

  lemma SizesDiffer(a: seq<byte>, b: seq<byte>)
    requires |a| != |b|
    ensures !SameNoCase(a, b)
  {
  }
}
