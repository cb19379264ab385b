/**
 The coverage maps: `init_count_class16`, `classify_counts` and `has_new_bits`, which work
 on machine words, against their meaning byte by byte, and what the virgin map says after
 any sequence of runs.

 A map is an array of bytes whose length is a multiple of the word size; words are
 little-endian.
 */
module Coverage {

  // ----- hit-count buckets -----

  /** `count_class_lookup8`. */
  function Class(n: bv8): (r: bv8)
    ensures IsClass(r)
  {
    if n == 0 then 0
    else if n == 1 then 1
    else if n == 2 then 2
    else if n == 3 then 4
    else if n <= 7 then 8
    else if n <= 15 then 16
    else if n <= 31 then 32
    else if n <= 127 then 64
    else 128
  }

  /** The ranges of hit counts that are told apart: 1, 2, 3, 4-7, 8-15, 16-31, 32-127, 128 and more. */
  predicate InBucket(k: nat, n: bv8)
    requires k < 8
  {
    match k
    case 0 => n == 1
    case 1 => n == 2
    case 2 => n == 3
    case 3 => 4 <= n <= 7
    case 4 => 8 <= n <= 15
    case 5 => 16 <= n <= 31
    case 6 => 32 <= n <= 127
    case 7 => 128 <= n
  }

  /** Two hit counts share a class bit exactly when they lie in the same range; every range has its own
      bit, and a tuple that was not hit is in none. */
  lemma ClassIsBucket(m: bv8, n: bv8)
    ensures Class(m) == 0 <==> m == 0
    ensures Meets(Class(m), Class(n)) <==> exists k: nat :: k < 8 && InBucket(k, m) && InBucket(k, n)
    ensures forall k: nat :: k < 8 && InBucket(k, m) ==> Class(m) == 1 << k
  {
    forall k: nat | k < 8 && InBucket(k, m)
      ensures Class(m) == 1 << k && (Meets(Class(m), Class(n)) <==> InBucket(k, n))
    {
    }
    if m != 0 {
      assert InBucket(0, m) || InBucket(1, m) || InBucket(2, m) || InBucket(3, m)
          || InBucket(4, m) || InBucket(5, m) || InBucket(6, m) || InBucket(7, m);
    }
  }

  // ----- bytes -----

  predicate Meets(c: bv8, v: bv8) { c & v != 0 }

  function Clear(v: bv8, c: bv8): bv8 { v & !c }

  predicate Pristine(c: bv8, v: bv8) { c != 0 && v == 0xff }

  lemma ByteFacts(c: bv8, v: bv8)
    ensures Pristine(c, v) ==> Meets(c, v)
    ensures !Meets(c, v) ==> Clear(v, c) == v
    ensures !Meets(c, Clear(v, c))
  {
  }

  // ----- words -----

  function Half(lo: bv8, hi: bv8): bv16 {
    (lo as bv16) | ((hi as bv16) << 8)
  }

  function Low(h: bv16): bv8 { (h & 0xff) as bv8 }

  function High(h: bv16): bv8 { (h >> 8) as bv8 }

  // 32-bit words

  function Pack32(b0: bv8, b1: bv8, b2: bv8, b3: bv8): bv32 {
    (b0 as bv32) | ((b1 as bv32) << 8) | ((b2 as bv32) << 16) | ((b3 as bv32) << 24)
  }

  function Word32(s: seq<bv8>, k: nat): bv32
    requires k + 4 <= |s|
  {
    Pack32(s[k], s[k + 1], s[k + 2], s[k + 3])
  }

  /** The bytes of a word, least significant first. */
  function Bytes32(w: bv32): (r: seq<bv8>)
    ensures |r| == 4
  {
    [(w & 0xff) as bv8, ((w >> 8) & 0xff) as bv8, ((w >> 16) & 0xff) as bv8, ((w >> 24) & 0xff) as bv8]
  }

  /** The quick test on a word of the trace and a word of the virgin map. */
  predicate Touches32(cur: bv32, vir: bv32) { cur != 0 && cur & vir != 0 }

  function Clear32(vir: bv32, cur: bv32): bv32 { vir & !cur }

  lemma Pack32And(c0: bv8, c1: bv8, c2: bv8, c3: bv8,
                 v0: bv8, v1: bv8, v2: bv8, v3: bv8)
    ensures Pack32(c0, c1, c2, c3) & Pack32(v0, v1, v2, v3) == 0 <==>
              c0 & v0 == 0 && c1 & v1 == 0 && c2 & v2 == 0 && c3 & v3 == 0
  {
  }

  lemma ZeroTouchesNothing32(c: bv32, v: bv32)
    ensures Touches32(c, v) <==> c & v != 0
  {
  }

  lemma Pack32Test(c0: bv8, c1: bv8, c2: bv8, c3: bv8,
                  v0: bv8, v1: bv8, v2: bv8, v3: bv8)
    ensures Touches32(Pack32(c0, c1, c2, c3), Pack32(v0, v1, v2, v3)) <==>
              Meets(c0, v0) || Meets(c1, v1) || Meets(c2, v2) || Meets(c3, v3)
  {
    hide Pack32, Touches32;
    Pack32And(c0, c1, c2, c3, v0, v1, v2, v3);
    ZeroTouchesNothing32(Pack32(c0, c1, c2, c3), Pack32(v0, v1, v2, v3));
  }

  lemma Pack32Clear(c0: bv8, c1: bv8, c2: bv8, c3: bv8,
                   v0: bv8, v1: bv8, v2: bv8, v3: bv8)
    ensures Bytes32(Clear32(Pack32(v0, v1, v2, v3), Pack32(c0, c1, c2, c3)))
         == [Clear(v0, c0), Clear(v1, c1), Clear(v2, c2), Clear(v3, c3)]
  {
  }

  /** A word-wide test is the bytewise one. */
  lemma Word32Test(c: seq<bv8>, v: seq<bv8>, k: nat)
    requires k + 4 <= |c| && k + 4 <= |v|
    ensures Touches32(Word32(c, k), Word32(v, k)) <==> AnyMeets(c, v, k, 4)
  {
    hide Pack32, Touches32, Meets;
    Pack32Test(c[k], c[k + 1], c[k + 2], c[k + 3],
              v[k], v[k + 1], v[k + 2], v[k + 3]);
  }

  /** A word-wide update is the bytewise one. */
  lemma Word32Cleared(c: seq<bv8>, v: seq<bv8>, k: nat)
    requires k + 4 <= |c| && k + 4 <= |v|
    ensures ClearedPart(c, v, k, Bytes32(Clear32(Word32(v, k), Word32(c, k))))
  {
    hide Pack32, Bytes32, Clear32, Clear;
    Pack32Clear(c[k], c[k + 1], c[k + 2], c[k + 3],
               v[k], v[k + 1], v[k + 2], v[k + 3]);
  }

  lemma Word32Zero(s: seq<bv8>, k: nat)
    requires k + 4 <= |s| && Word32(s, k) == 0
    ensures forall i :: k <= i < k + 4 ==> s[i] == 0
  {
    Pack32Zero(s[k], s[k + 1], s[k + 2], s[k + 3]);
  }

  lemma Pack32Zero(b0: bv8, b1: bv8, b2: bv8, b3: bv8)
    requires Pack32(b0, b1, b2, b3) == 0
    ensures b0 == 0 && b1 == 0 && b2 == 0 && b3 == 0
  {
  }

  // 64-bit words

  function Pack64(b0: bv8, b1: bv8, b2: bv8, b3: bv8, b4: bv8, b5: bv8, b6: bv8, b7: bv8): bv64 {
    (b0 as bv64) | ((b1 as bv64) << 8) | ((b2 as bv64) << 16) | ((b3 as bv64) << 24) |
    ((b4 as bv64) << 32) | ((b5 as bv64) << 40) | ((b6 as bv64) << 48) | ((b7 as bv64) << 56)
  }

  function Word64(s: seq<bv8>, k: nat): bv64
    requires k + 8 <= |s|
  {
    Pack64(s[k], s[k + 1], s[k + 2], s[k + 3], s[k + 4], s[k + 5], s[k + 6], s[k + 7])
  }

  /** The bytes of a word, least significant first. */
  function Bytes64(w: bv64): (r: seq<bv8>)
    ensures |r| == 8
  {
    [(w & 0xff) as bv8, ((w >> 8) & 0xff) as bv8, ((w >> 16) & 0xff) as bv8, ((w >> 24) & 0xff) as bv8,
     ((w >> 32) & 0xff) as bv8, ((w >> 40) & 0xff) as bv8, ((w >> 48) & 0xff) as bv8, ((w >> 56) & 0xff) as bv8]
  }

  /** The quick test on a word of the trace and a word of the virgin map. */
  predicate Touches64(cur: bv64, vir: bv64) { cur != 0 && cur & vir != 0 }

  function Clear64(vir: bv64, cur: bv64): bv64 { vir & !cur }

  lemma Pack64And(c0: bv8, c1: bv8, c2: bv8, c3: bv8, c4: bv8, c5: bv8, c6: bv8, c7: bv8,
                 v0: bv8, v1: bv8, v2: bv8, v3: bv8, v4: bv8, v5: bv8, v6: bv8, v7: bv8)
    ensures Pack64(c0, c1, c2, c3, c4, c5, c6, c7) & Pack64(v0, v1, v2, v3, v4, v5, v6, v7) == 0 <==>
              && c0 & v0 == 0 && c1 & v1 == 0 && c2 & v2 == 0 && c3 & v3 == 0
              && c4 & v4 == 0 && c5 & v5 == 0 && c6 & v6 == 0 && c7 & v7 == 0
  {
  }

  lemma ZeroTouchesNothing64(c: bv64, v: bv64)
    ensures Touches64(c, v) <==> c & v != 0
  {
  }

  lemma Pack64Test(c0: bv8, c1: bv8, c2: bv8, c3: bv8, c4: bv8, c5: bv8, c6: bv8, c7: bv8,
                  v0: bv8, v1: bv8, v2: bv8, v3: bv8, v4: bv8, v5: bv8, v6: bv8, v7: bv8)
    ensures Touches64(Pack64(c0, c1, c2, c3, c4, c5, c6, c7), Pack64(v0, v1, v2, v3, v4, v5, v6, v7)) <==>
              Meets(c0, v0) || Meets(c1, v1) || Meets(c2, v2) || Meets(c3, v3) ||
              Meets(c4, v4) || Meets(c5, v5) || Meets(c6, v6) || Meets(c7, v7)
  {
    hide Pack64, Touches64;
    Pack64And(c0, c1, c2, c3, c4, c5, c6, c7, v0, v1, v2, v3, v4, v5, v6, v7);
    ZeroTouchesNothing64(Pack64(c0, c1, c2, c3, c4, c5, c6, c7), Pack64(v0, v1, v2, v3, v4, v5, v6, v7));
  }

  lemma Pack64Clear(c0: bv8, c1: bv8, c2: bv8, c3: bv8, c4: bv8, c5: bv8, c6: bv8, c7: bv8,
                   v0: bv8, v1: bv8, v2: bv8, v3: bv8, v4: bv8, v5: bv8, v6: bv8, v7: bv8)
    ensures Bytes64(Clear64(Pack64(v0, v1, v2, v3, v4, v5, v6, v7), Pack64(c0, c1, c2, c3, c4, c5, c6, c7)))
         == [Clear(v0, c0), Clear(v1, c1), Clear(v2, c2), Clear(v3, c3),
             Clear(v4, c4), Clear(v5, c5), Clear(v6, c6), Clear(v7, c7)]
  {
  }

  /** A word-wide test is the bytewise one. */
  lemma Word64Test(c: seq<bv8>, v: seq<bv8>, k: nat)
    requires k + 8 <= |c| && k + 8 <= |v|
    ensures Touches64(Word64(c, k), Word64(v, k)) <==> AnyMeets(c, v, k, 8)
  {
    hide Pack64, Touches64, Meets;
    Pack64Test(c[k], c[k + 1], c[k + 2], c[k + 3], c[k + 4], c[k + 5], c[k + 6], c[k + 7],
              v[k], v[k + 1], v[k + 2], v[k + 3], v[k + 4], v[k + 5], v[k + 6], v[k + 7]);
  }

  /** A word-wide update is the bytewise one. */
  lemma Word64Cleared(c: seq<bv8>, v: seq<bv8>, k: nat)
    requires k + 8 <= |c| && k + 8 <= |v|
    ensures ClearedPart(c, v, k, Bytes64(Clear64(Word64(v, k), Word64(c, k))))
  {
    hide Pack64, Bytes64, Clear64, Clear;
    Pack64Clear(c[k], c[k + 1], c[k + 2], c[k + 3], c[k + 4], c[k + 5], c[k + 6], c[k + 7],
               v[k], v[k + 1], v[k + 2], v[k + 3], v[k + 4], v[k + 5], v[k + 6], v[k + 7]);
  }

  lemma Word64Zero(s: seq<bv8>, k: nat)
    requires k + 8 <= |s| && Word64(s, k) == 0
    ensures forall i :: k <= i < k + 8 ==> s[i] == 0
  {
    Pack64Zero(s[k], s[k + 1], s[k + 2], s[k + 3], s[k + 4], s[k + 5], s[k + 6], s[k + 7]);
  }

  lemma Pack64Zero(b0: bv8, b1: bv8, b2: bv8, b3: bv8, b4: bv8, b5: bv8, b6: bv8, b7: bv8)
    requires Pack64(b0, b1, b2, b3, b4, b5, b6, b7) == 0
    ensures b0 == 0 && b1 == 0 && b2 == 0 && b3 == 0 && b4 == 0 && b5 == 0 && b6 == 0 && b7 == 0
  {
  }

  // ----- the bytewise meaning -----

  /** Some of the n bytes at k has a bit in both maps. */
  predicate AnyMeets(c: seq<bv8>, v: seq<bv8>, k: nat, n: nat)
    requires k + n <= |c| && k + n <= |v|
  {
    exists i :: k <= i < k + n && Meets(c[i], v[i])
  }

  /** Some of the n bytes at k is hit in the trace and pristine in the virgin map. */
  predicate AnyPristine(c: seq<bv8>, v: seq<bv8>, k: nat, n: nat)
    requires k + n <= |c| && k + n <= |v|
  {
    exists i :: k <= i < k + n && Pristine(c[i], v[i])
  }

  /** bytes is v at k with the bits of c taken out. */
  ghost predicate ClearedPart(c: seq<bv8>, v: seq<bv8>, k: nat, bytes: seq<bv8>) {
    && k + |bytes| <= |c| && k + |bytes| <= |v|
    && forall j :: 0 <= j < |bytes| ==> bytes[j] == Clear(v[k + j], c[k + j])
  }

  /** The verdict on the first n bytes: 2 for a new tuple, 1 for a new bit, else 0. */
  function Verdict(cur: seq<bv8>, vir: seq<bv8>, n: nat): nat
    requires n <= |cur| && n <= |vir|
  {
    if AnyPristine(cur, vir, 0, n) then 2 else if AnyMeets(cur, vir, 0, n) then 1 else 0
  }

  /** The virgin map after the first n bytes have been dealt with. */
  ghost predicate ClearedUpTo(cur: seq<bv8>, vir: seq<bv8>, now: seq<bv8>, n: nat) {
    && |cur| == |vir| == |now| && n <= |cur|
    && (forall i :: 0 <= i < n ==> now[i] == Clear(vir[i], cur[i]))
    && (forall i :: n <= i < |cur| ==> now[i] == vir[i])
  }

  lemma PristineMeets(cur: seq<bv8>, vir: seq<bv8>, k: nat, n: nat)
    requires k + n <= |cur| && k + n <= |vir| && AnyPristine(cur, vir, k, n)
    ensures AnyMeets(cur, vir, k, n)
  {
    var i :| k <= i < k + n && Pristine(cur[i], vir[i]);
    ByteFacts(cur[i], vir[i]);
  }

  /** Where the word loop of `has_new_bits` stands after n bytes. */
  ghost predicate NotedUpTo(cur: seq<bv8>, vir: seq<bv8>, now: seq<bv8>, n: nat, ret: nat) {
    ClearedUpTo(cur, vir, now, n) && ret == Verdict(cur, vir, n)
  }

  lemma VerdictSplit(cur: seq<bv8>, vir: seq<bv8>, k: nat, n: nat)
    requires k + n <= |cur| && k + n <= |vir|
    ensures AnyPristine(cur, vir, 0, k + n) <==> AnyPristine(cur, vir, 0, k) || AnyPristine(cur, vir, k, n)
    ensures AnyMeets(cur, vir, 0, k + n) <==> AnyMeets(cur, vir, 0, k) || AnyMeets(cur, vir, k, n)
  {
    hide Meets, Pristine;
  }

  lemma WordCleared(cur: seq<bv8>, vir: seq<bv8>, now: seq<bv8>, k: nat, bytes: seq<bv8>)
    requires ClearedUpTo(cur, vir, now, k) && ClearedPart(cur, now, k, bytes)
    ensures ClearedUpTo(cur, vir, now[..k] + bytes + now[k + |bytes|..], k + |bytes|)
    ensures !AnyMeets(cur, now, k, |bytes|) ==> ClearedUpTo(cur, vir, now, k + |bytes|)
  {
    hide Clear, Meets;
    forall i | k <= i < k + |bytes|
      ensures bytes[i - k] == Clear(vir[i], cur[i])
      ensures !Meets(cur[i], now[i]) ==> now[i] == Clear(vir[i], cur[i])
    {
      assert bytes[i - k] == Clear(now[k + (i - k)], cur[k + (i - k)]);
      ByteFacts(cur[i], now[i]);
    }
  }

  /** One turn of the word loop, whatever the word size. */
  lemma WordNoted(cur: seq<bv8>, vir: seq<bv8>, now: seq<bv8>, k: nat, ret: nat, bytes: seq<bv8>)
    requires NotedUpTo(cur, vir, now, k, ret) && ClearedPart(cur, now, k, bytes)
    ensures AnyMeets(cur, now, k, |bytes|) ==>
              NotedUpTo(cur, vir, now[..k] + bytes + now[k + |bytes|..], k + |bytes|,
                        if ret < 2 then (if AnyPristine(cur, now, k, |bytes|) then 2 else 1) else ret)
    ensures !AnyMeets(cur, now, k, |bytes|) ==> NotedUpTo(cur, vir, now, k + |bytes|, ret)
  {
    var n := |bytes|;
    WordCleared(cur, vir, now, k, bytes);
    VerdictSplit(cur, vir, k, n);
    assert AnyMeets(cur, now, k, n) <==> AnyMeets(cur, vir, k, n);
    assert AnyPristine(cur, now, k, n) <==> AnyPristine(cur, vir, k, n);
    if AnyPristine(cur, now, k, n) {
      PristineMeets(cur, now, k, n);
    }
  }

  // ----- any sequence of runs -----

  /** A virgin map that started all ones, at one byte, after the given classified traces. */
  function VirginAfter(seen: seq<bv8>): bv8 {
    if seen == [] then 0xff else Clear(VirginAfter(seen[..|seen| - 1]), seen[|seen| - 1])
  }

  /** All the buckets seen so far. */
  function Union(seen: seq<bv8>): bv8 {
    if seen == [] then 0 else Union(seen[..|seen| - 1]) | seen[|seen| - 1]
  }

  lemma {:induction false} VirginIsComplement(seen: seq<bv8>)
    ensures VirginAfter(seen) == !Union(seen)
  {
    if seen != [] {
      VirginIsComplement(seen[..|seen| - 1]);
    }
  }

  predicate IsClass(b: bv8) {
    b == 0 || b == 1 || b == 2 || b == 4 || b == 8 || b == 16 || b == 32 || b == 64 || b == 128
  }

  lemma {:induction false} UnionMeets(seen: seq<bv8>, b: bv8)
    requires IsClass(b) && forall k :: 0 <= k < |seen| ==> IsClass(seen[k])
    ensures !Meets(b, Union(seen)) <==> b == 0 || b !in seen
  {
    if seen != [] {
      var n := |seen| - 1;
      UnionMeets(seen[..n], b);
      BitsDistribute(b, Union(seen[..n]), seen[n]);
      OneBit(b, seen[n]);
      assert seen == seen[..n] + [seen[n]];
    }
  }

  lemma BitsDistribute(b: bv8, u: bv8, v: bv8)
    ensures Meets(b, u | v) <==> Meets(b, u) || Meets(b, v)
  {
  }

  lemma OneBit(a: bv8, b: bv8)
    requires IsClass(a) && IsClass(b)
    ensures Meets(a, b) <==> a != 0 && a == b
  {
  }

  lemma {:induction false} UnionZero(seen: seq<bv8>)
    ensures Union(seen) == 0 <==> forall k :: 0 <= k < |seen| ==> seen[k] == 0
  {
    if seen != [] {
      var n := |seen| - 1;
      UnionZero(seen[..n]);
      assert Union(seen) == Union(seen[..n]) | seen[n];
    }
  }

  lemma ComplementTests(c: bv8, u: bv8)
    requires IsClass(c)
    ensures Meets(c, !u) <==> c != 0 && !Meets(c, u)
    ensures !u == 0xff <==> u == 0
  {
  }

  /** The column of byte i through a sequence of traces. */
  function Column(traces: seq<seq<bv8>>, i: nat): (r: seq<bv8>)
    requires forall t :: 0 <= t < |traces| ==> i < |traces[t]|
    ensures |r| == |traces| && forall t :: 0 <= t < |traces| ==> r[t] == traces[t][i]
  {
    if traces == [] then [] else Column(traces[..|traces| - 1], i) + [traces[|traces| - 1][i]]
  }

  ghost predicate Traces(traces: seq<seq<bv8>>, size: nat) {
    forall t :: 0 <= t < |traces| ==> |traces[t]| == size && forall i :: 0 <= i < size ==> IsClass(traces[t][i])
  }

  /** The virgin map is what the given classified traces leave of an all-ones map. */
  ghost predicate IsVirginAfter(vir: seq<bv8>, traces: seq<seq<bv8>>) {
    Traces(traces, |vir|) && forall i :: 0 <= i < |vir| ==> vir[i] == VirginAfter(Column(traces, i))
  }

  /** After any sequence of runs byte i of the virgin map is the complement of the buckets seen
      there. */
  lemma VirginMapMeaning(vir: seq<bv8>, traces: seq<seq<bv8>>, i: nat)
    requires IsVirginAfter(vir, traces) && i < |vir|
    ensures vir[i] == !Union(Column(traces, i))
  {
    VirginIsComplement(Column(traces, i));
  }

  /** The trace hits a tuple no earlier trace hit. */
  ghost predicate HitsNewTuple(cur: seq<bv8>, traces: seq<seq<bv8>>)
    requires Traces(traces, |cur|)
  {
    exists i :: 0 <= i < |cur| && cur[i] != 0 && forall t :: 0 <= t < |traces| ==> traces[t][i] == 0
  }

  /** The trace hits a tuple a number of times that falls in a bucket no earlier trace hit. */
  ghost predicate HitsNewBucket(cur: seq<bv8>, traces: seq<seq<bv8>>)
    requires Traces(traces, |cur|)
  {
    exists i :: 0 <= i < |cur| && cur[i] != 0 && forall t :: 0 <= t < |traces| ==> traces[t][i] != cur[i]
  }

  lemma ByteMeaning(cur: seq<bv8>, vir: seq<bv8>, traces: seq<seq<bv8>>, i: nat)
    requires IsVirginAfter(vir, traces) && |cur| == |vir| && i < |cur| && IsClass(cur[i])
    ensures vir[i] == 0xff <==> forall t :: 0 <= t < |traces| ==> traces[t][i] == 0
    ensures Meets(cur[i], vir[i]) <==> cur[i] != 0 && forall t :: 0 <= t < |traces| ==> traces[t][i] != cur[i]
  {
    hide Clear, Meets, Union, VirginAfter, IsClass;
    var col := Column(traces, i);
    VirginMapMeaning(vir, traces, i);
    UnionZero(col);
    UnionMeets(col, cur[i]);
    ComplementTests(cur[i], Union(col));
    assert cur[i] in col <==> exists t :: 0 <= t < |traces| && traces[t][i] == cur[i];
  }

  /** For any sequence of runs from an all-ones map the verdict is 2 exactly if the trace hits a
      tuple never hit before, otherwise 1 exactly if it hits a bucket never hit before. */
  lemma VerdictMeaning(cur: seq<bv8>, vir: seq<bv8>, traces: seq<seq<bv8>>)
    requires IsVirginAfter(vir, traces) && |cur| == |vir|
    requires forall i :: 0 <= i < |cur| ==> IsClass(cur[i])
    ensures Verdict(cur, vir, |cur|) ==
            if HitsNewTuple(cur, traces) then 2 else if HitsNewBucket(cur, traces) then 1 else 0
  {
    forall i | 0 <= i < |cur|
      ensures vir[i] == 0xff <==> forall t :: 0 <= t < |traces| ==> traces[t][i] == 0
      ensures Meets(cur[i], vir[i]) <==> cur[i] != 0 && forall t :: 0 <= t < |traces| ==> traces[t][i] != cur[i]
    {
      ByteMeaning(cur, vir, traces, i);
    }
  }

  /** Running the same trace again brings nothing new. */
  lemma RepeatBringsNothing(cur: seq<bv8>, vir: seq<bv8>, now: seq<bv8>)
    requires ClearedUpTo(cur, vir, now, |cur|)
    ensures Verdict(cur, now, |cur|) == 0
  {
    forall i | 0 <= i < |cur|
      ensures !Meets(cur[i], now[i])
    {
      ByteFacts(cur[i], vir[i]);
    }
  }

  lemma VirginStep(cur: seq<bv8>, vir: seq<bv8>, now: seq<bv8>, traces: seq<seq<bv8>>)
    requires IsVirginAfter(vir, traces) && ClearedUpTo(cur, vir, now, |cur|)
    requires forall i :: 0 <= i < |cur| ==> IsClass(cur[i])
    ensures IsVirginAfter(now, traces + [cur])
  {
    var more := traces + [cur];
    assert Traces(more, |vir|);
    forall i | 0 <= i < |now|
      ensures now[i] == VirginAfter(Column(more, i))
    {
      assert more[..|more| - 1] == traces;
    }
  }

  // ----- the lookup table -----

  /** `count_class_lookup16` classifies both bytes of a half word. */
  ghost predicate ValidTable(table: seq<bv16>) {
    |table| == 65536 &&
    forall v: bv16 :: table[Num16(v)] == Half(Class(Low(v)), Class(High(v)))
  }

  function Num8(b: bv8): int { b as int }

  function Num16(v: bv16): int { v as int }

  lemma SplitIndex(v: bv16)
    ensures Num16(v) == 256 * Num16(v >> 8) + Num16(v & 0xff)
  {
  }

  lemma NarrowIndex(b: bv16)
    requires b < 256
    ensures Num8(b as bv8) == Num16(b)
  {
  }

  lemma NarrowHalf(v: bv16)
    ensures Num8(High(v)) == Num16(v >> 8) && Num8(Low(v)) == Num16(v & 0xff)
  {
    hide Num8, Num16;
    NarrowIndex(v >> 8);
    NarrowIndex(v & 0xff);
  }

  /** The index the nested loops of `init_count_class16` use for a half word. */
  lemma HalfIndex(v: bv16)
    ensures Num16(v) == 256 * Num8(High(v)) + Num8(Low(v))
  {
    hide Num8, Num16, High, Low;
    SplitIndex(v);
    NarrowHalf(v);
  }

  lemma HalfBytes(lo: bv8, hi: bv8)
    ensures Low(Half(lo, hi)) == lo && High(Half(lo, hi)) == hi
  {
  }

  /** The entry for the half word whose bytes are h and l. */
  function Entry(h: int, l: int): bv16
    requires 0 <= h < 256 && 0 <= l < 256
  {
    Half(Class(l as bv8), Class(h as bv8))
  }

  /** `(b1 << 8) + b2`. */
  function Index(b1: int, b2: int): int {
    256 * b1 + b2
  }

  ghost predicate RowDone(table: seq<bv16>, h: int, upTo: int)
    requires |table| == 65536 && 0 <= h < 256 && 0 <= upTo <= 256
  {
    forall l :: 0 <= l < upTo ==> table[Index(h, l)] == Entry(h, l)
  }

  /** `init_count_class16`. */
  method InitCountClass16() returns (table: array<bv16>)
    ensures fresh(table) && ValidTable(table[..])
  {
    hide Entry;
    table := new bv16[65536](_ => 0);
    var b1 := 0;
    while b1 < 256
      invariant 0 <= b1 <= 256
      invariant forall h :: 0 <= h < b1 ==> RowDone(table[..], h, 256)
    {
      var b2 := 0;
      while b2 < 256
        invariant 0 <= b2 <= 256
        invariant forall h :: 0 <= h < b1 ==> RowDone(table[..], h, 256)
        invariant RowDone(table[..], b1, b2)
      {
        ghost var was := table[..];
        FillEntry(table, b1, b2);
        forall h | 0 <= h < b1
          ensures RowDone(table[..], h, 256)
        {
          assert RowDone(was, h, 256);
        }
        b2 := b2 + 1;
      }
      b1 := b1 + 1;
    }
    TableIsValid(table[..]);
  }

  method FillEntry(table: array<bv16>, b1: int, b2: int)
    requires table.Length == 65536 && 0 <= b1 < 256 && 0 <= b2 < 256
    modifies table
    ensures table[..] == old(table[..])[Index(b1, b2) := Entry(b1, b2)]
  {
    table[256 * b1 + b2] := ((Class(b1 as bv8) as bv16) << 8) | (Class(b2 as bv8) as bv16);
    OrCommutes(Class(b2 as bv8), Class(b1 as bv8));
  }

  lemma WidenIndex(b: bv8)
    ensures 0 <= Num8(b) < 256 && Num8(b) as bv8 == b
  {
  }

  lemma EntryAt(table: seq<bv16>, v: bv16)
    requires |table| == 65536 && forall h :: 0 <= h < 256 ==> RowDone(table, h, 256)
    ensures 0 <= Num16(v) < 65536 && table[Num16(v)] == Half(Class(Low(v)), Class(High(v)))
  {
    hide Num8, Num16, High, Low, Half, Class;
    HalfIndex(v);
    WidenIndex(High(v));
    WidenIndex(Low(v));
    var h, l := Num8(High(v)), Num8(Low(v));
    assert RowDone(table, h, 256);
    assert table[Index(h, l)] == Entry(h, l);
  }

  lemma TableIsValid(table: seq<bv16>)
    requires |table| == 65536 && forall h :: 0 <= h < 256 ==> RowDone(table, h, 256)
    ensures ValidTable(table)
  {
    forall v: bv16
      ensures table[Num16(v)] == Half(Class(Low(v)), Class(High(v)))
    {
      EntryAt(table, v);
    }
  }

  lemma OrCommutes(lo: bv8, hi: bv8)
    ensures ((hi as bv16) << 8) | (lo as bv16) == Half(lo, hi)
  {
  }

  // ----- the maps -----

  /** Every byte below n has been classified, the others are as before. */
  ghost predicate ClassifiedUpTo(was: seq<bv8>, now: seq<bv8>, n: nat) {
    && |now| == |was| && n <= |was|
    && (forall i :: 0 <= i < n ==> now[i] == Class(was[i]))
    && (forall i :: n <= i < |was| ==> now[i] == was[i])
  }

  method ClassifyHalf(mem: array<bv8>, k: nat, table: array<bv16>)
    requires k + 2 <= mem.Length && ValidTable(table[..])
    modifies mem
    ensures mem[..] == old(mem[..])[k := Class(old(mem[k]))][k + 1 := Class(old(mem[k + 1]))]
  {
    hide Half, Low, High, Class;
    var v := Half(mem[k], mem[k + 1]);
    HalfBytes(mem[k], mem[k + 1]);
    HalfBytes(Class(mem[k]), Class(mem[k + 1]));
    assert table[v as int] == table[..][Num16(v)];
    var c := table[v as int];
    mem[k], mem[k + 1] := Low(c), High(c);
  }

  lemma ClassifiedHalf(was: seq<bv8>, now: seq<bv8>, n: nat)
    requires ClassifiedUpTo(was, now, n) && n + 2 <= |was|
    ensures ClassifiedUpTo(was, now[n := Class(now[n])][n + 1 := Class(now[n + 1])], n + 2)
  {
  }

  lemma ZeroIsClassified(was: seq<bv8>, now: seq<bv8>, n: nat, m: nat)
    requires ClassifiedUpTo(was, now, n) && n <= m <= |was|
    requires forall i :: n <= i < m ==> now[i] == 0
    ensures ClassifiedUpTo(was, now, m)
  {
  }

  /** `classify_counts` on 64-bit words. */
  method ClassifyCounts64(mem: array<bv8>, table: array<bv16>)
    requires mem.Length % 8 == 0 && ValidTable(table[..])
    modifies mem
    ensures ClassifiedUpTo(old(mem[..]), mem[..], mem.Length)
  {
    ghost var was := mem[..];
    ghost var classes := table[..];
    var i := 0;
    while i < mem.Length
      invariant 0 <= i <= mem.Length && i % 8 == 0
      invariant ClassifiedUpTo(was, mem[..], i)
    {
      ClassifyWord64(was, mem, i, table);
      i := i + 8;
    }
  }

  method ClassifyWord64(ghost was: seq<bv8>, mem: array<bv8>, i: nat, table: array<bv16>)
    requires i + 8 <= mem.Length && ValidTable(table[..]) && ClassifiedUpTo(was, mem[..], i)
    modifies mem
    ensures ClassifiedUpTo(was, mem[..], i + 8)
  {
    hide Class, Half, Low, High;
    if Word64(mem[..], i) != 0 {
      ClassifiedHalf(was, mem[..], i);
      ClassifyHalf(mem, i, table);
      ClassifiedHalf(was, mem[..], i + 2);
      ClassifyHalf(mem, i + 2, table);
      ClassifiedHalf(was, mem[..], i + 4);
      ClassifyHalf(mem, i + 4, table);
      ClassifiedHalf(was, mem[..], i + 6);
      ClassifyHalf(mem, i + 6, table);
    } else {
      Word64Zero(mem[..], i);
      ZeroIsClassified(was, mem[..], i, i + 8);
    }
  }

  /** `classify_counts` on 32-bit words. */
  method ClassifyCounts32(mem: array<bv8>, table: array<bv16>)
    requires mem.Length % 4 == 0 && ValidTable(table[..])
    modifies mem
    ensures ClassifiedUpTo(old(mem[..]), mem[..], mem.Length)
  {
    ghost var was := mem[..];
    ghost var classes := table[..];
    var i := 0;
    while i < mem.Length
      invariant 0 <= i <= mem.Length && i % 4 == 0
      invariant ClassifiedUpTo(was, mem[..], i)
    {
      ClassifyWord32(was, mem, i, table);
      i := i + 4;
    }
  }

  method ClassifyWord32(ghost was: seq<bv8>, mem: array<bv8>, i: nat, table: array<bv16>)
    requires i + 4 <= mem.Length && ValidTable(table[..]) && ClassifiedUpTo(was, mem[..], i)
    modifies mem
    ensures ClassifiedUpTo(was, mem[..], i + 4)
  {
    hide Class, Half, Low, High;
    if Word32(mem[..], i) != 0 {
      ClassifiedHalf(was, mem[..], i);
      ClassifyHalf(mem, i, table);
      ClassifiedHalf(was, mem[..], i + 2);
      ClassifyHalf(mem, i + 2, table);
    } else {
      Word32Zero(mem[..], i);
      ZeroIsClassified(was, mem[..], i, i + 4);
    }
  }

  // ----- has_new_bits -----

  method StoreBytes(a: array<bv8>, k: nat, bytes: seq<bv8>)
    requires k + |bytes| <= a.Length
    modifies a
    ensures a[..] == old(a[..k]) + bytes + old(a[k + |bytes|..])
  {
    forall i | 0 <= i < |bytes| {
      a[k + i] := bytes[i];
    }
  }

  /** `has_new_bits` on 64-bit words. */
  method HasNewBits64(traceBits: array<bv8>, virginMap: array<bv8>) returns (ret: nat)
    requires traceBits.Length == virginMap.Length && traceBits.Length % 8 == 0 && traceBits != virginMap
    modifies virginMap
    ensures ClearedUpTo(traceBits[..], old(virginMap[..]), virginMap[..], traceBits.Length)
    ensures ret == Verdict(traceBits[..], old(virginMap[..]), traceBits.Length)
  {
    hide Touches64, Word64, Bytes64, Clear64, AnyPristine, AnyMeets;
    ghost var cur, vir := traceBits[..], virginMap[..];
    ret := 0;
    assert NotedUpTo(cur, vir, vir, 0, 0) by {
      NothingNoted(cur, vir);
    }
    var k := 0;
    while k < traceBits.Length
      invariant 0 <= k <= traceBits.Length && k % 8 == 0
      invariant NotedUpTo(cur, vir, virginMap[..], k, ret)
    {
      ret := NoteWord64(cur, vir, traceBits, virginMap, k, ret);
      k := k + 8;
    }
  }

  method NoteWord64(ghost cur: seq<bv8>, ghost vir: seq<bv8>, traceBits: array<bv8>, virginMap: array<bv8>,
                    k: nat, ret: nat) returns (r: nat)
    requires traceBits.Length == virginMap.Length && traceBits != virginMap && cur == traceBits[..]
    requires k + 8 <= traceBits.Length && NotedUpTo(cur, vir, virginMap[..], k, ret)
    modifies virginMap
    ensures NotedUpTo(cur, vir, virginMap[..], k + 8, r)
  {
    hide Touches64, Word64, Clear64, AnyPristine, AnyMeets, NotedUpTo, ClearedPart;
    r := ret;
    assert |vir| == traceBits.Length by {
      NotedLength(cur, vir, virginMap[..], k, ret);
    }
    ghost var now := virginMap[..];
    var current, virgin := Word64(traceBits[..], k), Word64(virginMap[..], k);
    Word64Test(cur, now, k);
    Word64Cleared(cur, now, k);
    WordNoted(cur, vir, now, k, ret, Bytes64(Clear64(virgin, current)));
    if Touches64(current, virgin) {
      if ret < 2 {
        r := if AnyPristine(traceBits[..], virginMap[..], k, 8) then 2 else 1;
      }
      StoreBytes(virginMap, k, Bytes64(Clear64(virgin, current)));
    }
  }

  /** `has_new_bits` on 32-bit words. */
  method HasNewBits32(traceBits: array<bv8>, virginMap: array<bv8>) returns (ret: nat)
    requires traceBits.Length == virginMap.Length && traceBits.Length % 4 == 0 && traceBits != virginMap
    modifies virginMap
    ensures ClearedUpTo(traceBits[..], old(virginMap[..]), virginMap[..], traceBits.Length)
    ensures ret == Verdict(traceBits[..], old(virginMap[..]), traceBits.Length)
  {
    hide Touches32, Word32, Bytes32, Clear32, AnyPristine, AnyMeets;
    ghost var cur, vir := traceBits[..], virginMap[..];
    ret := 0;
    assert NotedUpTo(cur, vir, vir, 0, 0) by {
      NothingNoted(cur, vir);
    }
    var k := 0;
    while k < traceBits.Length
      invariant 0 <= k <= traceBits.Length && k % 4 == 0
      invariant NotedUpTo(cur, vir, virginMap[..], k, ret)
    {
      ret := NoteWord32(cur, vir, traceBits, virginMap, k, ret);
      k := k + 4;
    }
  }

  method NoteWord32(ghost cur: seq<bv8>, ghost vir: seq<bv8>, traceBits: array<bv8>, virginMap: array<bv8>,
                    k: nat, ret: nat) returns (r: nat)
    requires traceBits.Length == virginMap.Length && traceBits != virginMap && cur == traceBits[..]
    requires k + 4 <= traceBits.Length && NotedUpTo(cur, vir, virginMap[..], k, ret)
    modifies virginMap
    ensures NotedUpTo(cur, vir, virginMap[..], k + 4, r)
  {
    hide Touches32, Word32, Clear32, AnyPristine, AnyMeets, NotedUpTo, ClearedPart;
    r := ret;
    assert |vir| == traceBits.Length by {
      NotedLength(cur, vir, virginMap[..], k, ret);
    }
    ghost var now := virginMap[..];
    var current, virgin := Word32(traceBits[..], k), Word32(virginMap[..], k);
    Word32Test(cur, now, k);
    Word32Cleared(cur, now, k);
    WordNoted(cur, vir, now, k, ret, Bytes32(Clear32(virgin, current)));
    if Touches32(current, virgin) {
      if ret < 2 {
        r := if AnyPristine(traceBits[..], virginMap[..], k, 4) then 2 else 1;
      }
      StoreBytes(virginMap, k, Bytes32(Clear32(virgin, current)));
    }
  }

  lemma NothingNoted(cur: seq<bv8>, vir: seq<bv8>)
    requires |cur| == |vir|
    ensures NotedUpTo(cur, vir, vir, 0, 0)
  {
  }

  lemma NotedLength(cur: seq<bv8>, vir: seq<bv8>, now: seq<bv8>, n: nat, ret: nat)
    requires NotedUpTo(cur, vir, now, n, ret)
    ensures |cur| == |vir| == |now|
  {
  }

  lemma AllClasses(was: seq<bv8>, now: seq<bv8>)
    requires ClassifiedUpTo(was, now, |was|)
    ensures forall i :: 0 <= i < |now| ==> IsClass(now[i])
  {
  }

  lemma WholeWords(n: nat)
    requires n % 8 == 0
    ensures n % 4 == 0
  {
  }

  // ----- the fuzzer's map over a whole session -----

  class Session {
    const traceBits: array<bv8>
    const virginBits: array<bv8>
    const lookup16: array<bv16>
    var bitmapChanged: bool
    ghost var seen: seq<seq<bv8>>    // the classified traces of all runs so far

    ghost predicate Valid()
      reads this, traceBits, virginBits, lookup16
    {
      && traceBits.Length == virginBits.Length && traceBits.Length % 8 == 0
      && traceBits != virginBits && ValidTable(lookup16[..])
      && IsVirginAfter(virginBits[..], seen)
    }

    /** `setup_shm`: an all-ones virgin map. */
    constructor (mapSize: nat)
      requires mapSize % 8 == 0
      ensures Valid() && fresh(traceBits) && fresh(virginBits) && fresh(lookup16)
      ensures traceBits.Length == mapSize && seen == []
    {
      traceBits := new bv8[mapSize](_ => 0);
      virginBits := new bv8[mapSize](_ => 0xff);
      var table := InitCountClass16();
      lookup16 := table;
      bitmapChanged := false;
      seen := [];
    }

    method Classify(wide: bool)
      requires Valid() && traceBits != virginBits
      modifies traceBits
      ensures Valid() && ClassifiedUpTo(old(traceBits[..]), traceBits[..], traceBits.Length)
    {
      hide IsVirginAfter;
      if wide {
        ClassifyCounts64(traceBits, lookup16);
      } else {
        ClassifyCounts32(traceBits, lookup16);
      }
    }

    /** A run left raw hit counts in the map: classify them, then note what is new.  With 64-bit
        or 32-bit words the outcome is the same. */
    method NoteRun(wide: bool) returns (ret: nat)
      requires Valid()
      modifies this, traceBits, virginBits
      ensures Valid()
      ensures ClassifiedUpTo(old(traceBits[..]), traceBits[..], traceBits.Length)
      ensures seen == old(seen) + [traceBits[..]] && Traces(old(seen), traceBits.Length)
      ensures ret == if HitsNewTuple(traceBits[..], old(seen)) then 2
                     else if HitsNewBucket(traceBits[..], old(seen)) then 1 else 0
      ensures bitmapChanged <==> old(bitmapChanged) || ret > 0
    {
      hide Class, IsClass, Clear, VirginAfter, Verdict, HitsNewTuple, HitsNewBucket, ClearedUpTo, ValidTable;
      WholeWords(traceBits.Length);
      Classify(wide);
      ghost var cur, vir := traceBits[..], virginBits[..];
      AllClasses(old(traceBits[..]), cur);
      if wide {
        ret := HasNewBits64(traceBits, virginBits);
      } else {
        ret := HasNewBits32(traceBits, virginBits);
      }
      VerdictMeaning(cur, vir, seen);
      VirginStep(cur, vir, virginBits[..], seen);
      if ret != 0 {
        bitmapChanged := true;
      }
      seen := seen + [cur];
    }
  }
}
