/**
 The abusive allocator: `__dislocator_alloc` and the functions built on it.

 Memory maps the addresses that can be read and written to bytes; what is protected or was never
 mapped is not in its domain.  Where the kernel puts a mapping is a parameter.  `size_t` has 64
 bits; sums and products that could wrap are written out.
 */
module Dislocator {
  import opened Bytes

  const PAGE_SIZE := 4096
  const ALLOC_CANARY := 0xAACCAACC
  const ALLOC_CLOBBER: byte := 0xCC
  const W32 := 0x1_0000_0000
  const W64 := 0x1_0000_0000_0000_0000

  type Size = x: int | 0 <= x < W64
  type Memory = map<nat, byte>

  // ----- memory -----

  predicate Mapped(mem: Memory, from: int, to: int) {
    forall a: nat :: from <= a < to ==> a in mem
  }

  predicate Unmapped(mem: Memory, from: int, to: int) {
    forall a: nat :: from <= a < to ==> a !in mem
  }

  /** The memories agree on the addresses of the range. */
  predicate SameOn(m: Memory, n: Memory, from: int, to: int) {
    forall a: nat :: from <= a < to ==> (a in m <==> a in n) && (a in m ==> m[a] == n[a])
  }

  /** The u32 at a, little endian. */
  function Word(mem: Memory, a: nat): (v: nat)
    requires Mapped(mem, a, a + 4)
    ensures v < W32
  {
    mem[a] as nat + 0x100 * mem[a + 1] as nat + 0x1_0000 * mem[a + 2] as nat + 0x100_0000 * mem[a + 3] as nat
  }

  function WithWord(mem: Memory, a: nat, v: nat): Memory {
    mem[a := (v % 0x100) as byte][a + 1 := (v / 0x100 % 0x100) as byte]
       [a + 2 := (v / 0x1_0000 % 0x100) as byte][a + 3 := (v / 0x100_0000 % 0x100) as byte]
  }

  lemma FourBytes(v: nat)
    requires v < W32
    ensures v == v % 0x100 + 0x100 * (v / 0x100 % 0x100) + 0x1_0000 * (v / 0x1_0000 % 0x100)
               + 0x100_0000 * (v / 0x100_0000 % 0x100)
  {
    var y := v / 0x100;
    assert v / 0x1_0000 == y / 0x100;
    assert v / 0x100_0000 == y / 0x100 / 0x100;
  }

  lemma WordStored(mem: Memory, a: nat, v: nat)
    requires v < W32
    ensures Mapped(WithWord(mem, a, v), a, a + 4) && Word(WithWord(mem, a, v), a) == v
  {
    FourBytes(v);
  }

  lemma WordSame(m: Memory, n: Memory, a: nat)
    requires Mapped(m, a, a + 4) && SameOn(m, n, a, a + 4)
    ensures Mapped(n, a, a + 4) && Word(m, a) == Word(n, a)
  {
  }

  // ----- blocks -----

  /** PG_COUNT */
  function PgCount(len: nat): nat {
    (len + (PAGE_SIZE - 1)) / PAGE_SIZE
  }

  datatype Block = Block(ptr: nat, len: nat)

  /** The bytes of the mapping that can be used. */
  function Usable(len: nat): (n: nat)
    ensures len + 8 <= n < len + 8 + PAGE_SIZE && n % PAGE_SIZE == 0
  {
    PgCount(len + 8) * PAGE_SIZE
  }

  lemma UsableIs(len: nat)
    ensures Usable(len) == PAGE_SIZE * PgCount(len + 8) == PgCount(len + 8) * PAGE_SIZE
  {
  }

  /** The start of the mapping of a block. */
  function Base(b: Block): int {
    b.ptr + b.len - Usable(b.len)
  }

  /** The end of its guard page. */
  function End(b: Block): int {
    b.ptr + b.len + PAGE_SIZE
  }

  predicate Apart(b: Block, c: Block) {
    End(b) <= Base(c) || End(c) <= Base(b)
  }

  /** The block ends at a page boundary, and there is room for the header between it and the start of
      the mapping. */
  predicate Placed(b: Block) {
    0 <= Base(b) <= b.ptr - 8 && Base(b) % PAGE_SIZE == 0 && (b.ptr + b.len) % PAGE_SIZE == 0
  }

  predicate HasHeader(mem: Memory, ptr: nat, len: nat) {
    ptr >= 8 && Mapped(mem, ptr - 8, ptr) && Word(mem, ptr - 8) == len && Word(mem, ptr - 4) == ALLOC_CANARY
  }

  /** The block can be used up to its end, where its guard page begins, and has its header. */
  predicate IsLive(mem: Memory, b: Block) {
    && Placed(b) && HasHeader(mem, b.ptr, b.len)
    && Mapped(mem, Base(b), b.ptr + b.len) && Unmapped(mem, b.ptr + b.len, End(b))
  }

  /** The whole mapping of a freed block is protected. */
  predicate IsDead(mem: Memory, b: Block) {
    Placed(b) && Unmapped(mem, Base(b), End(b))
  }

  function Total(bs: seq<Block>): nat {
    if bs == [] then 0 else Total(bs[..|bs| - 1]) + bs[|bs| - 1].len
  }

  /** Changes outside a block do not concern it. */
  lemma LiveSame(m: Memory, n: Memory, b: Block)
    requires IsLive(m, b) && SameOn(m, n, Base(b), End(b))
    ensures IsLive(n, b)
  {
    hide Word, Usable;
    WordSame(m, n, b.ptr - 8);
    WordSame(m, n, b.ptr - 4);
  }

  lemma {:induction false} TotalWithout(bs: seq<Block>, k: nat)
    requires k < |bs|
    ensures Total(bs[..k] + bs[k + 1..]) == Total(bs) - bs[k].len && bs[k].len <= Total(bs)
  {
    var n := |bs| - 1;
    if k == n {
      assert bs[..k] + bs[k + 1..] == bs[..n];
    } else {
      TotalWithout(bs[..n], k);
      var rest := bs[..k] + bs[k + 1..];
      assert rest[..|rest| - 1] == bs[..n][..k] + bs[..n][k + 1..];
    }
  }

  /** AFL_LD_LIMIT_MB in bytes, as a u32. */
  predicate IsLimit(maxMem: nat) {
    0 < maxMem < W32 && maxMem % 0x10_0000 == 0
  }

  /** The sums of `free`, which are in 32 bits, do not wrap for any length that can be allocated. */
  lemma FreeDoesNotWrap(len: nat, maxMem: nat)
    requires IsLimit(maxMem) && len <= maxMem
    ensures len + 8 + (PAGE_SIZE - 1) < W32 && Usable(len) < W32 && maxMem < W32
  {
    var q := maxMem / 0x10_0000;
    assert q < 0x1000;
    assert maxMem <= 0xfff * 0x10_0000;
  }

  lemma DivCancels(e: nat, c: nat)
    requires c > 0
    ensures e * c / c == e
  {
    var q := e * c / c;
    if e > q {
      MulGrows(1, e - q, c);
    }
  }

  lemma DivIsFloor(x: nat, c: nat)
    requires c > 0
    ensures x / c * c <= x
  {
  }

  /** `calloc` takes the product for too large exactly when it is. */
  lemma CallocOverflow(elemLen: Size, elemCnt: Size)
    ensures (elemCnt != 0 && elemLen * elemCnt % W64 / elemCnt != elemLen) <==> elemLen * elemCnt >= W64
  {
    if elemCnt != 0 {
      var p: nat := elemLen * elemCnt;
      DivCancels(elemLen, elemCnt);
      DivIsFloor(p % W64, elemCnt);
    }
  }

  /** The test of `__dislocator_alloc`, with the sum wrapping, accepts exactly what fits. */
  lemma BudgetTest(total: Size, len: Size, maxMem: nat)
    requires maxMem < W32
    ensures ((total + len) % W64 > maxMem || (total + len) % W64 < total) <==> total + len > maxMem
    ensures total + len <= maxMem ==> (total + len) % W64 == total + len
  {
  }

  // ----- one counter for each thread -----

  function SumOf(counters: seq<nat>): nat {
    if counters == [] then 0 else SumOf(counters[..|counters| - 1]) + counters[|counters| - 1]
  }

  lemma {:induction false} SumChanged(counters: seq<nat>, t: nat, v: nat)
    requires t < |counters|
    ensures SumOf(counters[t := v]) == SumOf(counters) - counters[t] + v
  {
    var n := |counters| - 1;
    if t == n {
      assert counters[t := v][..n] == counters[..n];
    } else {
      SumChanged(counters[..n], t, v);
      assert counters[t := v][..n] == counters[..n][t := v];
    }
  }

  /** What the live blocks allocated by thread t come to. */
  function OwnTotal(bs: seq<Block>, owners: seq<nat>, t: nat): nat
    requires |owners| == |bs|
  {
    if bs == [] then 0
    else
      var n := |bs| - 1;
      OwnTotal(bs[..n], owners[..n], t) + if owners[n] == t then bs[n].len else 0
  }

  lemma {:induction false} OwnWithout(bs: seq<Block>, owners: seq<nat>, k: nat, t: nat)
    requires k < |bs| == |owners|
    ensures OwnTotal(bs[..k] + bs[k + 1..], owners[..k] + owners[k + 1..], t)
         == OwnTotal(bs, owners, t) - if owners[k] == t then bs[k].len else 0
  {
    var n := |bs| - 1;
    var rest, left := bs[..k] + bs[k + 1..], owners[..k] + owners[k + 1..];
    if k == n {
      assert rest == bs[..n] && left == owners[..n];
    } else {
      OwnWithout(bs[..n], owners[..n], k, t);
      assert rest[..n - 1] == bs[..n][..k] + bs[..n][k + 1..] && left[..n - 1] == owners[..n][..k] + owners[..n][k + 1..];
      assert rest[n - 1] == bs[n] && left[n - 1] == owners[n];
    }
  }

  /** Each counter is a size_t, and together they come to the live lengths, modulo 2^64. */
  ghost predicate Counted(counters: seq<nat>, bs: seq<Block>) {
    (forall t :: 0 <= t < |counters| ==> counters[t] < W64) && SumOf(counters) % W64 == Total(bs) % W64
  }

  /** Each thread's counter is what the live blocks it allocated come to, and within the budget. */
  ghost predicate Own(counters: seq<nat>, bs: seq<Block>, owners: seq<nat>, maxMem: nat) {
    |owners| == |bs| && forall t :: 0 <= t < |counters| ==> counters[t] == OwnTotal(bs, owners, t) <= maxMem
  }

  lemma CountedUp(counters: seq<nat>, bs: seq<Block>, owners: seq<nat>, maxMem: nat, t: nat, b: Block)
    requires Counted(counters, bs) && t < |counters| && counters[t] + b.len <= maxMem < W32 && |owners| == |bs|
    ensures Counted(counters[t := counters[t] + b.len], bs + [b])
    ensures Own(counters, bs, owners, maxMem) ==> Own(counters[t := counters[t] + b.len], bs + [b], owners + [t], maxMem)
  {
    SumChanged(counters, t, counters[t] + b.len);
    assert (bs + [b])[..|bs|] == bs;
    ModAdds(SumOf(counters), Total(bs), b.len);
    if Own(counters, bs, owners, maxMem) {
      OwnUp(counters, bs, owners, maxMem, t, b);
    }
  }

  lemma OwnUp(counters: seq<nat>, bs: seq<Block>, owners: seq<nat>, maxMem: nat, t: nat, b: Block)
    requires Own(counters, bs, owners, maxMem) && t < |counters| && counters[t] + b.len <= maxMem
    ensures Own(counters[t := counters[t] + b.len], bs + [b], owners + [t], maxMem)
  {
    assert (bs + [b])[..|bs|] == bs && (owners + [t])[..|bs|] == owners;
    forall u | 0 <= u < |counters|
      ensures OwnTotal(bs + [b], owners + [t], u) == OwnTotal(bs, owners, u) + if u == t then b.len else 0
    {
    }
  }

  lemma ModAdds(x: int, y: int, d: int)
    requires x % W64 == y % W64
    ensures (x + d) % W64 == (y + d) % W64
  {
    var q, p := x / W64, y / W64;
    assert x - y == W64 * (q - p);
    ModShift(y + d, q - p);
  }

  lemma ModShift(x: int, q: int)
    ensures (x + W64 * q) % W64 == x % W64
  {
    assert x + W64 * q == W64 * (x / W64 + q) + x % W64;
    ModUnique(x + W64 * q, x / W64 + q, x % W64);
  }

  lemma ModUnique(x: int, q: int, r: int)
    requires x == W64 * q + r && 0 <= r < W64
    ensures x % W64 == r
  {
  }

  lemma CountedDown(counters: seq<nat>, bs: seq<Block>, t: nat, k: nat)
    requires Counted(counters, bs) && t < |counters| && k < |bs| && bs[k].len < W32
    ensures Counted(counters[t := (counters[t] + W64 - bs[k].len) % W64], bs[..k] + bs[k + 1..])
  {
    var len: int, v := bs[k].len, (counters[t] + W64 - bs[k].len) % W64;
    SumChanged(counters, t, v);
    TotalWithout(bs, k);
    ModAdds(SumOf(counters), Total(bs), 0 - len);
    if counters[t] >= len {
      NoWrap(counters[t] - len);
      ModShift(counters[t] - len, 1);
    } else {
      NoWrap(counters[t] + W64 - len);
      ModShift(SumOf(counters) - len, 1);
    }
  }

  /** The counters of the threads stay right exactly if the thread that frees a block is the one that
      allocated it, or there is nothing to count. */
  lemma OwnDown(counters: seq<nat>, bs: seq<Block>, owners: seq<nat>, maxMem: nat, t: nat, k: nat)
    requires Own(counters, bs, owners, maxMem) && t < |counters| && k < |bs| && bs[k].len <= maxMem < W32
    ensures var v := (counters[t] + W64 - bs[k].len) % W64;
      Own(counters[t := v], bs[..k] + bs[k + 1..], owners[..k] + owners[k + 1..], maxMem) <==>
      owners[k] == t || bs[k].len == 0
  {
    var len: int, v := bs[k].len, (counters[t] + W64 - bs[k].len) % W64;
    var now := counters[t := v];
    var rest, left := bs[..k] + bs[k + 1..], owners[..k] + owners[k + 1..];
    forall u | 0 <= u < |counters|
      ensures OwnTotal(rest, left, u) + (if owners[k] == u then len else 0) == counters[u]
    {
      OwnWithout(bs, owners, k, u);
    }
    if counters[t] >= len {
      NoWrap(counters[t] - len);
      ModShift(counters[t] - len, 1);
    } else {
      NoWrap(counters[t] + W64 - len);
    }
    assert now[t] == v;
    if owners[k] == t || len == 0 {
      forall u | 0 <= u < |now|
        ensures now[u] == OwnTotal(rest, left, u) <= maxMem
      {
      }
    }
  }

  /** A thread that frees more than it has allocated can allocate nothing any more: its counter has
      wrapped, and even an empty block does not fit. */
  lemma WrappedCounterRefuses(total: nat, freed: nat, len: Size, maxMem: nat)
    requires total < freed <= maxMem < W32
    ensures var now := (total + W64 - freed) % W64; (now + len) % W64 > maxMem || (now + len) % W64 < now
  {
    NoWrap(total + W64 - freed);
    BudgetTest(total + W64 - freed, len, maxMem);
  }

  // ----- changes of memory -----

  ghost predicate SameOutside(m: Memory, n: Memory, from: int, to: int) {
    forall a: nat :: !(from <= a < to) ==> (a in m <==> a in n) && (a in m ==> m[a] == n[a])
  }

  predicate AwayFrom(b: Block, from: int, to: int) {
    End(b) <= from || to <= Base(b)
  }

  predicate AllApart(bs: seq<Block>) {
    forall i, j :: 0 <= i < j < |bs| ==> Apart(bs[i], bs[j])
  }

  predicate AllAway(bs: seq<Block>, from: int, to: int) {
    forall k :: 0 <= k < |bs| ==> AwayFrom(bs[k], from, to)
  }

  predicate AllLive(mem: Memory, bs: seq<Block>) {
    forall k :: 0 <= k < |bs| ==> IsLive(mem, bs[k])
  }

  predicate LengthsFit(bs: seq<Block>, maxMem: nat) {
    forall k :: 0 <= k < |bs| ==> bs[k].len <= maxMem
  }

  predicate AllDead(mem: Memory, bs: seq<Block>) {
    forall k :: 0 <= k < |bs| ==> IsDead(mem, bs[k])
  }

  lemma LiveKept(m: Memory, n: Memory, from: int, to: int, bs: seq<Block>)
    requires SameOutside(m, n, from, to) && AllLive(m, bs) && AllAway(bs, from, to)
    ensures AllLive(n, bs)
  {
    forall k | 0 <= k < |bs|
      ensures IsLive(n, bs[k])
    {
      LiveSame(m, n, bs[k]);
    }
  }

  lemma DeadKept(m: Memory, n: Memory, from: int, to: int, bs: seq<Block>)
    requires SameOutside(m, n, from, to) && AllDead(m, bs) && AllAway(bs, from, to)
    ensures AllDead(n, bs)
  {
  }

  /** n bytes from an address on made c, mapping them if need be. */
  function Filled(mem: Memory, from: nat, n: nat, c: byte): (r: Memory)
    ensures forall a: nat :: a in r <==> a in mem || from <= a < from + n
    ensures forall a: nat :: a in r ==> r[a] == if from <= a < from + n then c else mem[a]
  {
    if n == 0 then mem else Filled(mem, from, n - 1, c)[from + n - 1 := c]
  }

  /** mprotect with PROT_NONE. */
  function Protected(mem: Memory, from: nat, n: nat): (r: Memory)
    ensures forall a: nat :: a in r <==> a in mem && !(from <= a < from + n)
    ensures forall a: nat :: a in r ==> r[a] == mem[a]
  {
    if n == 0 then mem else Protected(mem, from, n - 1) - {from + n - 1}
  }

  /** n readable zeros. */
  predicate IsZero(mem: Memory, from: nat, n: nat) {
    forall a: nat :: from <= a < from + n ==> a in mem && mem[a] == 0
  }

  /** n readable clobber bytes. */
  predicate IsClobbered(mem: Memory, from: nat, n: nat) {
    forall a: nat :: from <= a < from + n ==> a in mem && mem[a] == ALLOC_CLOBBER
  }

  /** The n bytes at an address. */
  function Contents(mem: Memory, from: nat, n: nat): (s: seq<byte>)
    requires Mapped(mem, from, from + n)
    ensures |s| == n && forall i :: 0 <= i < n ==> s[i] == mem[from + i]
  {
    if n == 0 then [] else Contents(mem, from, n - 1) + [mem[from + n - 1]]
  }

  /** Bytes stored at an address. */
  function Stored(mem: Memory, to: nat, s: seq<byte>): (r: Memory)
    ensures forall a: nat :: a in r <==> a in mem || to <= a < to + |s|
    ensures forall a: nat :: a in r && !(to <= a < to + |s|) ==> r[a] == mem[a]
    ensures forall i :: 0 <= i < |s| ==> r[to + i] == s[i]
  {
    if s == [] then mem else Stored(mem, to, s[..|s| - 1])[to + |s| - 1 := s[|s| - 1]]
  }

  /** Memory after mapping zeroed pages for a block and storing its header. */
  function Allocated(mem: Memory, b: Block): Memory
    requires 0 <= Base(b) && 8 <= b.ptr
  {
    WithWord(WithWord(Filled(mem, Base(b), Usable(b.len), 0), b.ptr - 8, b.len), b.ptr - 4, ALLOC_CANARY)
  }

  lemma WordOutside(mem: Memory, a: nat, v: nat)
    ensures SameOutside(mem, WithWord(mem, a, v), a, a + 4)
  {
  }

  /** The words of the header do not touch each other. */
  lemma HeaderWords(m0: Memory, ptr: nat, len: nat)
    requires 8 <= ptr && len < W32
    ensures SameOutside(m0, WithWord(WithWord(m0, ptr - 8, len), ptr - 4, ALLOC_CANARY), ptr - 8, ptr)
    ensures HasHeader(WithWord(WithWord(m0, ptr - 8, len), ptr - 4, ALLOC_CANARY), ptr, len)
  {
    hide WithWord, Word;
    var m1 := WithWord(m0, ptr - 8, len);
    WordStored(m0, ptr - 8, len);
    WordStored(m1, ptr - 4, ALLOC_CANARY);
    WordOutside(m0, ptr - 8, len);
    WordOutside(m1, ptr - 4, ALLOC_CANARY);
    WordSame(m1, WithWord(m1, ptr - 4, ALLOC_CANARY), ptr - 8);
  }

  lemma PagesWithHeader(mem: Memory, m2: Memory, base: nat, n: nat, ptr: nat, end: int)
    requires base <= ptr - 8 && ptr <= base + n <= end
    requires Unmapped(mem, base, end) && SameOutside(Filled(mem, base, n, 0), m2, ptr - 8, ptr)
    requires Mapped(m2, ptr - 8, ptr)
    ensures Mapped(m2, base, base + n) && Unmapped(m2, base + n, end) && SameOutside(mem, m2, base, base + n)
    ensures IsZero(m2, ptr, base + n - ptr)
  {
  }

  /** The header lands inside the mapping, below the block. */
  lemma HeaderStored(mem: Memory, b: Block)
    requires Placed(b) && b.len < W32 && Unmapped(mem, Base(b), End(b))
    ensures IsLive(Allocated(mem, b), b)
    ensures IsZero(Allocated(mem, b), b.ptr, b.len)
    ensures SameOutside(mem, Allocated(mem, b), Base(b), b.ptr + b.len)
  {
    hide Filled, WithWord, HasHeader, Usable, Mapped, Unmapped, SameOutside;
    HeaderWords(Filled(mem, Base(b), Usable(b.len), 0), b.ptr, b.len);
    HeaderMapped(Allocated(mem, b), b);
    PagesWithHeader(mem, Allocated(mem, b), Base(b), Usable(b.len), b.ptr, End(b));
  }

  lemma HeaderMapped(mem: Memory, b: Block)
    requires HasHeader(mem, b.ptr, b.len)
    ensures Mapped(mem, b.ptr - 8, b.ptr)
  {
  }

  /** A block put at the end of fresh pages. */
  lemma FreshBlock(mem: Memory, bs: seq<Block>, base: nat, len: nat)
    requires base % PAGE_SIZE == 0 && Unmapped(mem, base, base + Usable(len) + PAGE_SIZE)
    requires AllAway(bs, base, base + Usable(len) + PAGE_SIZE)
    ensures var b := Block(base + Usable(len) - len, len);
            && Base(b) == base && Placed(b) && Unmapped(mem, Base(b), End(b)) && AllAway(bs, Base(b), End(b))
  {
  }

  // ----- the allocator -----

  /** A pointer, NULL, a plain return, or the end of the program: abort() or a segmentation fault. */
  datatype Result = Pointer(ptr: nat) | Null | Returned | Aborted | Segfault

  /** Where mmap puts the next mapping, if it succeeds. */
  datatype Mmap = At(base: nat) | Failed

  class Allocator {
    var mem: Memory
    var totalMem: seq<nat>  // one for each thread
    const maxMem: nat
    const hardFail: bool
    const noCallocOver: bool
    ghost var live: seq<Block>
    ghost var owners: seq<nat>
    ghost var dead: seq<Block>

    constructor (threads: nat, maxMem: nat, hardFail: bool, noCallocOver: bool)
      requires IsLimit(maxMem)
      ensures Valid() && OwnCounters() && live == dead == [] && |totalMem| == threads && this.maxMem == maxMem
    {
      this.maxMem, this.hardFail, this.noCallocOver := maxMem, hardFail, noCallocOver;
      mem, totalMem, live, owners, dead := map[], Zeros(threads), [], [], [];
      ZerosSum(threads);
    }

    /** The counters come to the live lengths, modulo 2^64; every live block is within the budget and
        intact and every freed one protected; and no two mappings overlap. */
    ghost predicate Valid()
      reads this
    {
      && IsLimit(maxMem) && Counted(totalMem, live) && |owners| == |live| && LengthsFit(live, maxMem)
      && AllLive(mem, live) && AllDead(mem, dead) && AllApart(live + dead)
    }

    /** Each thread's total_mem is the sum of the live lengths it allocated, and within the budget. */
    ghost predicate OwnCounters()
      reads this
    {
      Own(totalMem, live, owners, maxMem)
    }

    /** The kernel maps fresh pages. */
    ghost predicate CanMap(m: Mmap, len: nat)
      reads this
    {
      m.At? ==>
        && m.base % PAGE_SIZE == 0 && Unmapped(mem, m.base, m.base + Usable(len) + PAGE_SIZE)
        && AllAway(live + dead, m.base, m.base + Usable(len) + PAGE_SIZE)
    }

    /** `__dislocator_alloc`, by thread t: succeeds exactly if its budget and the kernel allow it. */
    method Alloc(t: nat, len: Size, m: Mmap) returns (r: Result)
      requires Valid() && CanMap(m, len) && t < |totalMem|
      modifies this
      ensures Valid() && dead == old(dead) && (old(OwnCounters()) ==> OwnCounters())
      ensures r.Pointer? <==> old(totalMem[t]) + len <= maxMem && m.At?
      ensures totalMem == if r.Pointer? then old(totalMem)[t := old(totalMem[t]) + len] else old(totalMem)
      ensures owners == if r.Pointer? then old(owners) + [t] else old(owners)
      ensures r.Pointer? ==> live == old(live) + [Block(r.ptr, len)] && Base(Block(r.ptr, len)) == m.base
      ensures r.Pointer? ==> m.base <= r.ptr && SameOutside(old(mem), mem, m.base, r.ptr + len)
      ensures r.Pointer? ==> IsZero(mem, r.ptr, len)
      ensures !r.Pointer? ==> live == old(live) && mem == old(mem) && r == if hardFail then Aborted else Null
    {
      hide Filled, WithWord, AllLive, AllDead, AllApart, AllAway, Total, Unmapped, Usable, PgCount, IsLimit, Base, End;
      hide Own, SumOf, LengthsFit;
      FreeDoesNotWrap(0, maxMem);
      BudgetTest(totalMem[t], len, maxMem);
      if (totalMem[t] + len) % W64 > maxMem || (totalMem[t] + len) % W64 < totalMem[t] {
        return if hardFail then Aborted else Null;
      }
      if m.Failed? {
        return if hardFail then Aborted else Null;
      }
      UsableIs(len);
      var ret := m.base;
      mem := Filled(mem, ret, PgCount(len + 8) * PAGE_SIZE, 0);
      ret := ret + (PAGE_SIZE * PgCount(len + 8) - len - 8);
      ret := ret + 8;
      mem := WithWord(mem, ret - 8, len);
      mem := WithWord(mem, ret - 4, ALLOC_CANARY);
      ghost var b := Block(ret, len);
      CountedUp(totalMem, live, owners, maxMem, t, b);
      LengthsMore(live, b, maxMem);
      totalMem := totalMem[t := (totalMem[t] + len) % W64];
      BlockAdded(old(mem), live, dead, m.base, b);
      live := live + [b];
      owners := owners + [t];
      r := Pointer(ret);
    }

    /** `malloc`: as `__dislocator_alloc`, and the block is clobbered. */
    method Malloc(t: nat, len: Size, m: Mmap) returns (r: Result)
      requires Valid() && CanMap(m, len) && t < |totalMem|
      modifies this
      ensures Valid() && dead == old(dead) && (old(OwnCounters()) ==> OwnCounters())
      ensures r.Pointer? <==> old(totalMem[t]) + len <= maxMem && m.At?
      ensures totalMem == if r.Pointer? then old(totalMem)[t := old(totalMem[t]) + len] else old(totalMem)
      ensures owners == if r.Pointer? then old(owners) + [t] else old(owners)
      ensures r.Pointer? ==> live == old(live) + [Block(r.ptr, len)] && Base(Block(r.ptr, len)) == m.base
      ensures r.Pointer? ==> SameOutside(old(mem), mem, m.base, r.ptr + len) && IsClobbered(mem, r.ptr, len)
      ensures !r.Pointer? ==> live == old(live) && mem == old(mem) && r == if hardFail then Aborted else Null
    {
      hide Allocated, Filled, AllLive, AllDead, AllApart, Base, Total, IsLimit, Own, Counted, LengthsFit;
      r := Alloc(t, len, m);
      if r.Pointer? {
        WriteInside(mem, live, dead, |live| - 1, r.ptr, len, ALLOC_CLOBBER);
        Clobbers(old(mem), mem, m.base, r.ptr, len);
        mem := Filled(mem, r.ptr, len, ALLOC_CLOBBER);
      }
    }

    /** `calloc`: refuses exactly the products that do not fit in a size_t. */
    method Calloc(t: nat, elemLen: Size, elemCnt: Size, m: Mmap) returns (r: Result)
      requires Valid() && CanMap(m, elemLen * elemCnt) && t < |totalMem|
      modifies this
      ensures Valid() && dead == old(dead) && (old(OwnCounters()) ==> OwnCounters())
      ensures r.Pointer? <==> old(totalMem[t]) + elemLen * elemCnt <= maxMem && m.At?
      ensures totalMem == if r.Pointer? then old(totalMem)[t := old(totalMem[t]) + elemLen * elemCnt] else old(totalMem)
      ensures owners == if r.Pointer? then old(owners) + [t] else old(owners)
      ensures r.Pointer? ==> live == old(live) + [Block(r.ptr, elemLen * elemCnt)]
      ensures r.Pointer? ==> Base(Block(r.ptr, elemLen * elemCnt)) == m.base <= r.ptr
      ensures r.Pointer? ==> SameOutside(old(mem), mem, m.base, r.ptr + elemLen * elemCnt)
      ensures r.Pointer? ==> IsZero(mem, r.ptr, elemLen * elemCnt)
      ensures !r.Pointer? ==> live == old(live) && mem == old(mem)
      ensures !r.Pointer? ==>
                r == if elemLen * elemCnt >= W64 then (if noCallocOver then Null else Aborted)
                     else if hardFail then Aborted else Null
    {
      hide Allocated, AllLive, AllDead, AllApart, Base, Total, IsLimit, CanMap, Own, SumOf, LengthsFit;
      FreeDoesNotWrap(0, maxMem);
      CallocOverflow(elemLen, elemCnt);
      var len := elemLen * elemCnt % W64;
      if elemCnt != 0 && len / elemCnt != elemLen {
        return if noCallocOver then Null else Aborted;
      }
      NoWrap(elemLen * elemCnt);
      r := Alloc(t, len, m);
    }

    /** `free` by thread t of NULL, or of block k of those allocated so far.  A live block becomes protected as a
        whole, from the very start of its mapping; for a freed one, reading the canary faults. */
    method Free(t: nat, ptr: nat, ghost k: nat) returns (r: Result)
      requires Valid() && t < |totalMem| && (ptr == 0 || (k < |live + dead| && (live + dead)[k].ptr == ptr))
      modifies this
      ensures Valid()
      ensures r == if ptr == 0 || k < |old(live)| then Returned else Segfault
      ensures ptr == 0 || r == Segfault ==>
                mem == old(mem) && live == old(live) && dead == old(dead) && owners == old(owners) && totalMem == old(totalMem)
      ensures ptr != 0 && r == Returned ==>
                && live == old(live)[..k] + old(live)[k + 1..] && dead == old(dead) + [old(live)[k]]
                && Base(old(live)[k]) >= 0 && mem == Protected(old(mem), Base(old(live)[k]), Usable(old(live)[k].len))
                && owners == old(owners)[..k] + old(owners)[k + 1..]
                && totalMem == old(totalMem)[t := (old(totalMem[t]) + W64 - old(live)[k].len) % W64]
      ensures ptr != 0 && r == Returned && old(OwnCounters()) ==>
                (OwnCounters() <==> old(owners)[k] == t || old(live)[k].len == 0)
    {
      hide Own, Counted, LengthsFit;
      hide AllApart, Total, Protected, Mapped, Word, Usable, HasHeader, AllLive, AllDead, Base, Placed;
      hide IsLimit, PgCount32;
      if ptr == 0 {
        return Returned;
      }
      HeaderOrFault(mem, live, dead, k);
      if !Mapped(mem, ptr - 4, ptr) {
        return Segfault;
      }
      HeaderParts(mem, ptr, live[k].len);
      if Word(mem, ptr - 4) != ALLOC_CANARY {
        return Aborted;
      }
      var len := Word(mem, ptr - 8);
      LiveFits(live, k, maxMem);
      FreeDoesNotWrap(len, maxMem);
      FreeFindsBase(live[k], maxMem);
      CountedDown(totalMem, live, t, k);
      if OwnCounters() {
        OwnDown(totalMem, live, owners, maxMem, t, k);
      }
      totalMem := totalMem[t := (totalMem[t] + W64 - len) % W64];
      var pages := PgCount32(len);
      var p := ptr - (PAGE_SIZE * pages % W32 - len - 8) % W32;
      BlockFreed(mem, live, dead, k);
      mem := Protected(mem, p - 8, pages * PAGE_SIZE);
      dead := dead + [live[k]];
      live := live[..k] + live[k + 1..];
      owners := owners[..k] + owners[k + 1..];
      r := Returned;
    }

    /** `realloc` of NULL, or of block k of those allocated so far: a new block with the old contents as
        far as they fit; then the old block is freed.  For a freed block, reading the canary faults. */
    method Realloc(t: nat, ptr: nat, len: Size, m: Mmap, ghost k: nat) returns (r: Result)
      requires Valid() && CanMap(m, len) && t < |totalMem| && (ptr == 0 || (k < |live + dead| && (live + dead)[k].ptr == ptr))
      modifies this
      ensures Valid()
      ensures r.Pointer? || r == Segfault <==> old(totalMem[t]) + len <= maxMem && m.At?
      ensures r == Segfault <==> old(totalMem[t]) + len <= maxMem && m.At? && ptr != 0 && k >= |old(live)|
      ensures !r.Pointer? && r != Segfault ==>
                live == old(live) && dead == old(dead) && mem == old(mem) && r == if hardFail then Aborted else Null
      ensures r.Pointer? && ptr == 0 ==> live == old(live) + [Block(r.ptr, len)] && dead == old(dead)
      ensures r.Pointer? && ptr != 0 ==>
                && live == old(live)[..k] + old(live)[k + 1..] + [Block(r.ptr, len)]
                && dead == old(dead) + [old(live)[k]]
                && Moved(old(mem), mem, ptr, r.ptr, Min(len, old(live)[k].len))
                && owners == old(owners)[..k] + old(owners)[k + 1..] + [t]
      ensures r.Pointer? && ptr != 0 && old(OwnCounters()) ==>
                (OwnCounters() <==> old(owners)[k] == t || old(live)[k].len == 0)
    {
      hide Own, Counted, LengthsFit;
      hide AllApart, Total, Protected, Mapped, Word, Usable, HasHeader, AllLive, AllDead, Base, Allocated, Filled;
      hide IsLimit, CanMap, Contents, Stored, Moved;
      r := Malloc(t, len, m);
      if r.Pointer? && ptr != 0 {
        SameBlock(old(live), Block(r.ptr, len), dead, k);
        ghost var m1 := mem;
        var copied := CopyOld(ptr, len, r.ptr, if k < |old(live)| then k else k + 1);
        if copied != Returned {
          return copied;
        }
        RemoveEarlier(old(live), k, Block(r.ptr, len));
        ReallocMoves(old(mem), m1, live, dead, k, Min(len, live[k].len));
        RemoveEarlier(old(owners), k, t);
        var f := Free(t, ptr, k);
      }
    }

    /** The middle of `realloc`: check the old block k and copy it, as far as it fits, into the new one,
        which comes last. */
    method CopyOld(ptr: nat, len: Size, to: nat, ghost k: nat) returns (r: Result)
      requires Valid() && live != [] && live[|live| - 1] == Block(to, len)
      requires k < |live + dead| && k != |live| - 1 && (live + dead)[k].ptr == ptr
      modifies `mem
      ensures Valid() && r == if k < |live| then Returned else Segfault
      ensures r != Returned ==> mem == old(mem)
      ensures r == Returned ==>
                && Mapped(old(mem), ptr, ptr + Min(len, live[k].len))
                && mem == Stored(old(mem), to, Contents(old(mem), ptr, Min(len, live[k].len)))
    {
      hide Own, Counted, LengthsFit, AllApart, Mapped, Word, HasHeader, AllLive, AllDead, IsLimit, Contents, Stored;
      HeaderOrFault(mem, live, dead, k);
      if !Mapped(mem, ptr - 4, ptr) {
        return Segfault;
      }
      HeaderParts(mem, ptr, live[k].len);
      if Word(mem, ptr - 4) != ALLOC_CANARY {
        return Aborted;
      }
      var n := Min(len, Word(mem, ptr - 8));
      CopyInside(mem, live, dead, |live| - 1, k, n);
      mem := Stored(mem, to, Contents(mem, ptr, n));
      r := Returned;
    }

    /** A write of the program inside a block changes nothing the allocator relies on. */
    method ProgramWrites(a: nat, c: byte, ghost k: nat)
      requires Valid() && k < |live| && live[k].ptr <= a < live[k].ptr + live[k].len
      modifies `mem
      ensures Valid() && mem == old(mem)[a := c]
    {
      hide Own, Counted, LengthsFit;
      hide AllApart, Total, AllLive, AllDead, Base, IsLimit, Filled;
      FilledOne(mem, a, c);
      WriteInside(mem, live, dead, k, a, 1, c);
      mem := mem[a := c];
    }
  }

  /** n bytes at from were in m what n bytes at to are in r. */
  ghost predicate Moved(m: Memory, r: Memory, from: nat, to: nat, n: nat) {
    Mapped(m, from, from + n) && Mapped(r, to, to + n) && Contents(m, from, n) == Contents(r, to, n)
  }

  lemma SameBlock(live: seq<Block>, b: Block, dead: seq<Block>, k: nat)
    requires k < |live + dead|
    ensures (live + dead)[k] == (live + [b] + dead)[if k < |live| then k else k + 1]
  {
  }

  lemma RemoveEarlier<T>(s: seq<T>, k: nat, x: T)
    requires k < |s|
    ensures (s + [x])[..k] + (s + [x])[k + 1..] == s[..k] + s[k + 1..] + [x] && (s + [x])[..|s|] == s
    ensures (s + [x])[k] == s[k]
  {
  }

  lemma Clobbers(m0: Memory, m1: Memory, base: nat, ptr: nat, len: nat)
    requires SameOutside(m0, m1, base, ptr + len) && base <= ptr
    ensures SameOutside(m0, Filled(m1, ptr, len, ALLOC_CLOBBER), base, ptr + len)
    ensures IsClobbered(Filled(m1, ptr, len, ALLOC_CLOBBER), ptr, len)
  {
  }

  lemma ContentsSame(m: Memory, r: Memory, from: nat, n: nat)
    requires Mapped(m, from, from + n) && SameOn(m, r, from, from + n)
    ensures Moved(m, r, from, from, n)
  {
    assert Mapped(r, from, from + n);
    forall i | 0 <= i < n
      ensures Contents(m, from, n)[i] == Contents(r, from, n)[i]
    {
      assert from + i in m;
    }
  }

  lemma StoredContents(m: Memory, to: nat, s: seq<byte>)
    ensures Mapped(Stored(m, to, s), to, to + |s|) && Contents(Stored(m, to, s), to, |s|) == s
  {
  }

  /** The old contents reach the new block: mapping it did not touch them, and freeing the old block
      does not touch the copy. */
  lemma ReallocMoves(m0: Memory, m1: Memory, live: seq<Block>, dead: seq<Block>, k: nat, n: nat)
    requires live != [] && k < |live| - 1 && AllLive(m0, live[..|live| - 1])
    requires AllLive(m1, live) && AllApart(live + dead)
    requires SameOutside(m0, m1, Base(live[|live| - 1]), live[|live| - 1].ptr + live[|live| - 1].len)
    requires n <= live[k].len && n <= live[|live| - 1].len
    ensures Mapped(m1, live[k].ptr, live[k].ptr + n) && Base(live[k]) >= 0
    ensures var m2 := Stored(m1, live[|live| - 1].ptr, Contents(m1, live[k].ptr, n));
            var m3 := Protected(m2, Base(live[k]), Usable(live[k].len));
            Moved(m0, m3, live[k].ptr, live[|live| - 1].ptr, n)
  {
    var was, now := live[k], live[|live| - 1];
    OthersApart(live, dead, k);
    assert IsLive(m1, was) && IsLive(m1, now) && IsLive(m0, live[..|live| - 1][k]);
    hide AllLive, AllApart, HasHeader, Usable;
    ContentsSame(m0, m1, was.ptr, n);
    var s := Contents(m1, was.ptr, n);
    var m2 := Stored(m1, now.ptr, s);
    StoredContents(m1, now.ptr, s);
    ContentsSame(m2, Protected(m2, Base(was), Usable(was.len)), now.ptr, n);
  }

  /** The page count of `free`, in 32 bits. */
  function PgCount32(len: nat): nat {
    ((len + 8) % W32 + (PAGE_SIZE - 1)) % W32 / PAGE_SIZE
  }

  lemma SmallMod(x: int)
    requires 0 <= x < W32
    ensures x % W32 == x
  {
  }

  /** `free` computes the start of the mapping from the length alone. */
  lemma FreeFindsBase(b: Block, maxMem: nat)
    requires Placed(b) && IsLimit(maxMem) && b.len <= maxMem
    ensures PgCount32(b.len) * PAGE_SIZE == Usable(b.len)
    ensures b.ptr - (PAGE_SIZE * PgCount32(b.len) % W32 - b.len - 8) % W32 - 8 == Base(b)
  {
    var len := b.len;
    FreeDoesNotWrap(len, maxMem);
    hide IsLimit;
    SmallMod(len + 8);
    SmallMod(len + 8 + (PAGE_SIZE - 1));
    assert PgCount32(len) == PgCount(len + 8);
    UsableIs(len);
    hide PgCount32, PgCount;
    SmallMod(Usable(len));
    SmallMod(Usable(len) - len - 8);
    hide Usable;
  }

  lemma HeaderParts(mem: Memory, ptr: nat, len: nat)
    requires HasHeader(mem, ptr, len)
    ensures ptr >= 8 && Mapped(mem, ptr - 8, ptr - 4) && Mapped(mem, ptr - 4, ptr)
    ensures Word(mem, ptr - 8) == len && Word(mem, ptr - 4) == ALLOC_CANARY
  {
  }

  /** A live block has its header; the header of a freed one cannot be read. */
  lemma HeaderOrFault(mem: Memory, live: seq<Block>, dead: seq<Block>, k: nat)
    requires AllLive(mem, live) && AllDead(mem, dead) && k < |live + dead|
    ensures (live + dead)[k].ptr >= 8 && Placed((live + dead)[k])
    ensures k < |live| ==> (live + dead)[k] == live[k] && HasHeader(mem, live[k].ptr, live[k].len)
    ensures k >= |live| ==> !Mapped(mem, (live + dead)[k].ptr - 4, (live + dead)[k].ptr)
    ensures k < |live| ==> Mapped(mem, live[k].ptr - 4, live[k].ptr)
  {
    var b := (live + dead)[k];
    if k >= |live| {
      assert b == dead[k - |live|];
      assert b.ptr - 4 !in mem;
    }
  }

  lemma LiveFits(live: seq<Block>, k: nat, maxMem: nat)
    requires k < |live| && LengthsFit(live, maxMem)
    ensures live[k].len <= maxMem && LengthsFit(live[..k] + live[k + 1..], maxMem)
  {
  }

  lemma LengthsMore(live: seq<Block>, b: Block, maxMem: nat)
    requires LengthsFit(live, maxMem) && b.len <= maxMem
    ensures LengthsFit(live + [b], maxMem)
  {
  }

  function Zeros(n: nat): (s: seq<nat>)
    ensures |s| == n && forall t :: 0 <= t < n ==> s[t] == 0
  {
    if n == 0 then [] else Zeros(n - 1) + [0]
  }

  lemma {:induction false} ZerosSum(n: nat)
    ensures SumOf(Zeros(n)) == 0
  {
    if n > 0 {
      ZerosSum(n - 1);
    }
  }

  lemma FilledOne(mem: Memory, a: nat, c: byte)
    ensures Filled(mem, a, 1, c) == mem[a := c]
  {
    assert Filled(mem, a, 0, c) == mem;
  }

  lemma NoWrap(x: nat)
    requires x < W64
    ensures x % W64 == x
  {
  }

  lemma ApartAdded(live: seq<Block>, dead: seq<Block>, b: Block)
    requires AllApart(live + dead) && AllAway(live + dead, Base(b), End(b))
    ensures AllApart(live + [b] + dead)
  {
    var all, more := live + dead, live + [b] + dead;
    forall i, j | 0 <= i < j < |more|
      ensures Apart(more[i], more[j])
    {
      if i != |live| {
        assert more[i] == all[if i < |live| then i else i - 1];
      }
      if j != |live| {
        assert more[j] == all[if j < |live| then j else j - 1];
      }
    }
  }

  lemma BlocksAway(live: seq<Block>, dead: seq<Block>, from: int, to: int, end: int)
    requires AllAway(live + dead, from, end) && to <= end
    ensures AllAway(live, from, to) && AllAway(dead, from, to)
  {
    hide Base;
    forall k | 0 <= k < |live|
      ensures AwayFrom(live[k], from, to)
    {
      assert (live + dead)[k] == live[k];
    }
    forall k | 0 <= k < |dead|
      ensures AwayFrom(dead[k], from, to)
    {
      assert (live + dead)[|live| + k] == dead[k];
    }
  }

  /** A new block at the end of fresh pages leaves all others as they were. */
  lemma BlockAdded(mem: Memory, live: seq<Block>, dead: seq<Block>, base: nat, b: Block)
    requires base % PAGE_SIZE == 0 && Unmapped(mem, base, base + Usable(b.len) + PAGE_SIZE) && b.len < W32
    requires AllAway(live + dead, base, base + Usable(b.len) + PAGE_SIZE) && b.ptr == base + Usable(b.len) - b.len
    requires AllLive(mem, live) && AllDead(mem, dead) && AllApart(live + dead)
    ensures Base(b) == base && base <= b.ptr - 8 && IsZero(Allocated(mem, b), b.ptr, b.len)
    ensures SameOutside(mem, Allocated(mem, b), Base(b), b.ptr + b.len)
    ensures AllLive(Allocated(mem, b), live + [b]) && AllDead(Allocated(mem, b), dead)
    ensures AllApart(live + [b] + dead) && Total(live + [b]) == Total(live) + b.len
  {
    hide Allocated, IsLive, IsDead, Unmapped, IsZero, SameOutside, AllApart;
    FreshBlock(mem, live + dead, base, b.len);
    HeaderStored(mem, b);
    hide Usable;
    assert Base(b) == base;
    hide Base;
    BlocksAway(live, dead, Base(b), b.ptr + b.len, End(b));
    LiveKept(mem, Allocated(mem, b), Base(b), b.ptr + b.len, live);
    DeadKept(mem, Allocated(mem, b), Base(b), b.ptr + b.len, dead);
    ApartAdded(live, dead, b);
    assert (live + [b])[..|live|] == live;
  }

  /** The other blocks are apart from block k. */
  lemma OthersApart(live: seq<Block>, dead: seq<Block>, k: nat)
    requires AllApart(live + dead) && k < |live|
    ensures forall i :: 0 <= i < |live| && i != k ==> Apart(live[i], live[k])
    ensures forall i :: 0 <= i < |dead| ==> Apart(dead[i], live[k])
  {
    var all := live + dead;
    forall i | 0 <= i < |live| && i != k
      ensures Apart(live[i], live[k])
    {
      assert all[i] == live[i] && all[k] == live[k];
    }
    forall i | 0 <= i < |dead|
      ensures Apart(dead[i], live[k])
    {
      assert all[|live| + i] == dead[i] && all[k] == live[k];
    }
  }

  /** Memory that differs only inside block k, with the same bytes mapped. */
  ghost predicate DiffersInside(m: Memory, n: Memory, b: Block) {
    SameOutside(m, n, b.ptr, b.ptr + b.len) && Mapped(n, b.ptr, b.ptr + b.len)
  }

  /** Changing the contents of a block keeps all blocks intact. */
  lemma InsideKept(m: Memory, n: Memory, live: seq<Block>, dead: seq<Block>, k: nat)
    requires AllLive(m, live) && AllDead(m, dead) && AllApart(live + dead)
    requires k < |live| && DiffersInside(m, n, live[k])
    ensures AllLive(n, live) && AllDead(n, dead)
  {
    OthersApart(live, dead, k);
    forall i | 0 <= i < |live|
      ensures IsLive(n, live[i])
    {
      if i == k {
        OwnKept(m, n, live[k]);
      } else {
        LiveSame(m, n, live[i]);
      }
    }
    hide Usable;
  }

  lemma OwnKept(m: Memory, n: Memory, b: Block)
    requires IsLive(m, b) && DiffersInside(m, n, b)
    ensures IsLive(n, b)
  {
    hide Word, Usable;
    WordSame(m, n, b.ptr - 8);
    WordSame(m, n, b.ptr - 4);
  }

  lemma WriteInside(mem: Memory, live: seq<Block>, dead: seq<Block>, k: nat, from: nat, n: nat, c: byte)
    requires AllLive(mem, live) && AllDead(mem, dead) && AllApart(live + dead)
    requires k < |live| && live[k].ptr <= from && from + n <= live[k].ptr + live[k].len
    ensures AllLive(Filled(mem, from, n, c), live) && AllDead(Filled(mem, from, n, c), dead)
  {
    assert IsLive(mem, live[k]);
    InsideKept(mem, Filled(mem, from, n, c), live, dead, k);
  }

  lemma CopyInside(mem: Memory, live: seq<Block>, dead: seq<Block>, to: nat, from: nat, n: nat)
    requires AllLive(mem, live) && AllDead(mem, dead) && AllApart(live + dead)
    requires to < |live| && from < |live| && n <= live[to].len && n <= live[from].len
    ensures Mapped(mem, live[from].ptr, live[from].ptr + n)
    ensures var r := Stored(mem, live[to].ptr, Contents(mem, live[from].ptr, n)); AllLive(r, live) && AllDead(r, dead)
  {
    assert IsLive(mem, live[from]) && IsLive(mem, live[to]);
    assert Mapped(mem, live[from].ptr, live[from].ptr + n);
    StoreInside(mem, live[to], Contents(mem, live[from].ptr, n));
    hide IsLive, Mapped, Contents;
    InsideKept(mem, Stored(mem, live[to].ptr, Contents(mem, live[from].ptr, n)), live, dead, to);
  }

  lemma StoreInside(mem: Memory, b: Block, s: seq<byte>)
    requires IsLive(mem, b) && |s| <= b.len
    ensures DiffersInside(mem, Stored(mem, b.ptr, s), b)
  {
    hide Usable, HasHeader;
  }

  lemma ProtectsBlock(mem: Memory, b: Block)
    requires IsLive(mem, b)
    ensures Base(b) >= 0 && IsDead(Protected(mem, Base(b), Usable(b.len)), b)
    ensures SameOutside(mem, Protected(mem, Base(b), Usable(b.len)), Base(b), b.ptr + b.len)
  {
  }

  lemma RestAway(live: seq<Block>, dead: seq<Block>, k: nat)
    requires AllApart(live + dead) && k < |live|
    ensures AllAway(live[..k] + live[k + 1..], Base(live[k]), live[k].ptr + live[k].len)
    ensures AllAway(dead, Base(live[k]), live[k].ptr + live[k].len)
  {
    OthersApart(live, dead, k);
    hide AllApart, Usable;
    var rest := live[..k] + live[k + 1..];
    forall i | 0 <= i < |rest|
      ensures AwayFrom(rest[i], Base(live[k]), live[k].ptr + live[k].len)
    {
      assert rest[i] == live[if i < k then i else i + 1];
    }
  }

  /** Freeing block k protects it as a whole and leaves all others as they were. */
  lemma BlockFreed(mem: Memory, live: seq<Block>, dead: seq<Block>, k: nat)
    requires AllLive(mem, live) && AllDead(mem, dead) && AllApart(live + dead) && k < |live|
    ensures Base(live[k]) >= 0
    ensures var n, rest := Protected(mem, Base(live[k]), Usable(live[k].len)), live[..k] + live[k + 1..];
            && AllLive(n, rest) && AllDead(n, dead + [live[k]]) && AllApart(rest + (dead + [live[k]]))
            && Total(rest) == Total(live) - live[k].len
  {
    hide IsLive, IsDead, Usable, AllApart, AllAway, Protected, Base;
    var b, rest := live[k], live[..k] + live[k + 1..];
    ProtectsBlock(mem, b);
    RestAway(live, dead, k);
    TotalWithout(live, k);
    assert AllLive(mem, rest) by {
      assert forall i :: 0 <= i < |rest| ==> rest[i] == live[if i < k then i else i + 1];
    }
    LiveKept(mem, Protected(mem, Base(b), Usable(b.len)), Base(b), b.ptr + b.len, rest);
    DeadKept(mem, Protected(mem, Base(b), Usable(b.len)), Base(b), b.ptr + b.len, dead);
    ApartMoved(live, dead, k);
  }

  lemma ApartMoved(live: seq<Block>, dead: seq<Block>, k: nat)
    requires AllApart(live + dead) && k < |live|
    ensures AllApart(live[..k] + live[k + 1..] + (dead + [live[k]]))
  {
    var all, moved := live + dead, live[..k] + live[k + 1..] + (dead + [live[k]]);
    var n := |all| - 1;
    forall i, j | 0 <= i < j < |moved|
      ensures Apart(moved[i], moved[j])
    {
      assert moved[i] == all[if i < k then i else i + 1];
      assert moved[j] == all[if j == n then k else if j < k then j else j + 1];
    }
  }
}
