/**
 The winner table and the favored set: `minimize_bits`, `update_bitmap_score`,
 `cull_queue` and the counters `queued_favored`, `pending_favored` and
 `pending_not_fuzzed` over the life of the queue.

 Every entry has one fixed trace, of which only the set of hit bytes matters here.
 */
module WinnerTable {
  import opened Wrappers

  // ----- bitmaps -----

  /** `1 << k` */
  function Mask(k: nat): bv8
    requires k < 8
  {
    match k
    case 0 => 1
    case 1 => 2
    case 2 => 4
    case 3 => 8
    case 4 => 16
    case 5 => 32
    case 6 => 64
    case _ => 128
  }

  predicate HasBit(b: bv8, k: nat)
    requires k < 8
  {
    b & Mask(k) != 0
  }

  predicate Bit(mini: seq<bv8>, i: nat)
    requires i / 8 < |mini|
  {
    HasBit(mini[i / 8], i % 8)
  }

  /** mini is the trace compacted to one bit a byte. */
  ghost predicate IsCompact(mini: seq<bv8>, hits: seq<bool>) {
    8 * |mini| == |hits| && forall i :: 0 <= i < |hits| ==> (Bit(mini, i) <==> hits[i])
  }

  lemma CompactSize(mini: seq<bv8>, hits: seq<bool>)
    requires IsCompact(mini, hits)
    ensures 8 * |mini| == |hits|
  {
  }

  lemma OrMask(b: bv8, k: nat, j: nat)
    requires k < 8 && j < 8
    ensures HasBit(b | Mask(k), j) <==> j == k || HasBit(b, j)
  {
  }

  lemma ClearMask(b: bv8, m: bv8, j: nat)
    requires j < 8
    ensures HasBit(b & !m, j) <==> HasBit(b, j) && !HasBit(m, j)
  {
  }

  lemma NoBits(j: nat)
    requires j < 8
    ensures !HasBit(0, j) && HasBit(0xff, j)
  {
  }

  // ----- counting slots -----

  /** How many slots e holds. */
  function Count<E(==)>(top: seq<E>, e: E): nat {
    if top == [] then 0
    else Count(top[..|top| - 1], e) + if top[|top| - 1] == e then 1 else 0
  }

  /** Handing one slot over moves one unit of the count. */
  lemma {:induction false} CountHandOver<E>(top: seq<E>, i: nat, q: E, e: E)
    requires i < |top|
    ensures Count(top[i := q], e) + (if top[i] == e then 1 else 0) == Count(top, e) + (if q == e then 1 else 0)
  {
    var n := |top| - 1;
    if i == n {
      assert top[i := q][..n] == top[..n];
    } else {
      assert top[i := q][..n] == top[..n][i := q];
      CountHandOver(top[..n], i, q, e);
    }
  }

  lemma {:induction false} CountPositive<E>(top: seq<E>, e: E)
    ensures Count(top, e) > 0 <==> e in top
  {
    if top != [] {
      CountPositive(top[..|top| - 1], e);
      assert top == top[..|top| - 1] + [top[|top| - 1]];
    }
  }

  // ----- the greedy cover -----

  predicate CoveredBy<E(==)>(picks: seq<E>, traces: map<E, seq<bool>>, i: nat) {
    exists k :: 0 <= k < |picks| && picks[k] in traces && i < |traces[picks[k]]| && traces[picks[k]][i]
  }

  datatype Slot<E> = Free | Held(owner: E)

  /** The winners grabbed, in order, for the first n slots: the holder of a slot is grabbed when no
      earlier pick covers the slot. */
  function Picks<E(==)>(top: seq<Slot<E>>, traces: map<E, seq<bool>>, n: nat): seq<E>
    requires n <= |top|
  {
    if n == 0 then []
    else
      var p := Picks(top, traces, n - 1);
      if top[n - 1].Held? && !CoveredBy(p, traces, n - 1) then p + [top[n - 1].owner] else p
  }

  /** Every held slot belongs to an entry that hits its byte. */
  ghost predicate HoldersCover<E>(top: seq<Slot<E>>, traces: map<E, seq<bool>>) {
    forall i :: 0 <= i < |top| && top[i].Held? ==>
      top[i].owner in traces && i < |traces[top[i].owner]| && traces[top[i].owner][i]
  }

  lemma HoldersCoverMore<E>(top: seq<Slot<E>>, traces: map<E, seq<bool>>, q: E, hits: seq<bool>)
    requires HoldersCover(top, traces) && q !in traces
    ensures HoldersCover(top, traces[q := hits])
  {
  }

  lemma CoveredByMore<E>(picks: seq<E>, more: seq<E>, traces: map<E, seq<bool>>, i: nat)
    ensures CoveredBy(picks + more, traces, i) <==> CoveredBy(picks, traces, i) || CoveredBy(more, traces, i)
  {
    if CoveredBy(picks, traces, i) {
      var k :| 0 <= k < |picks| && picks[k] in traces && i < |traces[picks[k]]| && traces[picks[k]][i];
      assert (picks + more)[k] == picks[k];
    }
    if CoveredBy(more, traces, i) {
      var k :| 0 <= k < |more| && more[k] in traces && i < |traces[more[k]]| && traces[more[k]][i];
      assert (picks + more)[|picks| + k] == more[k];
    }
    if CoveredBy(picks + more, traces, i) {
      var k :| 0 <= k < |picks + more| && (picks + more)[k] in traces
               && i < |traces[(picks + more)[k]]| && traces[(picks + more)[k]][i];
      assert if k < |picks| then picks[k] == (picks + more)[k] else more[k - |picks|] == (picks + more)[k];
    }
  }

  /** Every byte that has a winner is covered by a pick. */
  lemma {:induction false} PicksCover<E>(top: seq<Slot<E>>, traces: map<E, seq<bool>>, n: nat, i: nat)
    requires i < n <= |top| && top[i].Held? && HoldersCover(top, traces)
    ensures CoveredBy(Picks(top, traces, n), traces, i)
  {
    var p := Picks(top, traces, n - 1);
    if i == n - 1 {
      if !CoveredBy(p, traces, i) {
        var all := p + [top[i].owner];
        assert all[|p|] == top[i].owner;
      }
    } else {
      PicksCover(top, traces, n - 1, i);
      if top[n - 1].Held? {
        CoveredByMore(p, [top[n - 1].owner], traces, i);
      }
    }
  }

  /** Every pick covers a byte that no earlier pick covers. */
  lemma {:induction false} PicksAreNeeded<E>(top: seq<Slot<E>>, traces: map<E, seq<bool>>, n: nat, k: nat)
    requires n <= |top| && HoldersCover(top, traces) && k < |Picks(top, traces, n)|
    ensures var p := Picks(top, traces, n);
      exists i :: 0 <= i < n && top[i] == Held(p[k]) && CoveredBy([p[k]], traces, i) && !CoveredBy(p[..k], traces, i)
  {
    var p := Picks(top, traces, n - 1);
    if k < |p| {
      PicksAreNeeded(top, traces, n - 1, k);
      assert Picks(top, traces, n)[..k] == p[..k];
    } else {
      var all := Picks(top, traces, n);
      assert all[..k] == p;
      assert [all[k]][0] == top[n - 1].owner;
      assert top[n - 1] == Held(all[k]) && CoveredBy([all[k]], traces, n - 1);
    }
  }

  /** No entry is picked twice. */
  lemma {:induction false} PicksDistinct<E>(top: seq<Slot<E>>, traces: map<E, seq<bool>>, n: nat)
    requires n <= |top| && HoldersCover(top, traces)
    ensures forall k, l :: 0 <= k < l < |Picks(top, traces, n)| ==>
              Picks(top, traces, n)[k] != Picks(top, traces, n)[l]
  {
    var p := Picks(top, traces, n);
    forall k, l | 0 <= k < l < |p|
      ensures p[k] != p[l]
    {
      PicksAreNeeded(top, traces, n, l);
      var i :| 0 <= i < n && top[i] == Held(p[l]) && CoveredBy([p[l]], traces, i) && !CoveredBy(p[..l], traces, i);
      assert [p[l]][0] == p[l];
      assert p[..l][k] == p[k];
    }
  }

  // ----- the queue -----

  const CAL_CHANCES := 3

  /** `exec_us * len` in a u64. */
  function FavFactor(execUs: nat, len: nat): nat {
    execUs * len % 0x1_0000_0000_0000_0000
  }

  class QueueEntry {
    var len: nat
    var execUs: nat
    var calFailed: nat
    var wasFuzzed: bool
    var favored: bool
    var traceMini: Option<seq<bv8>>
    var tcRef: nat

    constructor (len: nat)
      ensures this.len == len && tcRef == 0 && traceMini == None && !favored && !wasFuzzed && calFailed == 0
    {
      this.len, execUs, tcRef, traceMini := len, 0, 0, None;
      calFailed, wasFuzzed, favored := 0, false, false;
    }

    function Fav(): nat
      reads `execUs, `len
    {
      FavFactor(execUs, len)
    }

    /** `tc_ref` is n, and the trace hits is kept in compacted form exactly while n is positive. */
    ghost predicate Refs(n: nat, hits: seq<bool>)
      reads `tcRef, `traceMini
    {
      tcRef == n && (traceMini.Some? <==> n > 0) && (traceMini.Some? ==> IsCompact(traceMini.value, hits))
    }

    /** Drop one reference, and the compacted trace with the last one. */
    method Release(ghost n: nat, ghost hits: seq<bool>)
      requires Refs(n, hits) && n > 0
      modifies `tcRef, `traceMini
      ensures Refs(n - 1, hits)
    {
      tcRef := tcRef - 1;
      if tcRef == 0 {
        traceMini := None;
      }
    }

    /** Add one reference, and make the compacted trace if there is none. */
    method Acquire(ghost n: nat, ghost hits: seq<bool>, traceBits: array<bv8>)
      requires Refs(n, hits)
      requires |hits| == traceBits.Length && traceBits.Length % 8 == 0
      requires forall i :: 0 <= i < traceBits.Length ==> (traceBits[i] != 0 <==> hits[i])
      modifies `tcRef, `traceMini
      ensures Refs(n + 1, hits)
    {
      tcRef := tcRef + 1;
      if traceMini == None {
        var dst := MinimizeBits(traceBits);
        traceMini := Some(dst[..]);
      }
    }
  }

  /** `minimize_bits` into a freshly zeroed buffer. */
  method MinimizeBits(src: array<bv8>) returns (dst: array<bv8>)
    requires src.Length % 8 == 0
    ensures fresh(dst) && 8 * dst.Length == src.Length
    ensures forall i :: 0 <= i < src.Length ==> (Bit(dst[..], i) <==> src[i] != 0)
  {
    hide HasBit;
    dst := new bv8[src.Length / 8](_ => 0);
    forall j | 0 <= j < 8
      ensures !HasBit(0, j)
    {
      NoBits(j);
    }
    var i := 0;
    while i < src.Length
      invariant 0 <= i <= src.Length
      invariant forall k :: 0 <= k < src.Length ==> (HasBit(dst[k / 8], k % 8) <==> k < i && src[k] != 0)
    {
      if src[i] != 0 {
        ghost var was := dst[i / 8];
        dst[i / 8] := dst[i / 8] | Mask(i % 8);
        forall k | 0 <= k < src.Length && k / 8 == i / 8
          ensures HasBit(dst[k / 8], k % 8) <==> k == i || HasBit(was, k % 8)
        {
          OrMask(was, i % 8, k % 8);
        }
      }
      i := i + 1;
    }
  }

  ghost function UnfuzzedIn(queue: seq<QueueEntry>): set<QueueEntry>
    reads queue`wasFuzzed
  {
    set e | e in queue && !e.wasFuzzed
  }

  ghost function FavoredIn(queue: seq<QueueEntry>): set<QueueEntry>
    reads queue`favored
  {
    set e | e in queue && e.favored
  }

  ghost function PendingFavoredIn(queue: seq<QueueEntry>): set<QueueEntry>
    reads queue`favored, queue`wasFuzzed
  {
    set e | e in queue && e.favored && !e.wasFuzzed
  }

  ghost function PickedIn(queue: seq<QueueEntry>, picks: seq<QueueEntry>): set<QueueEntry> {
    set e | e in queue && e in picks
  }

  ghost function PendingPickedIn(queue: seq<QueueEntry>, picks: seq<QueueEntry>): set<QueueEntry>
    reads queue`wasFuzzed
  {
    set e | e in queue && e in picks && !e.wasFuzzed
  }

  lemma PickedGrow(queue: seq<QueueEntry>, picks: seq<QueueEntry>, q: QueueEntry)
    requires q in queue && q !in picks
    ensures PickedIn(queue, picks + [q]) == PickedIn(queue, picks) + {q} && q !in PickedIn(queue, picks)
    ensures PendingPickedIn(queue, picks + [q]) == PendingPickedIn(queue, picks) + if q.wasFuzzed then {} else {q}
    ensures q !in PendingPickedIn(queue, picks)
  {
  }

  lemma AppendedSets(queue: seq<QueueEntry>, q: QueueEntry)
    requires q !in queue && !q.favored && !q.wasFuzzed
    ensures UnfuzzedIn(queue + [q]) == UnfuzzedIn(queue) + {q} && q !in UnfuzzedIn(queue)
    ensures FavoredIn(queue + [q]) == FavoredIn(queue) && PendingFavoredIn(queue + [q]) == PendingFavoredIn(queue)
  {
  }

  /** The inner loop of `cull_queue`: take the bits of mini out of temp_v. */
  method ClearBits(tempV: array<bv8>, mini: seq<bv8>)
    requires tempV.Length == |mini|
    modifies tempV
    ensures forall b :: 0 <= b < 8 * |mini| ==> (Bit(tempV[..], b) <==> Bit(old(tempV[..]), b) && !Bit(mini, b))
  {
    ghost var was := tempV[..];
    var j := |mini|;
    while j > 0
      invariant 0 <= j <= |mini|
      invariant forall k :: 0 <= k < |mini| ==> tempV[k] == if k < j then was[k] else was[k] & !mini[k]
    {
      j := j - 1;
      if mini[j] != 0 {
        tempV[j] := tempV[j] & !mini[j];
      } else {
        ClearNothing(was[j]);
      }
    }
    forall b | 0 <= b < 8 * |mini|
      ensures Bit(tempV[..], b) <==> Bit(was, b) && !Bit(mini, b)
    {
      ClearMask(was[b / 8], mini[b / 8], b % 8);
    }
  }

  lemma ClearNothing(b: bv8)
    ensures b & !0 == b
  {
  }

  /** temp_v has the bits of exactly the bytes no pick covers. */
  ghost predicate Uncovered<E>(tempV: seq<bv8>, picks: seq<E>, traces: map<E, seq<bool>>) {
    forall b :: 0 <= b < 8 * |tempV| ==> (Bit(tempV, b) <==> !CoveredBy(picks, traces, b))
  }

  lemma UncoveredStep<E>(was: seq<bv8>, now: seq<bv8>, mini: seq<bv8>, picks: seq<E>, e: E, traces: map<E, seq<bool>>)
    requires Uncovered(was, picks, traces) && e in traces && IsCompact(mini, traces[e])
    requires |was| == |now| == |mini|
    requires forall b :: 0 <= b < 8 * |mini| ==> (Bit(now, b) <==> Bit(was, b) && !Bit(mini, b))
    ensures Uncovered(now, picks + [e], traces)
  {
    hide Bit;
    forall b | 0 <= b < 8 * |now|
      ensures Bit(now, b) <==> !CoveredBy(picks + [e], traces, b)
    {
      CoveredByMore(picks, [e], traces, b);
      assert [e][0] == e;
      assert CoveredBy([e], traces, b) <==> traces[e][b];
    }
  }

  lemma AllUncovered<E>(tempV: seq<bv8>, traces: map<E, seq<bool>>)
    requires forall k :: 0 <= k < |tempV| ==> tempV[k] == 0xff
    ensures Uncovered(tempV, [], traces)
  {
    forall b | 0 <= b < 8 * |tempV|
      ensures Bit(tempV, b)
    {
      NoBits(b % 8);
    }
  }

  class Fuzzer {
    var queue: seq<QueueEntry>
    const topRated: array<Slot<QueueEntry>>
    const traceBits: array<bv8>
    var scoreChanged: bool
    var queuedFavored: nat
    var pendingFavored: nat
    var pendingNotFuzzed: nat
    ghost var traces: map<QueueEntry, seq<bool>>   // the fixed trace of each entry
    ghost var scored: set<QueueEntry>              // entries scored so far

    ghost function Entries(): set<QueueEntry>
      reads `queue
    {
      set e | e in queue
    }

    /** Sizes agree, and slots are held by scored entries that hit the byte. */
    ghost predicate Shape()
      reads `queue, `traces, `scored, topRated
    {
      && topRated as object != traceBits && topRated.Length == traceBits.Length && topRated.Length % 8 == 0
      && traces.Keys == Entries() && scored <= Entries()
      && (forall e :: e in traces ==> |traces[e]| == topRated.Length)
      && HoldersCover(topRated[..], traces)
      && (forall i :: 0 <= i < topRated.Length && topRated[i].Held? ==> topRated[i].owner in scored)
    }

    /** Every `tc_ref` counts the slots held, and compacted traces are kept exactly as long as needed. */
    ghost predicate RefsOk()
      requires Shape()
      reads `queue, `traces, `scored, topRated, Entries()`tcRef, Entries()`traceMini
    {
      forall e :: e in traces ==> e.Refs(Count(topRated[..], Held(e)), traces[e])
    }

    /** Slot i has a holder no worse than e. */
    ghost predicate BeatenAt(i: nat, e: QueueEntry)
      requires i < topRated.Length
      reads topRated, e`execUs, e`len
      reads (if topRated[i].Held? then {topRated[i].owner} else {})`execUs
      reads (if topRated[i].Held? then {topRated[i].owner} else {})`len
    {
      topRated[i].Held? && topRated[i].owner.Fav() <= e.Fav()
    }

    /** Every slot is held by an entry that is best among the scored entries hitting its byte, those
        in open apart. */
    ghost predicate Minimal(open: set<QueueEntry>)
      requires Shape()
      reads `queue, `traces, `scored, topRated, Entries()`execUs, Entries()`len
    {
      forall e, i :: e in scored - open && 0 <= i < topRated.Length && traces[e][i] ==> BeatenAt(i, e)
    }

    ghost predicate Table()
      reads this, topRated, Entries()
    {
      Shape() && RefsOk() && Minimal({})
    }

    /** Every byte that a scored entry hits has a holder that hits it too, and no entry that hits it takes
        less time times length, as long as these products fit 64 bits. */
    lemma HolderIsCheapest(e: QueueEntry, i: nat)
      requires Table() && e in scored && i < topRated.Length && traces[e][i]
      requires forall f <- scored :: f.execUs * f.len < 0x1_0000_0000_0000_0000
      ensures topRated[i].Held?
      ensures var h := topRated[i].owner;
              h in scored && traces[h][i] && h.execUs * h.len <= e.execUs * e.len
    {
      assert BeatenAt(i, e);
      assert topRated[..][i] == topRated[i];
    }

    /** The trace of the run just made is q's. */
    ghost predicate Loaded(q: QueueEntry)
      reads this, traceBits
    {
      q in traces && |traces[q]| == traceBits.Length && traceBits.Length % 8 == 0 &&
      forall i :: 0 <= i < traceBits.Length ==> (traceBits[i] != 0 <==> traces[q][i])
    }

    /** q takes a slot that is free or whose holder has no smaller factor. */
    ghost predicate Wins(q: QueueEntry, slot: Slot<QueueEntry>)
      reads q, if slot.Held? then {slot.owner} else {}
    {
      slot.Free? || q.Fav() <= slot.owner.Fav()
    }

    /** q becomes the holder of slot i. */
    method TakeSlot(q: QueueEntry, i: nat)
      requires Shape() && RefsOk() && Loaded(q) && q in scored && i < topRated.Length && traces[q][i]
      modifies topRated, Entries()`tcRef, Entries()`traceMini
      ensures Shape() && RefsOk()
      ensures topRated[..] == old(topRated[..])[i := Held(q)]
    {
      hide IsCompact, Count, FavFactor, CoveredBy;
      var slot := topRated[i];
      ghost var top := topRated[..];
      if slot.Held? {
        CountPositive(top, slot);
        slot.owner.Release(Count(top, slot), traces[slot.owner]);
      }
      topRated[i] := Held(q);
      ghost var now := topRated[..];
      assert now == top[i := Held(q)];
      CountHandOver(top, i, Held(q), Held(q));
      q.Acquire(Count(now, Held(q)) - 1, traces[q], traceBits);
      forall e | e in traces
        ensures e.Refs(Count(now, Held(e)), traces[e])
      {
        CountHandOver(top, i, Held(q), Held(e));
      }
    }

    /** One byte of the loop in `update_bitmap_score`. */
    method Challenge(q: QueueEntry, i: nat)
      requires Shape() && RefsOk() && Loaded(q) && q in scored && i < topRated.Length && traces[q][i]
      modifies topRated, Entries()`tcRef, Entries()`traceMini, `scoreChanged
      ensures Shape() && RefsOk()
      ensures topRated[..] == if Wins(q, old(topRated[i])) then old(topRated[..])[i := Held(q)] else old(topRated[..])
      ensures scoreChanged <==> old(scoreChanged) || Wins(q, old(topRated[i]))
    {
      var slot := topRated[i];
      if slot.Held? && q.Fav() > slot.owner.Fav() {
        return;
      }
      TakeSlot(q, i);
      scoreChanged := true;
    }

    /** The slots below n have been fought over, the others are as they were. */
    ghost predicate FoughtUpTo(q: QueueEntry, was: seq<Slot<QueueEntry>>, now: seq<Slot<QueueEntry>>, n: nat)
      reads this, traceBits, q, set s | s in was && s.Held? :: s.owner
    {
      && |was| == |now| == traceBits.Length && n <= |was|
      && (forall i :: 0 <= i < n ==>
            now[i] == if traceBits[i] != 0 && Wins(q, was[i]) then Held(q) else was[i])
      && (forall i :: n <= i < |was| ==> now[i] == was[i])
    }

    /** `update_bitmap_score` */
    method UpdateBitmapScore(q: QueueEntry)
      requires Shape() && RefsOk() && Minimal({q}) && Loaded(q)
      modifies topRated, Entries()`tcRef, Entries()`traceMini, `scoreChanged, `scored
      ensures Table() && scored == old(scored) + {q}
      ensures FoughtUpTo(q, old(topRated[..]), topRated[..], topRated.Length)
      ensures scoreChanged <==> (old(scoreChanged) || AnyWin(q, old(topRated[..]), topRated.Length))
    {
      hide IsCompact, Count, FavFactor, CoveredBy, QueueEntry.Refs, FoughtUpTo, AnyWin;
      ghost var was := topRated[..];
      scored := scored + {q};
      NothingFought(q, was);
      var i := 0;
      while i < topRated.Length
        invariant 0 <= i <= topRated.Length && Shape() && RefsOk() && Loaded(q) && q in scored
        invariant scored == old(scored) + {q}
        invariant FoughtUpTo(q, was, topRated[..], i)
        invariant scoreChanged <==> (old(scoreChanged) || AnyWin(q, was, i))
      {
        FightFor(q, was, i, old(scoreChanged));
        i := i + 1;
      }
      WinnersAreMinimal(q, was);
    }

    ghost predicate AnyWin(q: QueueEntry, was: seq<Slot<QueueEntry>>, n: nat)
      requires n <= |was| && n <= traceBits.Length
      reads traceBits, q, set s | s in was && s.Held? :: s.owner
    {
      exists k :: 0 <= k < n && traceBits[k] != 0 && Wins(q, was[k])
    }

    lemma NothingFought(q: QueueEntry, was: seq<Slot<QueueEntry>>)
      requires |was| == traceBits.Length
      ensures FoughtUpTo(q, was, was, 0) && !AnyWin(q, was, 0)
    {
    }

    /** One turn of the loop in `update_bitmap_score`. */
    method FightFor(q: QueueEntry, ghost was: seq<Slot<QueueEntry>>, i: nat, ghost before: bool)
      requires Shape() && RefsOk() && Loaded(q) && q in scored && i < topRated.Length
      requires FoughtUpTo(q, was, topRated[..], i) && (scoreChanged <==> (before || AnyWin(q, was, i)))
      modifies topRated, Entries()`tcRef, Entries()`traceMini, `scoreChanged
      ensures Shape() && RefsOk() && Loaded(q) && FoughtUpTo(q, was, topRated[..], i + 1)
      ensures scoreChanged <==> (before || AnyWin(q, was, i + 1))
    {
      hide IsCompact, Count, FavFactor, CoveredBy, QueueEntry.Refs;
      assert topRated[..][i] == topRated[i];
      if traceBits[i] != 0 {
        Challenge(q, i);
      }
    }

    /** Handing slots to an entry at least as good as the holder leaves every slot with a best one. */
    lemma WinnersAreMinimal(q: QueueEntry, was: seq<Slot<QueueEntry>>)
      requires Shape() && Loaded(q) && q in scored && FoughtUpTo(q, was, topRated[..], topRated.Length)
      requires forall e, i :: e in scored - {q} && 0 <= i < |was| && traces[e][i] ==>
                 was[i].Held? && was[i].owner.Fav() <= e.Fav()
      ensures Minimal({})
    {
      forall e, i | e in scored && 0 <= i < topRated.Length && traces[e][i]
        ensures BeatenAt(i, e)
      {
        assert topRated[i] == topRated[..][i];
        if e != q {
          assert e in scored - {q};
        }
      }
    }

    // ----- counters -----

    ghost function Unfuzzed(): set<QueueEntry>
      reads `queue, queue`wasFuzzed
    {
      UnfuzzedIn(queue)
    }

    ghost function Favored(): set<QueueEntry>
      reads `queue, queue`favored
    {
      FavoredIn(queue)
    }

    ghost function PendingFavored(): set<QueueEntry>
      reads `queue, queue`favored, queue`wasFuzzed
    {
      PendingFavoredIn(queue)
    }

    /** Each counter is the number of entries it is named after. */
    ghost predicate Counters()
      reads `queue, `pendingNotFuzzed, `queuedFavored, `pendingFavored, Entries()`favored, Entries()`wasFuzzed
    {
      pendingNotFuzzed == |Unfuzzed()| && queuedFavored == |Favored()| && pendingFavored == |PendingFavored()|
    }

    ghost predicate Valid()
      reads this, topRated, Entries()
    {
      Table() && Counters()
    }

    constructor (mapSize: nat)
      requires mapSize % 8 == 0
      ensures Valid() && queue == [] && topRated.Length == mapSize && fresh(topRated) && fresh(traceBits)
    {
      queue, traces, scored := [], map[], {};
      topRated := new Slot<QueueEntry>[mapSize](_ => Free);
      traceBits := new bv8[mapSize](_ => 0);
      scoreChanged, queuedFavored, pendingFavored, pendingNotFuzzed := false, 0, 0, 0;
    }

    /** `add_to_queue` */
    method AddToQueue(len: nat, ghost hits: seq<bool>) returns (q: QueueEntry)
      requires Valid() && |hits| == topRated.Length
      modifies this
      ensures Valid() && fresh(q) && queue == old(queue) + [q] && traces == old(traces)[q := hits]
      ensures scored == old(scored) && scoreChanged == old(scoreChanged)
      ensures pendingNotFuzzed == old(pendingNotFuzzed) + 1
    {
      q := new QueueEntry(len);
      assert q.Refs(0, hits);
      hide IsCompact, FavFactor, CoveredBy, Count, QueueEntry.Refs, UnfuzzedIn, FavoredIn, PendingFavoredIn, HoldersCover;
      Append(q, hits);
      pendingNotFuzzed := pendingNotFuzzed + 1;
      CountersAfterAppend(q);
      TableAfterAppend(q, hits);
    }

    twostate lemma TableAfterAppend(new q: QueueEntry, hits: seq<bool>)
      requires old(Table()) && Shape() && q !in old(queue) && traces == old(traces)[q := hits] && q.Refs(0, hits)
      requires scored == old(scored) && topRated[..] == old(topRated[..])
      requires forall e: QueueEntry :: e in old(traces) ==>
                 && e.tcRef == old(e.tcRef) && e.traceMini == old(e.traceMini)
                 && e.execUs == old(e.execUs) && e.len == old(e.len)
      ensures Table()
    {
      hide IsCompact, FavFactor, CoveredBy, Count;
      CountPositive(topRated[..], Held(q));
      forall e | e in traces
        ensures e.Refs(Count(topRated[..], Held(e)), traces[e])
      {
        assert e == q || e in old(traces);
      }
      forall e, i | e in scored && 0 <= i < topRated.Length && traces[e][i]
        ensures BeatenAt(i, e)
      {
        assert topRated[i] == topRated[..][i] == old(topRated[..])[i] == old(topRated[i]);
        assert e in old(traces) && old(BeatenAt(i, e));
      }
    }

    /** A new entry in the table's ghost records. */
    method Append(q: QueueEntry, ghost hits: seq<bool>)
      requires Shape() && q !in Entries() && |hits| == topRated.Length
      modifies `queue, `traces
      ensures queue == old(queue) + [q] && traces == old(traces)[q := hits] && Entries() == old(Entries()) + {q}
      ensures Shape()
    {
      hide HoldersCover;
      ghost var was := Entries();
      HoldersCoverMore(topRated[..], traces, q, hits);
      queue := queue + [q];
      traces := traces[q := hits];
      assert Entries() == was + {q};
    }

    twostate lemma CountersAfterAppend(new q: QueueEntry)
      requires old(Counters()) && queue == old(queue) + [q] && q !in old(queue) && !q.favored && !q.wasFuzzed
      requires forall e :: e in old(queue) ==> e.favored == old(e.favored) && e.wasFuzzed == old(e.wasFuzzed)
      requires pendingNotFuzzed == old(pendingNotFuzzed) + 1
      requires queuedFavored == old(queuedFavored) && pendingFavored == old(pendingFavored)
      ensures Counters()
    {
      var queue0 := old(queue);
      AppendedSets(queue0, q);
      assert UnfuzzedIn(queue0) == old(UnfuzzedIn(queue0));
      assert FavoredIn(queue0) == old(FavoredIn(queue0));
      assert PendingFavoredIn(queue0) == old(PendingFavoredIn(queue0));
    }

    /** The end of a successful `calibrate_case`, which happens to an entry once. */
    method Calibrated(q: QueueEntry, execUs: nat)
      requires Valid() && Loaded(q) && q !in scored
      modifies topRated, Entries()`tcRef, Entries()`traceMini, `scoreChanged, `scored, q`execUs, q`calFailed
      ensures Valid() && scored == old(scored) + {q} && q.calFailed == 0 && q.execUs == execUs
      ensures FoughtUpTo(q, old(topRated[..]), topRated[..], topRated.Length)
    {
      hide IsCompact, Count, CoveredBy, QueueEntry.Refs, FavFactor, FoughtUpTo, UnfuzzedIn, FavoredIn, PendingFavoredIn;
      q.execUs := execUs;
      q.calFailed := 0;
      assert Minimal({q}) by {
        forall e, i | e in scored - {q} && 0 <= i < topRated.Length && traces[e][i]
          ensures BeatenAt(i, e)
        {
          assert e != q && old(BeatenAt(i, e));
        }
      }
      UpdateBitmapScore(q);
    }

    /** The start of `calibrate_case`, which is only called for a new entry or while chances are left:
        the calibration counts as failed until it ends. */
    method BeginCalibration(q: QueueEntry)
      requires Valid() && q in traces && q.calFailed < CAL_CHANCES
      modifies q`calFailed
      ensures Valid() && q.calFailed == old(q.calFailed) + 1 <= CAL_CHANCES
    {
      q.calFailed := (q.calFailed + 1) % 0x100;
    }

    /** `perform_dry_run` skips an entry that times out or crashes. */
    method GiveUp(q: QueueEntry)
      requires Valid() && q in traces
      modifies q`calFailed
      ensures Valid() && q.calFailed == CAL_CHANCES
    {
      q.calFailed := CAL_CHANCES;
    }

    /** The end of a successful `trim_case` that shortened the entry. */
    method Trimmed(q: QueueEntry, newLen: nat)
      requires Valid() && Loaded(q) && q in scored && newLen <= q.len
      requires q.execUs * q.len < 0x1_0000_0000_0000_0000
      modifies topRated, Entries()`tcRef, Entries()`traceMini, `scoreChanged, `scored, q`len
      ensures Valid() && scored == old(scored) && q.len == newLen
      ensures FoughtUpTo(q, old(topRated[..]), topRated[..], topRated.Length)
    {
      hide IsCompact, Count, CoveredBy, QueueEntry.Refs, FavFactor, FoughtUpTo, UnfuzzedIn, FavoredIn, PendingFavoredIn;
      ShorterIsBetter(q.execUs, q.len, newLen);
      q.len := newLen;
      assert Minimal({q}) by {
        forall e, i | e in scored - {q} && 0 <= i < topRated.Length && traces[e][i]
          ensures BeatenAt(i, e)
        {
          assert e != q && old(BeatenAt(i, e));
        }
      }
      UpdateBitmapScore(q);
    }

    /** The end of `fuzz_one`. */
    method FinishEntry(q: QueueEntry)
      requires Valid() && q in traces
      modifies q`wasFuzzed, `pendingNotFuzzed, `pendingFavored
      ensures Valid()
      ensures q.wasFuzzed <==> old(q.wasFuzzed) || q.calFailed == 0
    {
      hide IsCompact, Count, CoveredBy, QueueEntry.Refs, FavFactor, UnfuzzedIn, FavoredIn, PendingFavoredIn;
      if q.calFailed == 0 && !q.wasFuzzed {
        EntryCounts(q);
        q.wasFuzzed := true;
        pendingNotFuzzed := pendingNotFuzzed - 1;
        if q.favored {
          pendingFavored := pendingFavored - 1;
        }
        CountersAfterFuzzing(q);
      }
    }

    lemma EntryCounts(q: QueueEntry)
      requires Counters() && q in queue && !q.wasFuzzed
      ensures pendingNotFuzzed > 0 && (q.favored ==> pendingFavored > 0)
    {
      assert q in UnfuzzedIn(queue);
      if q.favored {
        assert q in PendingFavoredIn(queue);
      }
    }

    twostate lemma CountersAfterFuzzing(q: QueueEntry)
      requires old(Counters()) && queue == old(queue) && q in queue && !old(q.wasFuzzed) && q.wasFuzzed
      requires forall e :: e in queue ==> e.favored == old(e.favored) && (e != q ==> e.wasFuzzed == old(e.wasFuzzed))
      requires pendingNotFuzzed == old(pendingNotFuzzed) - 1 && queuedFavored == old(queuedFavored)
      requires pendingFavored == old(pendingFavored) - if q.favored then 1 else 0
      ensures Counters()
    {
      assert UnfuzzedIn(queue) == old(UnfuzzedIn(queue)) - {q};
      assert FavoredIn(queue) == old(FavoredIn(queue));
      assert PendingFavoredIn(queue) == old(PendingFavoredIn(queue)) - {q};
    }

    // ----- cull_queue -----

    /** The favored entries are the ones picked so far, and the two counters follow them. */
    ghost predicate FavoredAre(picks: seq<QueueEntry>)
      reads `queue, `queuedFavored, `pendingFavored, queue`favored, queue`wasFuzzed
    {
      && (forall e :: e in queue ==> (e.favored <==> e in picks))
      && queuedFavored == |PickedIn(queue, picks)| && pendingFavored == |PendingPickedIn(queue, picks)|
    }

    lemma CountersOfPicks(picks: seq<QueueEntry>)
      requires FavoredAre(picks)
      ensures queuedFavored == |FavoredIn(queue)| && pendingFavored == |PendingFavoredIn(queue)|
    {
      assert PickedIn(queue, picks) == FavoredIn(queue);
      assert PendingPickedIn(queue, picks) == PendingFavoredIn(queue);
    }

    method ClearFavored()
      modifies queue`favored, `queuedFavored, `pendingFavored
      ensures FavoredAre([])
    {
      queuedFavored := 0;
      pendingFavored := 0;
      var k := 0;
      while k < |queue|
        invariant 0 <= k <= |queue|
        invariant forall j :: 0 <= j < k ==> !queue[j].favored
        invariant queuedFavored == pendingFavored == 0
      {
        queue[k].favored := false;
        k := k + 1;
      }
      assert PickedIn(queue, []) == {} && PendingPickedIn(queue, []) == {};
    }

    /** Mark an entry that was not picked before. */
    method Favor(q: QueueEntry, ghost picks: seq<QueueEntry>)
      requires FavoredAre(picks) && q in queue && q !in picks
      modifies q`favored, `queuedFavored, `pendingFavored
      ensures FavoredAre(picks + [q])
    {
      hide PickedIn, PendingPickedIn;
      PickedGrow(queue, picks, q);
      queuedFavored := queuedFavored + 1;
      if !q.wasFuzzed {
        pendingFavored := pendingFavored + 1;
      }
      q.favored := true;
    }

    /** One byte of the loop in `cull_queue`. */
    method GrabWinner(tempV: array<bv8>, i: nat, ghost picks: seq<QueueEntry>) returns (ghost more: seq<QueueEntry>)
      requires Shape() && RefsOk() && i < topRated.Length && 8 * tempV.Length == topRated.Length && tempV != traceBits
      requires picks == Picks(topRated[..], traces, i) && Uncovered(tempV[..], picks, traces) && FavoredAre(picks)
      modifies tempV, Entries()`favored, `queuedFavored, `pendingFavored
      ensures Shape() && RefsOk()
      ensures more == Picks(topRated[..], traces, i + 1) && Uncovered(tempV[..], more, traces) && FavoredAre(more)
    {
      hide IsCompact, Count, FavFactor, CoveredBy, FavoredAre;
      more := picks;
      var slot := topRated[i];
      assert topRated[..][i] == slot;
      if slot.Held? && Bit(tempV[..], i) {
        var q := slot.owner;
        CountPositive(topRated[..], slot);
        NotPickedYet(q, picks, i);
        CompactSize(q.traceMini.value, traces[q]);
        ghost var was := tempV[..];
        ClearBits(tempV, q.traceMini.value);
        UncoveredStep(was, tempV[..], q.traceMini.value, picks, q, traces);
        Favor(q, picks);
        more := picks + [q];
      }
    }

    lemma NotPickedYet(q: QueueEntry, picks: seq<QueueEntry>, i: nat)
      requires q in traces && i < |traces[q]| && traces[q][i] && !CoveredBy(picks, traces, i)
      ensures q !in picks
    {
    }

    /** `cull_queue`; what `mark_as_redundant` does on disk is not part of this model. */
    method CullQueue(dumbMode: bool)
      requires Valid()
      modifies Entries()`favored, `scoreChanged, `queuedFavored, `pendingFavored
      ensures Valid()
      ensures dumbMode || !old(scoreChanged) ==>
                scoreChanged == old(scoreChanged) && forall e :: e in queue ==> e.favored == old(e.favored)
      ensures !dumbMode && old(scoreChanged) ==>
                && !scoreChanged
                && forall e :: e in queue ==> (e.favored <==> e in Picks(topRated[..], traces, topRated.Length))
    {
      hide IsCompact, Count, FavFactor, CoveredBy, UnfuzzedIn, FavoredIn, PendingFavoredIn;
      if dumbMode || !scoreChanged {
        return;
      }
      scoreChanged := false;
      PickFavored();
      CountersOfPicks(Picks(topRated[..], traces, topRated.Length));
    }

    /** The working part of `cull_queue`. */
    method PickFavored()
      requires Shape() && RefsOk()
      modifies Entries()`favored, `queuedFavored, `pendingFavored
      ensures FavoredAre(Picks(topRated[..], traces, topRated.Length))
    {
      hide IsCompact, Count, FavFactor, CoveredBy, FavoredAre, Uncovered;
      var tempV := new bv8[topRated.Length / 8](_ => 255);
      ClearFavored();
      AllUncovered(tempV[..], traces);
      ghost var picks: seq<QueueEntry> := [];
      var i := 0;
      while i < topRated.Length
        invariant 0 <= i <= topRated.Length && Shape() && RefsOk() && fresh(tempV)
        invariant picks == Picks(topRated[..], traces, i) && Uncovered(tempV[..], picks, traces) && FavoredAre(picks)
      {
        picks := GrabWinner(tempV, i, picks);
        i := i + 1;
      }
    }

    /** What the favored set is for, right after a cull that acted: every byte with a winner is
        covered by a favored entry, and every favored entry was needed when it was picked. */
    lemma FavoredCover(i: nat)
      requires Shape() && i < topRated.Length && topRated[i].Held?
      requires forall e :: e in queue ==> (e.favored <==> e in Picks(topRated[..], traces, topRated.Length))
      ensures exists e :: e in queue && e.favored && traces[e][i]
    {
      var picks := Picks(topRated[..], traces, topRated.Length);
      assert topRated[..][i] == topRated[i];
      PicksCover(topRated[..], traces, topRated.Length, i);
      var k :| 0 <= k < |picks| && picks[k] in traces && i < |traces[picks[k]]| && traces[picks[k]][i];
      assert picks[k] in Entries();
    }
  }

  lemma ShorterIsBetter(execUs: nat, len: nat, newLen: nat)
    requires newLen <= len && execUs * len < 0x1_0000_0000_0000_0000
    ensures FavFactor(execUs, newLen) <= FavFactor(execUs, len)
  {
    assert execUs * newLen <= execUs * len;
  }
}
