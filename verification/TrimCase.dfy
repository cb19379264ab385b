/**
 `trim_case` of the fuzzer: dropping chunks of a test case that do not change the
 checksum of its execution trace.

 The target is an arbitrary deterministic function from files to a fault and a trace, and
 `hash32` an arbitrary function on traces: equal checksums are all that is claimed.
 */
module TrimCase {
  import opened Wrappers
  import opened Bytes

  const TRIM_START_STEPS := 16
  const TRIM_END_STEPS := 1024
  const TRIM_MIN_BYTES := 4

  datatype Fault = NoFault | Timeout | Crash | Error

  datatype Run = Run(fault: Fault, trace: seq<byte>)

  /** The target, `hash32` and the `exec_cksum` of the entry being trimmed. */
  datatype Target = Target(run: seq<byte> -> Run, hash: seq<byte> -> int, cksum: int) {
    predicate SamePath(x: seq<byte>) {
      hash(run(x).trace) == cksum
    }
  }

  // ----- what trimming computes -----

  /** What has become of the test case: its bytes, the last fault seen, whether the trimmer gave
      up, and the trace of the first chunk removal that was kept. */
  datatype Progress = Progress(data: seq<byte>, fault: Fault, aborted: bool, clean: Option<seq<byte>>)

  /** One chunk: `pos` is where the next one starts. */
  function ChunkStep(t: Target, p: Progress, len: nat, pos: nat): (Progress, nat)
    requires pos < |p.data|
  {
    var cand := Without(p.data, pos, len);
    var run := t.run(cand);
    if run.fault == Error then (p.(fault := Error, aborted := true), pos)
    else if t.hash(run.trace) == t.cksum then
      (Progress(cand, run.fault, false, if p.clean.None? then Some(run.trace) else p.clean), pos)
    else (p.(fault := run.fault), pos + len)
  }

  function ChunkPass(t: Target, p: Progress, len: nat, pos: nat): Progress
    requires len > 0
    decreases |p.data| - pos
  {
    if p.aborted || pos >= |p.data| then p
    else
      var (q, next) := ChunkStep(t, p, len, pos);
      if q.aborted then q else ChunkPass(t, q, len, next)
  }

  /** The chunk length below which the outer loop stops; it moves as the file shrinks. */
  function EndLen(n: nat): (r: nat)
    ensures r >= TRIM_MIN_BYTES
  {
    Max(NextP2(n) / TRIM_END_STEPS, TRIM_MIN_BYTES)
  }

  function SizePass(t: Target, p: Progress, len: nat): Progress
    decreases len
  {
    if p.aborted || len < EndLen(|p.data|) then p
    else SizePass(t, ChunkPass(t, p, len, len), len / 2)
  }

  function StartLen(n: nat): (r: nat)
    ensures r >= TRIM_MIN_BYTES
  {
    Max(NextP2(n) / TRIM_START_STEPS, TRIM_MIN_BYTES)
  }

  function Untrimmed(d: seq<byte>): Progress {
    Progress(d, NoFault, false, None)
  }

  function Trimmed(t: Target, d: seq<byte>): Progress {
    if |d| < 5 then Untrimmed(d) else SizePass(t, Untrimmed(d), StartLen(|d|))
  }

  // ----- what the trimmer promises -----

  /** b is a with some bytes deleted. */
  ghost predicate Subsequence(b: seq<byte>, a: seq<byte>)
    decreases |a|
  {
    || b == []
    || (a != [] && b[0] == a[0] && Subsequence(b[1..], a[1..]))
    || (a != [] && Subsequence(b, a[1..]))
  }

  lemma {:induction false} SubsequenceOfSelf(a: seq<byte>)
    ensures Subsequence(a, a)
    decreases |a|
  {
    if a != [] {
      SubsequenceOfSelf(a[1..]);
    }
  }

  lemma {:induction false} SubsequenceTransitive(c: seq<byte>, b: seq<byte>, a: seq<byte>)
    requires Subsequence(c, b) && Subsequence(b, a)
    ensures Subsequence(c, a)
    decreases |a| + |b|
  {
    if c != [] {
      if Subsequence(b, a[1..]) {
        SubsequenceTransitive(c, b, a[1..]);
      } else if Subsequence(c, b[1..]) {
        SubsequenceTransitive(c, b[1..], a[1..]);
      } else {
        SubsequenceTransitive(c[1..], b[1..], a[1..]);
      }
    }
  }

  lemma {:induction false} TailIsSubsequence(a: seq<byte>, n: nat)
    requires n <= |a|
    ensures Subsequence(a[n..], a)
    decreases |a|
  {
    if n == 0 {
      SubsequenceOfSelf(a);
      assert a[0..] == a;
    } else {
      TailIsSubsequence(a[1..], n - 1);
      assert a[1..][n - 1..] == a[n..];
    }
  }

  lemma {:induction false} WithoutIsSubsequence(d: seq<byte>, pos: nat, len: nat)
    requires pos < |d|
    ensures Subsequence(Without(d, pos, len), d)
    decreases pos
  {
    if pos == 0 {
      TailIsSubsequence(d, Min(len, |d|));
      WithoutFirst(d, pos, len);
    } else {
      WithoutIsSubsequence(d[1..], pos - 1, len);
      WithoutFirst(d, pos, len);
    }
  }

  /** How the trimmer's state may move: bytes only go, the head stays, whatever is kept runs
      along the original path, and the saved trace is that of a kept removal. */
  ghost predicate Keeps(t: Target, p: Progress, q: Progress) {
    && Subsequence(q.data, p.data)
    && (|p.data| >= TRIM_MIN_BYTES ==>
          |q.data| >= TRIM_MIN_BYTES && q.data[..TRIM_MIN_BYTES] == p.data[..TRIM_MIN_BYTES])
    && (q.data == p.data || (|q.data| < |p.data| && t.SamePath(q.data)))
    && (q.clean == p.clean || (p.clean.None? && q.clean.Some? && t.hash(q.clean.value) == t.cksum))
    && (p.clean.None? && q.clean.None? ==> q.data == p.data)
    && (p.clean.None? && q.clean.Some? ==> q.data != p.data)
  }

  lemma KeepsTransitive(t: Target, p: Progress, q: Progress, r: Progress)
    requires Keeps(t, p, q) && Keeps(t, q, r)
    ensures Keeps(t, p, r)
  {
    SubsequenceTransitive(r.data, q.data, p.data);
  }

  lemma ChunkStepKeeps(t: Target, p: Progress, len: nat, pos: nat)
    requires TRIM_MIN_BYTES <= pos < |p.data| && len > 0
    ensures Keeps(t, p, ChunkStep(t, p, len, pos).0)
  {
    var cand := Without(p.data, pos, len);
    WithoutIsSubsequence(p.data, pos, len);
    SubsequenceOfSelf(p.data);
    assert cand[..TRIM_MIN_BYTES] == p.data[..TRIM_MIN_BYTES];
  }

  lemma {:induction false} ChunkPassKeeps(t: Target, p: Progress, len: nat, pos: nat)
    requires TRIM_MIN_BYTES <= pos && len > 0
    ensures Keeps(t, p, ChunkPass(t, p, len, pos))
    decreases |p.data| - pos
  {
    SubsequenceOfSelf(p.data);
    if !p.aborted && pos < |p.data| {
      var (q, next) := ChunkStep(t, p, len, pos);
      ChunkStepKeeps(t, p, len, pos);
      if !q.aborted {
        ChunkPassKeeps(t, q, len, next);
        KeepsTransitive(t, p, q, ChunkPass(t, q, len, next));
      }
    }
  }

  lemma {:induction false} SizePassKeeps(t: Target, p: Progress, len: nat)
    ensures Keeps(t, p, SizePass(t, p, len))
    decreases len
  {
    SubsequenceOfSelf(p.data);
    if !p.aborted && len >= EndLen(|p.data|) {
      var q := ChunkPass(t, p, len, len);
      ChunkPassKeeps(t, p, len, len);
      SizePassKeeps(t, q, len / 2);
      KeepsTransitive(t, p, q, SizePass(t, q, len / 2));
    }
  }

  /** One pass in plain terms: each chunk of the input is tried once, in order, and goes if the rest runs
      along the original path; an error of the target leaves the remainder as it is. */
  function Sifted(t: Target, kept: seq<byte>, rest: seq<byte>, len: nat): seq<byte>
    requires len > 0
    decreases |rest|
  {
    if rest == [] then kept
    else
      var n := Min(len, |rest|);
      var cand := kept + rest[n..];
      if t.run(cand).fault == Error then kept + rest
      else Sifted(t, if t.SamePath(cand) then kept else kept + rest[..n], rest[n..], len)
  }

  lemma {:induction false} ChunkPassSifts(t: Target, p: Progress, len: nat, pos: nat)
    requires len > 0 && pos <= |p.data| && !p.aborted
    ensures ChunkPass(t, p, len, pos).data == Sifted(t, p.data[..pos], p.data[pos..], len)
    decreases |p.data| - pos
  {
    if pos < |p.data| {
      var rest := p.data[pos..];
      var n := Min(len, |rest|);
      var cand := Without(p.data, pos, len);
      assert cand == p.data[..pos] + rest[n..];
      assert p.data[..pos] + rest == p.data;
      var (q, next) := ChunkStep(t, p, len, pos);
      if q.aborted {
      } else if t.SamePath(cand) {
        assert cand[..pos] == p.data[..pos] && cand[pos..] == rest[n..];
        ChunkPassSifts(t, q, len, pos);
      } else {
        assert p.data[..pos] + rest[..n] == p.data[..pos + n] && rest[n..] == p.data[pos + n..];
        if pos + len <= |p.data| {
          ChunkPassSifts(t, q, len, pos + len);
        }
      }
    }
  }

  /** The trimmed file is the original with bytes deleted, never one of its first four; if it is
      not the original itself then it is shorter, its own execution has the original checksum,
      and so has the trace handed to `update_bitmap_score`. */
  lemma TrimmedKeepsPathAndHead(t: Target, d: seq<byte>)
    ensures var r := Trimmed(t, d);
      && Subsequence(r.data, d)
      && (|d| >= 4 ==> |r.data| >= 4 && r.data[..4] == d[..4])
      && (r.data != d ==> |r.data| < |d| && t.SamePath(r.data))
      && (r.data != d <==> r.clean.Some?)
      && (r.clean.Some? ==> t.hash(r.clean.value) == t.cksum)
  {
    SubsequenceOfSelf(d);
    SizePassKeeps(t, Untrimmed(d), StartLen(|d|));
  }

  /** Where the k-th chunk from pos starts. */
  function ChunkAt(pos: nat, len: nat, k: nat): nat {
    pos + k * len
  }

  lemma {:induction false} ChunkPassShrinks(t: Target, p: Progress, len: nat, pos: nat)
    requires len > 0
    ensures |ChunkPass(t, p, len, pos).data| <= |p.data|
    decreases |p.data| - pos
  {
    if !p.aborted && pos < |p.data| {
      var (q, next) := ChunkStep(t, p, len, pos);
      if !q.aborted {
        ChunkPassShrinks(t, q, len, next);
      }
    }
  }

  lemma NextChunk(pos: nat, len: nat, k: nat)
    ensures ChunkAt(pos, len, k + 1) == ChunkAt(pos + len, len, k)
  {
    assert (k + 1) * len == k * len + len;
  }

  ghost predicate ChunksMatter(t: Target, d: seq<byte>, pos: nat, len: nat) {
    forall k: nat :: ChunkAt(pos, len, k) < |d| ==> !t.SamePath(Without(d, ChunkAt(pos, len, k), len))
  }

  lemma ChunksMatterSplit(t: Target, d: seq<byte>, pos: nat, len: nat)
    requires pos < |d|
    ensures ChunksMatter(t, d, pos, len) <==> !t.SamePath(Without(d, pos, len)) && ChunksMatter(t, d, pos + len, len)
  {
    assert ChunkAt(pos, len, 0) == pos;
    var next := pos + len;
    if ChunksMatter(t, d, pos, len) {
      forall k: nat | ChunkAt(next, len, k) < |d|
        ensures !t.SamePath(Without(d, ChunkAt(next, len, k), len))
      {
        NextChunk(pos, len, k);
      }
    }
    forall k: nat | k > 0
      ensures ChunkAt(pos, len, k) == ChunkAt(next, len, k - 1)
    {
      NextChunk(pos, len, k - 1);
    }
  }

  /** A pass leaves the file alone exactly when every chunk it looks at, taken out of the
      original file by itself, changes the checksum. */
  lemma {:induction false} PassLeavesAloneIff(t: Target, p: Progress, len: nat, pos: nat)
    requires !p.aborted && len > 0
    requires forall x :: t.run(x).fault != Error
    ensures !ChunkPass(t, p, len, pos).aborted
    ensures ChunkPass(t, p, len, pos).data == p.data <==> ChunksMatter(t, p.data, pos, len)
    decreases |p.data| - pos
  {
    if pos < |p.data| {
      var (q, next) := ChunkStep(t, p, len, pos);
      ChunksMatterSplit(t, p.data, pos, len);
      PassLeavesAloneIff(t, q, len, next);
      ChunkPassShrinks(t, q, len, next);
    }
  }

  /** The chunk lengths tried on a file that stays as it is. */
  ghost predicate AllChunksMatter(t: Target, d: seq<byte>, len: nat)
    decreases len
  {
    len < EndLen(|d|) || (ChunksMatter(t, d, len, len) && AllChunksMatter(t, d, len / 2))
  }

  lemma {:induction false} SizesLeaveAloneIff(t: Target, p: Progress, len: nat)
    requires !p.aborted
    requires forall x :: t.run(x).fault != Error
    ensures SizePass(t, p, len).data == p.data <==> AllChunksMatter(t, p.data, len)
    decreases len
  {
    if len >= EndLen(|p.data|) {
      var q := ChunkPass(t, p, len, len);
      PassLeavesAloneIff(t, p, len, len);
      ChunkPassShrinks(t, p, len, len);
      SizesLeaveAloneIff(t, q, len / 2);
      SizePassKeeps(t, q, len / 2);
    }
  }

  /** For a target that can be executed, trimming leaves a file of at least five bytes alone
      exactly when every chunk after the first, of every length tried, matters to the path. */
  lemma TrimmedLeavesAloneIff(t: Target, d: seq<byte>)
    requires |d| >= 5
    requires forall x :: t.run(x).fault != Error
    ensures Trimmed(t, d).data == d <==> AllChunksMatter(t, d, StartLen(|d|))
  {
    SizesLeaveAloneIff(t, Untrimmed(d), StartLen(|d|));
  }

  // ----- the program -----

  class Trimmer {
    const target: Target
    var inBuf: array<byte>        // the mapped test case
    var len: nat                  // q->len
    var testcase: seq<byte>       // what the target reads
    var queueFile: seq<byte>      // the entry's file in the queue directory
    var traceBits: seq<byte>
    var scored: nat               // calls of update_bitmap_score

    ghost predicate Valid()
      reads this
    {
      len <= inBuf.Length
    }

    ghost function Data(): seq<byte>
      requires Valid()
      reads this, inBuf
    {
      inBuf[..len]
    }

    constructor (target: Target, file: array<byte>)
      ensures Valid() && this.target == target && inBuf == file && Data() == queueFile == file[..] && scored == 0
    {
      this.target := target;
      inBuf := file;
      len := file.Length;
      testcase, traceBits, scored := [], [], 0;
      queueFile := file[..];
    }

    /** `write_with_gap` on a file that is rewound, overwritten and cut to length. */
    method WriteWithGap(skipAt: nat, skipLen: nat)
      requires Valid() && skipAt + skipLen <= len
      modifies `testcase
      ensures testcase == Data()[..skipAt] + Data()[skipAt + skipLen..]
    {
      var tailLen := len - skipAt - skipLen;
      var written := [];
      if skipAt != 0 {
        written := written + inBuf[..skipAt];
      }
      if tailLen != 0 {
        written := written + inBuf[skipAt + skipLen..skipAt + skipLen + tailLen];
      }
      testcase := Overwritten(testcase, written);
      testcase := testcase[..len - skipLen];
      assert inBuf[..skipAt] == Data()[..skipAt];
      assert inBuf[skipAt + skipLen..len] == Data()[skipAt + skipLen..];
    }

    /** `run_target` on the file just written. */
    method RunTarget() returns (fault: Fault)
      modifies `traceBits
      ensures fault == target.run(testcase).fault && traceBits == target.run(testcase).trace
    {
      var run := target.run(testcase);
      traceBits := run.trace;
      fault := run.fault;
    }

    /** Make a removal permanent. */
    method DropChunk(removePos: nat, trimAvail: nat)
      requires Valid() && removePos + trimAvail <= len
      modifies inBuf, `len
      ensures Valid() && len == old(len) - trimAvail
      ensures Data() == old(Data()[..removePos] + Data()[removePos + trimAvail..])
    {
      ghost var d := Data();
      var moveTail := len - removePos - trimAvail;
      len := len - trimAvail;
      MemCopy(inBuf, removePos, inBuf, removePos + trimAvail, moveTail);
      assert inBuf[..len] == d[..removePos] + d[removePos + trimAvail..];
    }

    /** One chunk: what was written with a gap is, if kept, what the buffer then holds. */
    method TrimChunk(ghost p: Progress, cleanTrace: Option<seq<byte>>, removeLen: nat, removePos: nat)
      returns (fault: Fault, clean: Option<seq<byte>>, next: nat)
      requires Valid() && p.data == Data() && p.clean == cleanTrace && !p.aborted
      requires removePos < len && removeLen > 0
      modifies inBuf, `len, `testcase, `traceBits
      ensures Valid() && len <= old(len) && (fault != Error ==> len - next < old(len) - removePos)
      ensures ChunkStep(target, p, removeLen, removePos)
           == (Progress(Data(), fault, fault == Error, clean), next)
      ensures len < old(len) ==> Data() == testcase
    {
      clean, next := cleanTrace, removePos;
      ghost var d := Data();
      var trimAvail := Min(removeLen, len - removePos);
      WriteWithGap(removePos, trimAvail);
      ghost var cand := testcase;
      assert cand == Without(d, removePos, removeLen);
      fault := RunTarget();
      if fault == Error {
        return;
      }
      var cksum := target.hash(traceBits);
      if cksum == target.cksum {
        DropChunk(removePos, trimAvail);
        if clean == None {
          clean := Some(traceBits);
        }
      } else {
        next := removePos + removeLen;
      }
    }

    /** One chunk length. */
    method TrimPass(ghost p: Progress, cleanTrace: Option<seq<byte>>, fault0: Fault, removeLen: nat)
      returns (fault: Fault, clean: Option<seq<byte>>)
      requires Valid() && p == Progress(Data(), fault0, false, cleanTrace) && removeLen > 0 && fault0 != Error
      modifies inBuf, `len, `testcase, `traceBits
      ensures Valid()
      ensures ChunkPass(target, p, removeLen, removeLen) == Progress(Data(), fault, fault == Error, clean)
    {
      hide ChunkStep;
      fault, clean := fault0, cleanTrace;
      var removePos: nat := removeLen;
      while removePos < len && fault != Error
        invariant Valid()
        invariant ChunkPass(target, p, removeLen, removeLen)
               == ChunkPass(target, Progress(Data(), fault, fault == Error, clean), removeLen, removePos)
        decreases fault != Error, len - removePos
      {
        ghost var q := Progress(Data(), fault, false, clean);
        fault, clean, removePos := TrimChunk(q, clean, removeLen, removePos);
      }
    }

    /** `trim_case`; with `stop_soon` never set.  When the target cannot be executed the entry is
        left with its file untouched, although the buffer may have shrunk already. */
    method TrimCase() returns (fault: Fault)
      requires Valid() && queueFile == Data() && scored == 0
      modifies this, inBuf
      ensures Valid() && inBuf == old(inBuf)
      ensures Data() == Trimmed(target, old(Data())).data && fault == Trimmed(target, old(Data())).fault
      ensures queueFile == if Trimmed(target, old(Data())).aborted then old(Data()) else Data()
      ensures scored == if !Trimmed(target, old(Data())).aborted && Data() != old(Data()) then 1 else 0
      ensures scored == 1 ==> Trimmed(target, old(Data())).clean == Some(traceBits)
    {
      fault := NoFault;
      if len < 5 {
        return;
      }
      ghost var d := Data();
      TrimmedKeepsPathAndHead(target, d);
      var clean: Option<seq<byte>> := None;
      var lenP2 := ComputeNextP2(len);
      var removeLen := Max(lenP2 / TRIM_START_STEPS, TRIM_MIN_BYTES);
      while removeLen >= Max(lenP2 / TRIM_END_STEPS, TRIM_MIN_BYTES) && fault != Error
        invariant Valid() && inBuf == old(inBuf) && lenP2 == NextP2(len) && removeLen >= 0
        invariant queueFile == d && scored == 0
        invariant SizePass(target, Untrimmed(d), StartLen(|d|))
               == SizePass(target, Progress(Data(), fault, fault == Error, clean), removeLen)
        decreases removeLen
      {
        fault, clean := TrimPass(Progress(Data(), fault, false, clean), clean, fault, removeLen);
        lenP2 := ComputeNextP2(len);
        removeLen := removeLen / 2;
      }
      if fault == Error {
        return;
      }
      if clean.Some? {
        queueFile := inBuf[..len];
        traceBits := clean.value;
        scored := scored + 1;
      }
    }
  }

  /** Writing at the start of a file without truncating it. */
  function Overwritten(file: seq<byte>, written: seq<byte>): seq<byte> {
    written + if |file| > |written| then file[|written|..] else []
  }
}
