/** Bytes and the small arithmetic helpers the C sources share. */
module Bytes {
  newtype byte = x: int | 0 <= x < 256

  function Min(a: int, b: int): int { if a > b then b else a }

  function Max(a: int, b: int): int { if a > b then a else b }

  ghost predicate IsPow2(n: nat)
    decreases n
  {
    n == 1 || (n > 1 && n % 2 == 0 && IsPow2(n / 2))
  }

  /** The value reached by doubling `ret` until it is at least `val`. */
  function Doubled(ret: nat, val: nat): (r: nat)
    requires ret > 0
    ensures r >= val && r >= ret
    ensures IsPow2(ret) ==> IsPow2(r)
    ensures r == ret || r < 2 * val
    decreases val - ret
  {
    if val > ret then Doubled(2 * ret, val) else ret
  }

  /** First power of two greater than or equal to val. */
  function NextP2(val: nat): (r: nat)
    ensures r >= val && IsPow2(r)
    ensures r == 1 || r < 2 * val
  {
    Doubled(1, val)
  }

  /** `next_p2` of the fuzzer and of the minimiser. */
  method ComputeNextP2(val: nat) returns (ret: nat)
    ensures ret == NextP2(val)
  {
    ret := 1;
    while val > ret
      invariant ret > 0 && Doubled(ret, val) == NextP2(val)
      decreases val - ret
    {
      ret := 2 * ret;
    }
  }

  lemma {:induction false} Pow2Halves(p: nat, l: nat)
    requires IsPow2(p) && IsPow2(l) && p < l
    ensures p <= l / 2
    decreases l
  {
    if p > 1 {
      Pow2Halves(p / 2, l / 2);
    }
  }

  lemma MulGrows(a: nat, b: nat, c: nat)
    requires a <= b
    ensures a * c <= b * c
  {
  }

  /** d without the len bytes at pos, or without its tail if it is shorter than that. */
  function Without(d: seq<byte>, pos: nat, len: nat): seq<byte>
    requires pos <= |d|
  {
    d[..pos] + if pos + len <= |d| then d[pos + len..] else []
  }

  /** What is left behind the first byte. */
  lemma WithoutFirst(d: seq<byte>, pos: nat, len: nat)
    requires pos <= |d|
    ensures pos == 0 ==> Without(d, pos, len) == d[Min(len, |d|)..]
    ensures pos > 0 ==> Without(d, pos, len) == [d[0]] + Without(d[1..], pos - 1, len)
  {
  }

  /** Elements of d other than b. */
  function CountOther(d: seq<byte>, b: byte): nat {
    if d == [] then 0 else CountOther(d[..|d| - 1], b) + if d[|d| - 1] == b then 0 else 1
  }

  function Repeat(b: byte, n: nat): (r: seq<byte>)
    ensures |r| == n && forall i :: 0 <= i < n ==> r[i] == b
  {
    if n == 0 then [] else Repeat(b, n - 1) + [b]
  }

  /** memcpy, and memmove when dst and src are the same array. */
  method MemCopy(dst: array<byte>, to: nat, src: array<byte>, from: nat, len: nat)
    requires to + len <= dst.Length && from + len <= src.Length
    modifies dst
    ensures dst[..] == old(dst[..to]) + old(src[from..from + len]) + old(dst[to + len..])
  {
    forall k | 0 <= k < len {
      dst[to + k] := src[from + k];
    }
  }

  method MemSet(dst: array<byte>, to: nat, b: byte, len: nat)
    requires to + len <= dst.Length
    modifies dst
    ensures dst[..] == old(dst[..to]) + Repeat(b, len) + old(dst[to + len..])
  {
    forall k | 0 <= k < len {
      dst[to + k] := b;
    }
  }
}
