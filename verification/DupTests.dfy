/**
 The tests with which the deterministic stages recognise values that an earlier stage has
 produced: `could_be_bitflip`, `could_be_arith` and `could_be_interest`.

 Machine words are naturals below 2^8, 2^16 or 2^32; wrap-around is written out.
 */
module DupTests {

  const ARITH_MAX := 35

  type U16 = x: int | 0 <= x < 0x1_0000
  type U32 = x: int | 0 <= x < 0x1_0000_0000

  // ----- exclusive or -----

  function Xor(a: nat, b: nat): nat
    decreases a + b
  {
    if a == 0 && b == 0 then 0 else 2 * Xor(a / 2, b / 2) + if a % 2 == b % 2 then 0 else 1
  }

  lemma {:induction false} XorBound(a: nat, b: nat, n: nat)
    requires a < ShiftLeft(1, n) && b < ShiftLeft(1, n)
    ensures Xor(a, b) < ShiftLeft(1, n)
    decreases n
  {
    if n > 0 {
      XorBound(a / 2, b / 2, n - 1);
    }
  }

  lemma XorHalves(a: nat, b: nat)
    ensures Xor(a, b) / 2 == Xor(a / 2, b / 2)
    ensures Xor(a, b) % 2 == if a % 2 == b % 2 then 0 else 1
  {
  }

  lemma HalvesDecide(x: nat, y: nat)
    requires x / 2 == y / 2 && x % 2 == y % 2
    ensures x == y
  {
  }

  lemma {:induction false} XorAssociates(a: nat, b: nat, c: nat)
    ensures Xor(Xor(a, b), c) == Xor(a, Xor(b, c))
    decreases a + b + c
  {
    if a + b + c > 0 {
      XorAssociates(a / 2, b / 2, c / 2);
      hide Xor;
      XorHalves(a, b);
      XorHalves(b, c);
      XorHalves(Xor(a, b), c);
      XorHalves(a, Xor(b, c));
      HalvesDecide(Xor(Xor(a, b), c), Xor(a, Xor(b, c)));
    }
  }

  lemma {:induction false} XorCommutes(a: nat, b: nat)
    ensures Xor(a, b) == Xor(b, a)
    decreases a + b
  {
    if a + b > 0 {
      XorCommutes(a / 2, b / 2);
    }
  }

  lemma {:induction false} XorSelf(a: nat)
    ensures Xor(a, a) == 0 && Xor(a, 0) == a && Xor(0, a) == a
  {
    if a > 0 {
      XorSelf(a / 2);
    }
  }

  /** The pattern that turns a into b is the difference of the two. */
  lemma XorSolves(a: nat, m: nat, b: nat)
    ensures Xor(a, m) == b <==> Xor(a, b) == m
    ensures Xor(Xor(a, m), m) == a
    ensures Xor(a, b) == 0 <==> a == b
  {
    XorSelf(a);
    XorSelf(b);
    XorSelf(m);
    XorAssociates(a, a, m);
    XorAssociates(a, a, b);
    XorAssociates(a, m, m);
  }

  // ----- could_be_bitflip -----

  function ShiftLeft(p: nat, s: nat): nat {
    if s == 0 then p else 2 * ShiftLeft(p, s - 1)
  }

  /** x is the pattern p, walked up by a multiple of step bits. */
  ghost predicate Walked(x: nat, p: nat, step: nat)
    requires step > 0
  {
    exists s: nat :: x == ShiftLeft(p, s) && s % step == 0
  }

  /** The differences the walking flips of 1, 2, 4, 8, 16 and 32 bits make in a value, and no
      difference at all. */
  ghost predicate IsBitflip(x: nat) {
    || x == 0
    || Walked(x, 1, 1) || Walked(x, 3, 1) || Walked(x, 15, 1)
    || Walked(x, 0xff, 8) || Walked(x, 0xffff, 8) || Walked(x, 0xffffffff, 8)
  }

  lemma XorFits(a: U32, b: U32)
    ensures 0 <= Xor(a, b) < 0x1_0000_0000
    ensures a < 0x1_0000 && b < 0x1_0000 ==> Xor(a, b) < 0x1_0000
  {
    assert ShiftLeft(1, 8) == 0x100;
    assert ShiftLeft(1, 16) == 0x1_0000;
    assert ShiftLeft(1, 24) == 0x100_0000;
    assert ShiftLeft(1, 32) == 0x1_0000_0000;
    XorBound(a, b, 32);
    if a < 0x1_0000 && b < 0x1_0000 {
      XorBound(a, b, 16);
    }
  }

  lemma {:induction false} ShiftedOnce(x: nat, s: nat, p: nat, t: nat)
    requires x % 2 == 1 && p % 2 == 1
    requires ShiftLeft(x, s) == ShiftLeft(p, t)
    ensures x == p && s == t
  {
    if s > 0 && t > 0 {
      ShiftedOnce(x, s - 1, p, t - 1);
    }
  }

  lemma WalkedOdd(value: nat, x: nat, s: nat, p: nat, step: nat)
    requires x % 2 == 1 && p % 2 == 1 && step > 0 && value == ShiftLeft(x, s)
    ensures Walked(value, p, step) <==> x == p && s % step == 0
  {
    forall t: nat | value == ShiftLeft(p, t)
      ensures x == p && s == t
    {
      ShiftedOnce(x, s, p, t);
    }
  }

  lemma {:induction false} ShiftHalves(x: nat, s: nat)
    requires x % 2 == 0
    ensures ShiftLeft(x, s) == ShiftLeft(x / 2, s + 1)
  {
    if s > 0 {
      ShiftHalves(x, s - 1);
    }
  }

  lemma {:induction false} ShiftKeepsZero(x: nat, s: nat)
    ensures ShiftLeft(x, s) == 0 <==> x == 0
  {
    if s > 0 {
      ShiftKeepsZero(x, s - 1);
    }
  }

  /** `could_be_bitflip` */
  method CouldBeBitflip(xorVal: U32) returns (r: bool)
    ensures r <==> IsBitflip(xorVal)
  {
    if xorVal == 0 {
      return true;
    }
    var x: nat, sh: nat := xorVal, 0;
    while x % 2 == 0
      invariant x > 0 && xorVal == ShiftLeft(x, sh)
      decreases x
    {
      ShiftHalves(x, sh);
      sh, x := sh + 1, x / 2;
    }
    WalkedOdd(xorVal, x, sh, 1, 1);
    WalkedOdd(xorVal, x, sh, 3, 1);
    WalkedOdd(xorVal, x, sh, 15, 1);
    WalkedOdd(xorVal, x, sh, 0xff, 8);
    WalkedOdd(xorVal, x, sh, 0xffff, 8);
    WalkedOdd(xorVal, x, sh, 0xffffffff, 8);
    if x == 1 || x == 3 || x == 15 {
      return true;
    }
    if sh % 8 != 0 {
      return false;
    }
    r := x == 0xff || x == 0xffff || x == 0xffffffff;
  }

  // ----- bytes and halves of a word -----

  function Weight(i: nat): (w: nat)
    ensures w > 0
  {
    if i == 0 then 1 else if i == 1 then 0x100 else if i == 2 then 0x1_0000 else 0x100_0000
  }

  function Byte(x: nat, i: nat): (b: int)
    ensures 0 <= b < 256
  {
    x / Weight(i) % 256
  }

  /** x with byte i replaced by b */
  function WithByte(x: nat, i: nat, b: int): int {
    x + (b - Byte(x, i)) * Weight(i)
  }

  /** 16 bits of x, from byte i on. */
  function Half(x: nat, i: nat): (h: int)
    ensures 0 <= h < 0x1_0000
  {
    x / Weight(i) % 0x1_0000
  }

  function WithHalf(x: nat, i: nat, h: int): int {
    x + (h - Half(x, i)) * Weight(i)
  }

  function Swap16(x: int): (r: int)
    requires 0 <= x < 0x1_0000
    ensures 0 <= r < 0x1_0000
  {
    x % 0x100 * 0x100 + x / 0x100
  }

  function OfBytes(b0: int, b1: int, b2: int, b3: int): (x: int)
    requires 0 <= b0 < 256 && 0 <= b1 < 256 && 0 <= b2 < 256 && 0 <= b3 < 256
    ensures 0 <= x < 0x1_0000_0000
  {
    b0 + b1 * 0x100 + b2 * 0x1_0000 + b3 * 0x100_0000
  }

  function Swap32(x: int): (r: int)
    requires 0 <= x < 0x1_0000_0000
    ensures 0 <= r < 0x1_0000_0000
  {
    OfBytes(Byte(x, 3), Byte(x, 2), Byte(x, 1), Byte(x, 0))
  }

  lemma OfBytesByte(b0: int, b1: int, b2: int, b3: int)
    requires 0 <= b0 < 256 && 0 <= b1 < 256 && 0 <= b2 < 256 && 0 <= b3 < 256
    ensures var x := OfBytes(b0, b1, b2, b3);
            Byte(x, 0) == b0 && Byte(x, 1) == b1 && Byte(x, 2) == b2 && Byte(x, 3) == b3
  {
    var x := OfBytes(b0, b1, b2, b3);
    assert x / 0x100 == b1 + b2 * 0x100 + b3 * 0x1_0000;
    assert x / 0x1_0000 == b2 + b3 * 0x100;
    assert x / 0x100_0000 == b3;
  }

  lemma WordIsBytes(x: U32)
    ensures x == OfBytes(Byte(x, 0), Byte(x, 1), Byte(x, 2), Byte(x, 3))
  {
    var y := x / 0x100;
    assert x / 0x1_0000 == y / 0x100;
    assert x / 0x100_0000 == y / 0x100 / 0x100;
  }

  lemma Digits(hi: int, lo: int)
    requires 0 <= lo < 0x100
    ensures (hi * 0x100 + lo) / 0x100 == hi && (hi * 0x100 + lo) % 0x100 == lo
  {
  }

  lemma Swap16Undoes(x: U16)
    ensures Swap16(Swap16(x)) == x
  {
    Digits(x % 0x100, x / 0x100);
  }

  lemma Swap32Undoes(x: U32)
    ensures Swap32(Swap32(x)) == x
  {
    hide Byte, OfBytes;
    WordIsBytes(x);
    OfBytesByte(Byte(x, 3), Byte(x, 2), Byte(x, 1), Byte(x, 0));
  }

  predicate Fits(x: nat, blen: nat) {
    x < if blen == 1 then 0x100 else if blen == 2 then 0x1_0000 else 0x1_0000_0000
  }

  // ----- could_be_arith -----

  predicate Step(j: int) {
    -ARITH_MAX <= j <= ARITH_MAX
  }

  predicate Modulus(m: int) {
    m == 0x100 || m == 0x1_0000 || m == 0x1_0000_0000
  }

  /** a + j in a word of the given range. */
  function Moved(a: int, j: int, m: int): (r: int)
    requires Modulus(m)
    ensures 0 <= r < m
  {
    (a + j) % m
  }

  /** Adding j to one byte of the value. */
  ghost predicate ByteArith(was: nat, now: nat, blen: nat) {
    exists i: nat, j: int :: i < blen && Step(j) && now == WithByte(was, i, Moved(Byte(was, i), j, 0x100))
  }

  /** Adding j to one aligned half of the value, in either byte order. */
  ghost predicate HalfArith(was: nat, now: nat, blen: nat) {
    exists i: nat, j: int :: i < blen / 2 && Step(j) &&
      (|| now == WithHalf(was, 2 * i, Moved(Half(was, 2 * i), j, 0x1_0000))
       || now == WithHalf(was, 2 * i, Swap16(Moved(Swap16(Half(was, 2 * i)), j, 0x1_0000))))
  }

  /** Adding j to all 32 bits, in either byte order. */
  ghost predicate WordArith(was: U32, now: U32) {
    exists j: int :: Step(j) &&
      (|| now == Moved(was, j, 0x1_0000_0000)
       || now == Swap32(Moved(Swap32(was), j, 0x1_0000_0000)))
  }

  ghost predicate IsArith(was: U32, now: U32, blen: nat) {
    || ByteArith(was, now, blen)
    || (blen >= 2 && HalfArith(was, now, blen))
    || (blen == 4 && WordArith(was, now))
  }

  /** b is a plus or minus at most ARITH_MAX, modulo m. */
  predicate Near(a: int, b: int, m: int)
    requires m > 0
  {
    (a - b) % m <= ARITH_MAX || (b - a) % m <= ARITH_MAX
  }

  lemma WrapOnce(x: int, m: int)
    requires Modulus(m) && -m <= x < 2 * m
    ensures x % m == if x < 0 then x + m else if x >= m then x - m else x
  {
    if m == 0x100 {
    } else if m == 0x1_0000 {
    } else {
    }
  }

  lemma NearInRange(a: int, b: int, m: int)
    requires Modulus(m) && 0 <= a < m && 0 <= b < m
    ensures Near(a, b, m) <==> (-ARITH_MAX <= a - b <= ARITH_MAX || a - b + m <= ARITH_MAX || b - a + m <= ARITH_MAX)
  {
    WrapOnce(a - b, m);
    WrapOnce(b - a, m);
  }

  lemma NearIsStep(a: int, b: int, m: int)
    requires Modulus(m) && 0 <= a < m && 0 <= b < m
    ensures Near(a, b, m) <==> exists j :: Step(j) && b == Moved(a, j, m)
  {
    NearInRange(a, b, m);
    hide Near;
    if Near(a, b, m) {
      var j := if -ARITH_MAX <= a - b <= ARITH_MAX then b - a else if a < b then b - a - m else b - a + m;
      WrapOnce(a + j, m);
      assert Step(j) && b == Moved(a, j, m);
    }
    forall j | Step(j) && b == Moved(a, j, m)
      ensures Near(a, b, m)
    {
      WrapOnce(a + j, m);
    }
  }

  /** The two words differ in part d of n, and nowhere else. */
  ghost predicate OnlyAt(part: (nat, nat) -> int, was: nat, now: nat, n: nat, d: nat) {
    d < n && forall k: nat :: k < n ==> (part(was, k) == part(now, k) <==> k != d)
  }

  ghost predicate SameParts(part: (nat, nat) -> int, was: nat, now: nat, n: nat) {
    forall k: nat :: k < n ==> part(was, k) == part(now, k)
  }

  /** The loop that counts differing parts and remembers the last one. */
  method CountDiffs(part: (nat, nat) -> int, oldVal: nat, newVal: nat, n: nat)
    returns (diffs: nat, ov: int, nv: int, ghost d: nat)
    ensures diffs == 0 <==> SameParts(part, oldVal, newVal, n)
    ensures diffs == 1 <==> exists k :: OnlyAt(part, oldVal, newVal, n, k)
    ensures diffs == 1 ==> OnlyAt(part, oldVal, newVal, n, d) && ov == part(oldVal, d) && nv == part(newVal, d)
  {
    ghost var c: nat := 0;
    diffs, ov, nv, d := 0, 0, 0, 0;
    var i: nat := 0;
    while i < n
      invariant i <= n
      invariant diffs == 0 ==> SameParts(part, oldVal, newVal, i)
      invariant diffs == 1 ==> OnlyAt(part, oldVal, newVal, i, d) && ov == part(oldVal, d) && nv == part(newVal, d)
      invariant diffs >= 1 ==> d < i && part(oldVal, d) != part(newVal, d)
      invariant diffs >= 2 ==> c < d && part(oldVal, c) != part(newVal, c)
    {
      if part(oldVal, i) != part(newVal, i) {
        c, d := d, i;
        diffs, ov, nv := diffs + 1, part(oldVal, i), part(newVal, i);
      }
      i := i + 1;
    }
    forall k: nat | OnlyAt(part, oldVal, newVal, n, k)
      ensures diffs == 1
    {
      assert part(oldVal, k) != part(newVal, k);
    }
  }

  function HalfAt(x: nat, i: nat): int {
    Half(x, 2 * i)
  }

  predicate Width(blen: nat) {
    blen == 1 || blen == 2 || blen == 4
  }

  lemma WithByteBytes(x: U32, i: nat, b: int)
    requires i < 4 && 0 <= b < 256
    ensures 0 <= WithByte(x, i, b) < 0x1_0000_0000
    ensures forall k: nat :: k < 4 ==> Byte(WithByte(x, i, b), k) == if k == i then b else Byte(x, k)
  {
    var b0, b1, b2, b3 := Byte(x, 0), Byte(x, 1), Byte(x, 2), Byte(x, 3);
    WordIsBytes(x);
    hide Byte;
    if i == 0 {
      OfBytesByte(b, b1, b2, b3);
      assert WithByte(x, i, b) == OfBytes(b, b1, b2, b3);
    } else if i == 1 {
      OfBytesByte(b0, b, b2, b3);
      assert WithByte(x, i, b) == OfBytes(b0, b, b2, b3);
    } else if i == 2 {
      OfBytesByte(b0, b1, b, b3);
      assert WithByte(x, i, b) == OfBytes(b0, b1, b, b3);
    } else {
      OfBytesByte(b0, b1, b2, b);
      assert WithByte(x, i, b) == OfBytes(b0, b1, b2, b);
    }
  }

  lemma SameBytes(x: U32, y: U32, blen: nat)
    requires Width(blen) && Fits(x, blen) && Fits(y, blen) && SameParts(Byte, x, y, blen)
    ensures x == y
  {
    assert forall k: nat :: k < blen ==> Byte(x, k) == Byte(y, k);
    WordIsBytes(x);
    WordIsBytes(y);
    forall k: nat | blen <= k < 4
      ensures Byte(x, k) == 0 && Byte(y, k) == 0
    {
    }
    hide Byte;
    assert Byte(x, 0) == Byte(y, 0) && Byte(x, 1) == Byte(y, 1) && Byte(x, 2) == Byte(y, 2) && Byte(x, 3) == Byte(y, 3);
  }

  lemma ByteArithDiffers(was: U32, now: U32, blen: nat)
    requires Width(blen) && Fits(was, blen) && Fits(now, blen) && was != now && ByteArith(was, now, blen)
    ensures exists d :: OnlyAt(Byte, was, now, blen, d) && Near(Byte(was, d), Byte(now, d), 0x100)
  {
    hide Byte, Near, Moved, WithByte;
    var i: nat, j: int :| i < blen && Step(j) && now == WithByte(was, i, Moved(Byte(was, i), j, 0x100));
    WithByteBytes(was, i, Moved(Byte(was, i), j, 0x100));
    NearIsStep(Byte(was, i), Byte(now, i), 0x100);
    if Byte(was, i) == Byte(now, i) {
      SameBytes(was, now, 4);
    }
    assert OnlyAt(Byte, was, now, blen, i);
  }

  lemma HighBytes(x: U32, blen: nat, k: nat)
    requires Width(blen) && Fits(x, blen) && blen <= k < 4
    ensures Byte(x, k) == 0
  {
  }

  lemma DiffersByteArith(was: U32, now: U32, blen: nat, d: nat)
    requires Width(blen) && Fits(was, blen) && Fits(now, blen)
    requires OnlyAt(Byte, was, now, blen, d) && Near(Byte(was, d), Byte(now, d), 0x100)
    ensures ByteArith(was, now, blen)
  {
    hide Byte, Near, Moved, WithByte, Fits;
    NearIsStep(Byte(was, d), Byte(now, d), 0x100);
    var j :| Step(j) && Byte(now, d) == Moved(Byte(was, d), j, 0x100);
    var w := WithByte(was, d, Byte(now, d));
    WithByteBytes(was, d, Byte(now, d));
    forall k: nat | k < 4
      ensures Byte(w, k) == Byte(now, k)
    {
      if k >= blen {
        HighBytes(was, blen, k);
        HighBytes(now, blen, k);
      }
    }
    WordsFit(w, now);
    SameBytes(w, now, 4);
  }

  lemma WordsFit(x: U32, y: U32)
    ensures Fits(x, 4) && Fits(y, 4)
  {
  }

  lemma HalvesAreWord(x: U32)
    ensures x == HalfAt(x, 0) + 0x1_0000 * HalfAt(x, 1)
  {
  }

  lemma OfHalves(lo: int, hi: int)
    requires 0 <= lo < 0x1_0000 && 0 <= hi < 0x1_0000
    ensures HalfAt(lo + 0x1_0000 * hi, 0) == lo && HalfAt(lo + 0x1_0000 * hi, 1) == hi
  {
  }

  lemma WithHalfHalves(x: U32, i: nat, h: int)
    requires i < 2 && 0 <= h < 0x1_0000
    ensures 0 <= WithHalf(x, 2 * i, h) < 0x1_0000_0000
    ensures forall k: nat :: k < 2 ==> HalfAt(WithHalf(x, 2 * i, h), k) == if k == i then h else HalfAt(x, k)
  {
    HalvesAreWord(x);
    hide Half;
    if i == 0 {
      OfHalves(h, HalfAt(x, 1));
      assert WithHalf(x, 2 * i, h) == h + 0x1_0000 * HalfAt(x, 1);
    } else {
      OfHalves(HalfAt(x, 0), h);
      assert WithHalf(x, 2 * i, h) == HalfAt(x, 0) + 0x1_0000 * h;
    }
  }

  predicate NearHalves(a: int, b: int)
    requires 0 <= a < 0x1_0000 && 0 <= b < 0x1_0000
  {
    Near(a, b, 0x1_0000) || Near(Swap16(a), Swap16(b), 0x1_0000)
  }

  ghost predicate MovedHalf(a: int, b: int, j: int)
    requires 0 <= a < 0x1_0000
  {
    b == Moved(a, j, 0x1_0000) || b == Swap16(Moved(Swap16(a), j, 0x1_0000))
  }

  lemma NearHalvesIsStep(a: int, b: int)
    requires 0 <= a < 0x1_0000 && 0 <= b < 0x1_0000
    ensures NearHalves(a, b) <==> exists j :: Step(j) && MovedHalf(a, b, j)
  {
    hide Near, Moved, Swap16;
    NearIsStep(a, b, 0x1_0000);
    NearIsStep(Swap16(a), Swap16(b), 0x1_0000);
    Swap16Undoes(b);
    forall j | MovedHalf(a, b, j) && b != Moved(a, j, 0x1_0000)
      ensures Swap16(b) == Moved(Swap16(a), j, 0x1_0000)
    {
      Swap16Undoes(Moved(Swap16(a), j, 0x1_0000));
    }
    forall j | Step(j) && Swap16(b) == Moved(Swap16(a), j, 0x1_0000)
      ensures MovedHalf(a, b, j)
    {
    }
    forall j | Step(j) && b == Moved(a, j, 0x1_0000)
      ensures MovedHalf(a, b, j)
    {
    }
  }

  lemma HalfArithDiffers(was: U32, now: U32, blen: nat)
    requires (blen == 2 || blen == 4) && Fits(was, blen) && Fits(now, blen)
    requires was != now && HalfArith(was, now, blen)
    ensures exists d :: OnlyAt(HalfAt, was, now, blen / 2, d) && NearHalves(HalfAt(was, d), HalfAt(now, d))
  {
    hide Half, Near, Moved, WithHalf, NearHalves, Swap16;
    var i: nat, j: int :| i < blen / 2 && Step(j) &&
      (|| now == WithHalf(was, 2 * i, Moved(Half(was, 2 * i), j, 0x1_0000))
       || now == WithHalf(was, 2 * i, Swap16(Moved(Swap16(Half(was, 2 * i)), j, 0x1_0000))));
    var a := HalfAt(was, i);
    WithHalfHalves(was, i, Moved(a, j, 0x1_0000));
    WithHalfHalves(was, i, Swap16(Moved(Swap16(a), j, 0x1_0000)));
    assert MovedHalf(a, HalfAt(now, i), j);
    NearHalvesIsStep(a, HalfAt(now, i));
    HalvesAreWord(was);
    HalvesAreWord(now);
    assert HalfAt(was, i) != HalfAt(now, i);
    assert OnlyAt(HalfAt, was, now, blen / 2, i);
  }

  lemma DiffersHalfArith(was: U32, now: U32, blen: nat, d: nat)
    requires (blen == 2 || blen == 4) && Fits(was, blen) && Fits(now, blen)
    requires OnlyAt(HalfAt, was, now, blen / 2, d) && NearHalves(HalfAt(was, d), HalfAt(now, d))
    ensures HalfArith(was, now, blen)
  {
    NearHalvesIsStep(HalfAt(was, d), HalfAt(now, d));
    var w := WithHalf(was, 2 * d, HalfAt(now, d));
    WithHalfHalves(was, d, HalfAt(now, d));
    HalvesAreWord(w);
    HalvesAreWord(now);
    if blen == 2 {
      assert HalfAt(was, 1) == HalfAt(now, 1) == 0;
    }
    hide Half, Near, Moved, WithHalf, NearHalves, Swap16, Fits;
    assert HalfAt(w, 0) == HalfAt(now, 0) && HalfAt(w, 1) == HalfAt(now, 1);
  }

  lemma WordArithIsNear(was: U32, now: U32)
    ensures WordArith(was, now) <==>
              Near(was, now, 0x1_0000_0000) || Near(Swap32(was), Swap32(now), 0x1_0000_0000)
  {
    hide Near, Moved, Swap32;
    NearIsStep(was, now, 0x1_0000_0000);
    NearIsStep(Swap32(was), Swap32(now), 0x1_0000_0000);
    Swap32Undoes(now);
    forall j | now == Swap32(Moved(Swap32(was), j, 0x1_0000_0000))
      ensures Swap32(now) == Moved(Swap32(was), j, 0x1_0000_0000)
    {
      Swap32Undoes(Moved(Swap32(was), j, 0x1_0000_0000));
    }
  }

  /** `could_be_arith` */
  method CouldBeArith(oldVal: U32, newVal: U32, blen: nat) returns (r: bool)
    requires Width(blen) && Fits(oldVal, blen) && Fits(newVal, blen)
    ensures r <==> IsArith(oldVal, newVal, blen)
  {
    hide Byte, Half, Near;
    if oldVal == newVal {
      assert ByteArith(oldVal, newVal, blen) by {
        assert Step(0) && newVal == WithByte(oldVal, 0, Moved(Byte(oldVal, 0), 0, 0x100));
      }
      return true;
    }
    var diffs, ov, nv, d := CountDiffs(Byte, oldVal, newVal, blen);
    if diffs == 1 && Near(ov, nv, 0x100) {
      DiffersByteArith(oldVal, newVal, blen, d);
      return true;
    }
    assert !ByteArith(oldVal, newVal, blen) by {
      if ByteArith(oldVal, newVal, blen) {
        ByteArithDiffers(oldVal, newVal, blen);
      }
    }
    if blen == 1 {
      return false;
    }
    diffs, ov, nv, d := CountDiffs(HalfAt, oldVal, newVal, blen / 2);
    if diffs == 1 && NearHalves(ov, nv) {
      DiffersHalfArith(oldVal, newVal, blen, d);
      return true;
    }
    assert !HalfArith(oldVal, newVal, blen) by {
      if HalfArith(oldVal, newVal, blen) {
        HalfArithDiffers(oldVal, newVal, blen);
      }
    }
    if blen == 4 {
      WordArithIsNear(oldVal, newVal);
      return Near(oldVal, newVal, 0x1_0000_0000) || Near(Swap32(oldVal), Swap32(newVal), 0x1_0000_0000);
    }
    r := false;
  }

  /** For one byte, reachable by arithmetic means near. */
  lemma ByteArithIsNear(was: int, now: int)
    requires 0 <= was < 0x100 && 0 <= now < 0x100
    ensures IsArith(was, now, 1) <==> Near(was, now, 0x100)
  {
    assert Byte(was, 0) == was && Byte(now, 0) == now;
    if was == now {
      assert Step(0) && now == WithByte(was, 0, Moved(Byte(was, 0), 0, 0x100));
    } else if IsArith(was, now, 1) {
      ByteArithDiffers(was, now, 1);
    } else if Near(was, now, 0x100) {
      assert OnlyAt(Byte, was, now, 1, 0);
      DiffersByteArith(was, now, 1, 0);
    }
  }

  // ----- could_be_interest -----

  const INTERESTING_8: seq<int> := [-128, -1, 0, 1, 16, 32, 64, 100, 127]
  const INTERESTING_16: seq<int> := INTERESTING_8 + [-32768, -129, 128, 255, 256, 512, 1000, 1024, 4096, 32767]
  const INTERESTING_32: seq<int> := INTERESTING_16 +
    [-2147483648, -100663046, -32769, 32768, 65535, 65536, 100663045, 2147483647]

  ghost predicate ByteInterest(was: nat, now: nat, blen: nat) {
    exists i: nat, j: nat :: i < blen && j < |INTERESTING_8| && now == WithByte(was, i, INTERESTING_8[j] % 0x100)
  }

  /** A 16-bit value stored at any two neighbouring bytes; big endian only in a wider word. */
  predicate HalfStored(was: nat, now: nat, blen: nat, i: nat, v: int) {
    || now == WithHalf(was, i, v % 0x1_0000)
    || (blen > 2 && now == WithHalf(was, i, Swap16(v % 0x1_0000)))
  }

  ghost predicate HalfInterest(was: nat, now: nat, blen: nat) {
    exists i: nat, j: nat :: i < blen - 1 && j < |INTERESTING_16| && HalfStored(was, now, blen, i, INTERESTING_16[j])
  }

  ghost predicate WordInterest(now: nat) {
    exists j: nat :: j < |INTERESTING_32| && now == INTERESTING_32[j] % 0x1_0000_0000
  }

  ghost predicate IsInterest(was: U32, now: U32, blen: nat, checkLe: bool) {
    || was == now
    || ByteInterest(was, now, blen)
    || ((blen != 2 || checkLe) && HalfInterest(was, now, blen))
    || (blen == 4 && checkLe && WordInterest(now))
  }

  /** `could_be_interest` */
  method CouldBeInterest(oldVal: U32, newVal: U32, blen: nat, checkLe: bool) returns (r: bool)
    requires Width(blen)
    ensures r <==> IsInterest(oldVal, newVal, blen, checkLe)
  {
    hide WithByte, HalfStored;
    if oldVal == newVal {
      return true;
    }
    var i: nat, j: nat := 0, 0;
    while i < blen
      invariant forall k: nat, l: nat :: k < i && l < |INTERESTING_8| ==>
                  newVal != WithByte(oldVal, k, INTERESTING_8[l] % 0x100)
    {
      j := 0;
      while j < |INTERESTING_8|
        invariant forall l: nat :: l < j && l < |INTERESTING_8| ==>
                    newVal != WithByte(oldVal, i, INTERESTING_8[l] % 0x100)
      {
        if newVal == WithByte(oldVal, i, INTERESTING_8[j] % 0x100) {
          return true;
        }
        j := j + 1;
      }
      i := i + 1;
    }
    if blen == 2 && !checkLe {
      return false;
    }
    i := 0;
    while i < blen - 1
      invariant forall k: nat, l: nat :: k < i && l < |INTERESTING_16| ==>
                  !HalfStored(oldVal, newVal, blen, k, INTERESTING_16[l])
    {
      j := 0;
      while j < |INTERESTING_16|
        invariant forall l: nat :: l < j && l < |INTERESTING_16| ==>
                    !HalfStored(oldVal, newVal, blen, i, INTERESTING_16[l])
      {
        if HalfStored(oldVal, newVal, blen, i, INTERESTING_16[j]) {
          return true;
        }
        j := j + 1;
      }
      i := i + 1;
    }
    assert !HalfInterest(oldVal, newVal, blen);
    if blen == 4 && checkLe {
      j := 0;
      while j < |INTERESTING_32|
        invariant forall l: nat :: l < j && l < |INTERESTING_32| ==> newVal != INTERESTING_32[l] % 0x1_0000_0000
      {
        if newVal == INTERESTING_32[j] % 0x1_0000_0000 {
          return true;
        }
        j := j + 1;
      }
    }
    r := false;
  }
}
