/** kernel/sys/longlong.c: 64-bit division built from 32-bit limbs.
    A `uint32_t *` that the source updates in place is an in-parameter and an
    out-parameter of the same name. */
module LongLong {
  import opened Arithmetic
  import opened MachineWords

  type bit = x: int | 0 <= x < 2

  function Val(hi: u32, lo: u32): u64 {
    hi * TWO32 + lo
  }

  function Hi32(x: u64): u32 { x / TWO32 }

  function Lo32(x: u64): u32 { x % TWO32 }

  function Pow2(k: nat): (p: int)
    ensures p >= 1
  {
    if k == 0 then 1 else 2 * Pow2(k - 1)
  }

  // ---------------------------------------------------------------- limbs

  method Sub64(ahi: u32, alo: u32, bhi: u32, blo: u32) returns (hi: u32, lo: u32)
    ensures Val(hi, lo) == (Val(ahi, alo) - Val(bhi, blo)) % TWO64
  {
    lo := (alo - blo) % TWO32;
    var borrow := if lo > alo then 1 else 0;
    hi := (ahi - bhi - borrow) % TWO32;
    var diff := Val(ahi, alo) - Val(bhi, blo);
    assert Val(hi, lo) == diff || Val(hi, lo) == diff + TWO64;
    WrappedOnce(diff, Val(hi, lo));
  }

  predicate Ge64(ahi: u32, alo: u32, bhi: u32, blo: u32)
    ensures Ge64(ahi, alo, bhi, blo) <==> Val(ahi, alo) >= Val(bhi, blo)
  {
    if ahi != bhi then ahi > bhi else alo >= blo
  }

  method Shl1(hi: u32, lo: u32) returns (hi': u32, lo': u32)
    ensures Val(hi', lo') == (2 * Val(hi, lo)) % TWO64
    ensures lo' % 2 == 0
  {
    hi' := (2 * hi) % TWO32 + lo / TWO31;
    lo' := (2 * lo) % TWO32;
    DoubledLimb(hi);
    DoubledLimb(lo);
    WrappedOnce(2 * Val(hi, lo), Val(hi', lo'));
  }

  lemma DoubledLimb(x: u32)
    ensures x / TWO31 == if x >= TWO31 then 1 else 0
    ensures (2 * x) % TWO32 == if x >= TWO31 then 2 * x - TWO32 else 2 * x
  {
  }

  lemma WrappedOnce(x: int, r: u64)
    requires x == r || x == r + TWO64 || x == r - TWO64
    ensures x % TWO64 == r
  {
  }

  function GetBit64(x: u64, i: nat): bit
    requires i < 64
  {
    if i < 32 then (Hi32(x) / Pow2(31 - i)) % 2 else (Lo32(x) / Pow2(63 - i)) % 2
  }

  /** `x |= 1 << k`. */
  function SetBit(x: nat, k: nat): nat
  {
    if (x / Pow2(k)) % 2 == 1 then x else x + Pow2(k)
  }

  /** The k-th bit is set, and those below and above it stay. */
  lemma SetBitEffect(x: nat, k: nat)
    ensures var p, r := Pow2(k), SetBit(x, k);
      r / p % 2 == 1 && r % p == x % p && r / (p * 2) == x / (p * 2)
  {
    hide Pow2;
    var p := Pow2(k);
    var q, low := Divide(x, p);
    DivByProduct(x, p, 2);
    DivByProduct(SetBit(x, k), p, 2);
    if q % 2 != 1 {
      MulSucc(q, p);
      DivUnique(x + p, p, q + 1, low);
    }
  }

  // ------------------------------------------------- powers and prefixes

  lemma {:induction false} Pow2Add(a: nat, b: nat)
    ensures Pow2(a + b) == Pow2(a) * Pow2(b)
  {
    if a > 0 {
      Pow2Add(a - 1, b);
      assert Pow2(a + b) == 2 * Pow2(a + b - 1);
    }
  }

  lemma Pow2Values()
    ensures Pow2(0) == 1 && Pow2(32) == TWO32 && Pow2(64) == TWO64
  {
    assert Pow2(8) == 256;
    Pow2Add(8, 8);
    Pow2Add(16, 16);
    Pow2Add(32, 32);
  }

  /** Adding an even multiple of p does not change the parity of the quotient by p. */
  lemma EvenMultiple(p: int, m: int, q: int, r: int)
    requires 0 <= r < p
    ensures ((p * (2 * m) + (p * q + r)) / p) % 2 == q % 2
  {
    assert p * (2 * m) + p * q == p * (2 * m + q);
    DivUnique(p * (2 * m) + (p * q + r), p, 2 * m + q, r);
  }

  lemma Regroup(p: int, e: int, h: int)
    ensures (p * (2 * e)) * h == p * (2 * (e * h))
  {
    assert p * (2 * e) == 2 * (p * e);
    assert (p * e) * h == p * (e * h);
  }

  lemma LowPart(w: int, p: int, e: int, hi: int, lo: nat)
    requires p > 0 && w == p * (2 * e) && w * hi + lo >= 0
    ensures ((w * hi + lo) / p) % 2 == (lo / p) % 2
  {
    Regroup(p, e, hi);
    var q, r := Divide(lo, p);
    EvenMultiple(p, e * hi, q, r);
    assert w * hi + lo == p * (2 * (e * hi)) + (p * q + r);
  }

  /** A bit of the lower limb is a bit of the whole word. */
  lemma LowLimbBit(x: u64, k: nat)
    requires k < 32
    ensures (x / Pow2(k)) % 2 == (Lo32(x) / Pow2(k)) % 2
  {
    Pow2Values();
    Pow2Add(k, 32 - k);
    LowPart(TWO32, Pow2(k), Pow2(31 - k), Hi32(x), Lo32(x));
  }

  /** Bit `i`, counted from the top, is the lowest bit of the prefix that ends
      with it, in whichever limb it lies. */
  lemma BitEndsPrefix(x: u64, i: nat)
    requires i < 64
    ensures x / Pow2(63 - i) == 2 * (x / Pow2(64 - i)) + GetBit64(x, i)
  {
    var p := Pow2(63 - i);
    assert Pow2(64 - i) == p * 2;
    DivByProduct(x, p, 2);
    if i < 32 {
      Pow2Values();
      Pow2Add(32, 31 - i);
      DivByProduct(x, TWO32, Pow2(31 - i));
    } else {
      LowLimbBit(x, 63 - i);
    }
  }

  /** Setting a bit that is known to be clear adds its weight. */
  lemma SetClearBit(x: int, k: nat, m: int)
    requires x >= 0 && x == m * Pow2(k + 1)
    ensures SetBit(x, k) == x + Pow2(k)
  {
    var p := Pow2(k);
    assert x == p * (2 * m) + 0 by {
      assert m * (2 * p) == p * (2 * m);
    }
    DivUnique(x, p, 2 * m, 0);
  }

  // ------------------------------------------------------------- division

  /** The i-bit prefix of n fits in i bits. */
  lemma PrefixFits(n: u64, i: nat)
    requires i <= 64
    ensures n / Pow2(64 - i) < Pow2(i)
  {
    Pow2Values();
    Pow2Add(64 - i, i);
    var q, r := Divide(n, Pow2(64 - i));
    BelowByProduct(Pow2(64 - i), q, Pow2(i));
  }

  lemma BelowByProduct(d: int, q: int, m: int)
    requires d > 0 && d * q < d * m
    ensures q < m
  {
    assert d * (m - q) > 0;
  }

  lemma {:induction false} Pow2Grows(a: nat, b: nat)
    requires a <= b
    ensures Pow2(a) <= Pow2(b)
  {
    if a < b {
      Pow2Grows(a, b - 1);
    }
  }

  /** Before turn i the digits and the remainder account for the i-bit prefix. */
  ghost predicate Accounts(num: u64, den: u64, digits: int, r: int, i: nat)
    requires i <= 64
  {
    den * digits + r == num / Pow2(64 - i)
  }

  /** Why `shl1_64` never drops the top bit of the remainder: before turn i the
      remainder is at most the i-bit prefix of the dividend. */
  lemma RemainderHasRoom(num: u64, den: u64, digits: nat, r: u64, i: nat)
    requires i < 64 && Accounts(num, den, digits, r, i)
    ensures 2 * r + 1 < TWO64
    ensures Accounts(num, den, 2 * digits, 2 * r + GetBit64(num, i), i + 1)
    ensures Pow2(i + 1) == 2 * Pow2(i)
  {
    PrefixFits(num, i);
    assert den * digits >= 0;
    Pow2Grows(i, 63);
    Pow2Values();
    assert Pow2(64) == 2 * Pow2(63);
    BitEndsPrefix(num, i);
    MulDouble(digits, den);
  }

  lemma TakeOne(num: u64, den: u64, digits: nat, r: int, i: nat)
    requires i <= 64 && Accounts(num, den, digits, r, i)
    ensures Accounts(num, den, digits + 1, r - den, i)
  {
    MulSucc(digits, den);
  }

  /** The limbs hi:lo hold `digits`, i binary digits of which have been decided;
      `low` are those that went to the lower limb. */
  ghost predicate Laid(hi: int, lo: int, digits: int, low: int, i: nat)
    requires i <= 64
  {
    && 0 <= low <= digits
    && (i <= 32 ==> hi == digits * Pow2(32 - i) && lo == 0 && low == 0)
    && (i >= 32 ==> digits == hi * Pow2(i - 32) + low && lo == low * Pow2(64 - i)
                    && low < Pow2(i - 32))
  }

  lemma LaidZero(hi: nat, lo: nat, digits: nat, low: nat, i: nat)
    requires i < 64 && Laid(hi, lo, digits, low, i)
    ensures Laid(hi, lo, 2 * digits, 2 * low, i + 1)
  {
    if i < 32 {
      MulDouble(digits, Pow2(31 - i));
    }
    if i >= 32 {
      MulDouble(hi, Pow2(i - 32));
      MulDouble(low, Pow2(63 - i));
    }
  }

  lemma LaidOne(hi: nat, lo: nat, digits: nat, low: nat, i: nat)
    requires i < 64 && Laid(hi, lo, digits, low, i)
    ensures i < 32 ==> Laid(SetBit(hi, 31 - i), lo, 2 * digits + 1, 2 * low, i + 1)
    ensures i >= 32 ==> Laid(hi, SetBit(lo, 63 - i), 2 * digits + 1, 2 * low + 1, i + 1)
  {
    LaidZero(hi, lo, digits, low, i);
    hide SetBit, Pow2;
    if i < 32 {
      SetClearBit(hi, 31 - i, digits);
      MulSucc(2 * digits, Pow2(31 - i));
    } else {
      SetClearBit(lo, 63 - i, low);
      MulSucc(2 * low, Pow2(63 - i));
    }
  }

  lemma AtStart(num: u64, den: u64)
    ensures Accounts(num, den, 0, 0, 0) && Laid(0, 0, 0, 0, 0) && Pow2(0) == 1
  {
    Pow2Values();
  }

  lemma AtEnd(num: u64, den: u64, hi: nat, lo: nat, digits: nat, low: nat, r: u64)
    requires Accounts(num, den, digits, r, 64) && Laid(hi, lo, digits, low, 64)
    requires den == 0 ==> digits == Pow2(64) - 1
    requires den != 0 ==> r < den
    ensures hi * TWO32 + lo == digits && hi < TWO32 && lo < TWO32
    ensures den == 0 ==> digits == TWO64 - 1 && r == num
    ensures den != 0 ==> digits == num / den && r == num % den
  {
    hide Pow2;
    Pow2Values();
    QuotientOf(num, den, digits, r);
  }

  lemma QuotientOf(num: u64, den: u64, digits: nat, r: u64)
    requires den * digits + r == num
    requires den != 0 ==> r < den
    ensures den == 0 ==> r == num
    ensures den != 0 ==> digits == num / den && r == num % den && digits <= num
  {
    if den != 0 {
      DivUnique(num, den, digits, r);
      MulAtLeast(den, digits);
    }
  }

  /** What one turn of the division loop does to the remainder. */
  method BringDown(hi: u32, lo: u32, b: bit, dHi: u32, dLo: u32)
    returns (rHi: u32, rLo: u32, fits: bool)
    requires 2 * Val(hi, lo) + 1 < TWO64
    ensures fits <==> 2 * Val(hi, lo) + b >= Val(dHi, dLo)
    ensures Val(rHi, rLo) == 2 * Val(hi, lo) + b - (if fits then Val(dHi, dLo) else 0)
  {
    rHi, rLo := Shl1(hi, lo);
    WrappedOnce(2 * Val(hi, lo), 2 * Val(hi, lo));
    rLo := rLo + b;
    fits := Ge64(rHi, rLo, dHi, dLo);
    if fits {
      WrappedOnce(Val(rHi, rLo) - Val(dHi, dLo), Val(rHi, rLo) - Val(dHi, dLo));
      rHi, rLo := Sub64(rHi, rLo, dHi, dLo);
    }
  }

  method UDiv64(num: u64, den: u64) returns (q: u64, r: u64)
    ensures den != 0 ==> q == num / den && r == num % den
    ensures den == 0 ==> q == TWO64 - 1 && r == num
  {
    hide Accounts, Laid, SetBit, GetBit64, Pow2;
    var qHi: nat, qLo: nat := 0, 0;
    var rHi: u32, rLo: u32 := 0, 0;
    ghost var digits: nat, low: nat := 0, 0;
    AtStart(num, den);
    for i := 0 to 64
      invariant Accounts(num, den, digits, Val(rHi, rLo), i)
      invariant den != 0 ==> Val(rHi, rLo) < den
      invariant den == 0 ==> digits == Pow2(i) - 1
      invariant Laid(qHi, qLo, digits, low, i)
    {
      RemainderHasRoom(num, den, digits, Val(rHi, rLo), i);
      ghost var wide := 2 * Val(rHi, rLo) + GetBit64(num, i);
      TakeOne(num, den, 2 * digits, wide, i + 1);
      var fits;
      rHi, rLo, fits := BringDown(rHi, rLo, GetBit64(num, i), Hi32(den), Lo32(den));
      if fits {
        LaidOne(qHi, qLo, digits, low, i);
        if i < 32 {
          qHi := SetBit(qHi, 31 - i);
          digits, low := 2 * digits + 1, 2 * low;
        } else {
          qLo := SetBit(qLo, 63 - i);
          digits, low := 2 * digits + 1, 2 * low + 1;
        }
      } else {
        LaidZero(qHi, qLo, digits, low, i);
        digits, low := 2 * digits, 2 * low;
      }
    }
    AtEnd(num, den, qHi, qLo, digits, low, Val(rHi, rLo));
    q := Val(qHi, qLo);
    r := Val(rHi, rLo);
  }

  // ------------------------------------------------------ signed division

  /** A 64-bit register read as signed, and the other way round. */
  function ToI64(x: u64): i64 {
    if x >= TWO63 then x - TWO64 else x
  }

  function ToU64(x: i64): u64 {
    if x < 0 then x + TWO64 else x
  }

  /** `-x` on a two's-complement register. */
  function NegI64(x: i64): i64 {
    ToI64((TWO64 - x) % TWO64)
  }

  function Abs(x: int): nat {
    if x < 0 then -x else x
  }

  /** Division rounded towards zero (6.5.5 of ISO/IEC 9899:1999). */
  function TruncDiv(n: int, d: int): int
    requires d != 0
  {
    if (n < 0) != (d < 0) then -(Abs(n) / Abs(d)) else Abs(n) / Abs(d)
  }

  function TruncRem(n: int, d: int): int
    requires d != 0
  {
    if n < 0 then -(Abs(n) % Abs(d)) else Abs(n) % Abs(d)
  }

  /** What the standard demands of a quotient and a remainder. */
  ghost predicate IsTruncated(n: int, d: int, q: int, r: int) {
    && n == q * d + r
    && Abs(r) < Abs(d)
    && (r == 0 || (r < 0 <==> n < 0))
  }

  lemma TruncMeetsStandard(n: int, d: int)
    requires d != 0
    ensures IsTruncated(n, d, TruncDiv(n, d), TruncRem(n, d))
  {
    hide IsTruncated;
    var q, r := Divide(Abs(n), Abs(d));
    assert r == Abs(n) % Abs(d);
    SignedParts(n, d, q, r);
  }

  lemma SignedParts(n: int, d: int, q: nat, r: nat)
    requires Abs(n) == Abs(d) * q + r && r < Abs(d)
    ensures IsTruncated(n, d, if (n < 0) != (d < 0) then 0 - q else q, if n < 0 then 0 - r else r)
  {
    MulSigns(q, d);
    assert Abs(d) * q == q * Abs(d);
  }

  /** The standard leaves no choice. */
  lemma TruncUnique(n: int, d: int, q: int, r: int)
    requires d != 0 && IsTruncated(n, d, q, r)
    ensures q == TruncDiv(n, d) && r == TruncRem(n, d)
  {
    var a, b := Abs(n), Abs(d);
    var q' := if (n < 0) != (d < 0) then -q else q;
    assert a == b * q' + Abs(r) by {
      MulSigns(q, d);
    }
    DivUnique(a, b, q', Abs(r));
  }

  method Neg64(hi: u32, lo: u32) returns (hi': u32, lo': u32)
    ensures Val(hi', lo') == (TWO64 - Val(hi, lo)) % TWO64
  {
    lo' := (TWO32 - 1 - lo + 1) % TWO32;
    var carry := if lo' == 0 then 1 else 0;
    hi' := (TWO32 - 1 - hi + carry) % TWO32;
  }

  lemma QuotientBelow(n: nat, d: nat)
    requires d != 0
    ensures 0 <= n / d <= n && 0 <= n % d < d
  {
    var q, r := Divide(n, d);
    MulAtLeast(d, q);
  }

  /** The signs that `idiv64` puts on the magnitudes make the truncated results. */
  lemma SignsRestored(num: i64, den: i64, uq: u64, ur: u64)
    requires den != 0 && uq == Abs(num) / Abs(den) && ur == Abs(num) % Abs(den)
    ensures (if (num < 0) != (den < 0) then NegI64(ToI64(uq)) else ToI64(uq))
         == ToI64(TruncDiv(num, den) % TWO64)
    ensures (if num < 0 then NegI64(ToI64(ur)) else ToI64(ur)) == TruncRem(num, den)
  {
    QuotientBelow(Abs(num), Abs(den));
    hide Abs, NegI64, ToI64;
    NegWraps(uq, 0 - uq);
    NegWraps(ur, 0 - ur);
  }

  lemma NegWraps(u: u64, m: int)
    requires m == 0 - u
    ensures NegI64(ToI64(u)) == ToI64(m % TWO64) && ToI64(u) == ToI64(u % TWO64)
    ensures u <= TWO63 ==> NegI64(ToI64(u)) == 0 - u
    ensures u < TWO63 ==> ToI64(u) == u
  {
  }

  method IDiv64(num: i64, den: i64) returns (q: i64, r: i64)
    ensures den != 0 ==> q == ToI64(TruncDiv(num, den) % TWO64) && r == TruncRem(num, den)
    ensures den == 0 ==> q == (if num < 0 then 1 else -1) && r == num
  {
    hide TruncDiv, TruncRem;
    var negQ, negR := (num < 0) != (den < 0), num < 0;
    var aHi, aLo := Hi32(ToU64(num)), Lo32(ToU64(num));
    var bHi, bLo := Hi32(ToU64(den)), Lo32(ToU64(den));
    if num < 0 {
      aHi, aLo := Neg64(aHi, aLo);
    }
    if den < 0 {
      bHi, bLo := Neg64(bHi, bLo);
    }
    var ua, ub := Val(aHi, aLo), Val(bHi, bLo);
    assert ua == Abs(num) && ub == Abs(den);
    var uq, ur := UDiv64(ua, ub);
    if den != 0 {
      SignsRestored(num, den, uq, ur);
    }
    q, r := ToI64(uq), ToI64(ur);
    if negQ {
      q := NegI64(q);
    }
    if negR {
      r := NegI64(r);
    }
  }

  method UDivDi3(n: u64, d: u64) returns (q: u64)
    ensures d != 0 ==> q == n / d
  {
    var r;
    q, r := UDiv64(n, d);
  }

  method UModDi3(n: u64, d: u64) returns (r: u64)
    ensures d != 0 ==> r == n % d
  {
    var q;
    q, r := UDiv64(n, d);
  }

  method DivDi3(n: i64, d: i64) returns (q: i64)
    ensures d != 0 && !(n == -TWO63 && d == -1) ==> q == TruncDiv(n, d)
    ensures n == -TWO63 && d == -1 ==> q == -TWO63
  {
    var r;
    q, r := IDiv64(n, d);
    if d != 0 {
      QuotientFits(n, d);
    }
  }

  method ModDi3(n: i64, d: i64) returns (r: i64)
    ensures d != 0 ==> r == TruncRem(n, d)
  {
    var q;
    q, r := IDiv64(n, d);
  }

  /** The quotient fits a signed register except in one case. */
  lemma QuotientFits(n: i64, d: i64)
    requires d != 0
    ensures ToI64(TruncDiv(n, d) % TWO64) == TruncDiv(n, d) <==> !(n == -TWO63 && d == -1)
    ensures n == -TWO63 && d == -1 ==> TruncDiv(n, d) == TWO63
  {
    Magnitude(Abs(n), Abs(d));
    var t := TruncDiv(n, d);
    assert -TWO63 <= t <= TWO63 && (t == TWO63 <==> n == -TWO63 && d == -1);
    hide TruncDiv;
    FitsSigned(t);
  }

  lemma FitsSigned(t: int)
    requires -TWO63 <= t <= TWO63
    ensures ToI64(t % TWO64) == t <==> t != TWO63
  {
  }

  lemma Magnitude(n: nat, d: nat)
    requires d != 0 && n <= TWO63
    ensures d == 1 ==> n / d == n
    ensures d >= 2 ==> 0 <= n / d < TWO63
    ensures 0 <= n / d
  {
    var q, r := Divide(n, d);
    MulAtLeast(d, q);
  }
}
