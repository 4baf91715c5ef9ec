/** kernel/string.c, itoa: digits generated backwards into a buffer, then turned round in place. */
module Numerals {
  import opened MachineWords
  import opened Arithmetic
  import opened ByteStrings

  const NUL: u8 := 0
  const MINUS: u8 := 45
  const ZERO: u8 := 48
  const UPPER_A: u8 := 65

  type radix = b: int | 2 <= b <= 36 witness 2

  function Digit(d: nat): u8
    requires d < 36
  {
    if d < 10 then ZERO + d else UPPER_A + d - 10
  }

  function DigitValue(c: u8): int {
    if c < UPPER_A then c - ZERO else c - UPPER_A + 10
  }

  /** The digits of v, least significant first; none for zero. */
  function DigitsOf(v: nat, base: radix): Bytes
    decreases v
  {
    if v == 0 then []
    else
      Shrinks(v, base);
      [Digit(v % base)] + DigitsOf(v / base, base)
  }

  lemma Shrinks(v: nat, base: radix)
    requires v > 0
    ensures 0 <= v / base < v && 0 <= v % base < base
  {
    var q, r := Divide(v, base);
    MulAtLeast(base, q);
  }

  function Reversed(s: Bytes): (r: Bytes)
    ensures |r| == |s| && forall i :: 0 <= i < |s| ==> r[i] == s[|s| - 1 - i]
  {
    seq(|s|, i requires 0 <= i < |s| => s[|s| - 1 - i])
  }

  /** How v is written. */
  function Numeral(v: nat, base: radix): Bytes {
    if v == 0 then [ZERO] else Reversed(DigitsOf(v, base))
  }

  /** How a numeral is read. */
  function Read(s: Bytes, base: radix): int {
    if s == [] then 0 else base * Read(s[..|s| - 1], base) + DigitValue(s[|s| - 1])
  }

  lemma DigitRoundTrip(d: nat)
    requires d < 36
    ensures DigitValue(Digit(d)) == d
  {
  }

  /** The characters of the digits. */
  lemma DigitIs(d: nat)
    requires d < 36
    ensures Digit(d) == "0123456789ABCDEFGHIJKLMNOPQRSTUVWXYZ"[d] as int
    ensures ZERO == '0' as int && MINUS == '-' as int && NUL == '\0' as int
  {
    var digits := "0123456789ABCDEFGHIJKLMNOPQRSTUVWXYZ";
    if d < 10 {
      assert forall k :: 0 <= k < 10 ==> digits[k] as int == '0' as int + k;
    } else {
      assert forall k :: 10 <= k < 36 ==> digits[k] as int == 'A' as int + (k - 10);
    }
  }

  /** Reading back what is written gives the value, and there is no leading zero. */
  lemma {:induction false} ReadNumeral(v: nat, base: radix)
    ensures Read(Numeral(v, base), base) == v
    ensures v != 0 ==> Numeral(v, base) != [] && Numeral(v, base)[0] != ZERO
    decreases v
  {
    if v == 0 {
      assert Numeral(v, base)[..0] == [];
    } else {
      Shrinks(v, base);
      var q, r := Divide(v, base);
      DigitRoundTrip(r);
      var s := Numeral(v, base);
      assert s[|s| - 1] == Digit(r);
      if q == 0 {
        assert DigitsOf(q, base) == [] && s[..|s| - 1] == [];
      } else {
        ReadNumeral(q, base);
        assert s[..|s| - 1] == Numeral(q, base);
      }
    }
  }

  // ----------------------------------------------------------------- itoa

  predicate Signed(value: i32, base: radix) {
    value < 0 && base != 16
  }

  /** The unsigned word the digits are taken from. */
  function Magnitude(value: i32, base: radix): u32 {
    if Signed(value, base) then 0 - value else value % TWO32
  }

  /** What `itoa` leaves before the terminating NUL. The loop that turns the digits round
      pairs index j with idx - j - 1 even when index 0 holds the sign, and so
      misses the last digit. */
  function Written(value: i32, base: radix): Bytes {
    var ds := DigitsOf(Magnitude(value, base), base);
    if Signed(value, base) then [MINUS] + Reversed(ds[..|ds| - 1]) + ds[|ds| - 1..]
    else Numeral(Magnitude(value, base), base)
  }

  /** What it is meant to leave. */
  function Intended(value: i32, base: radix): Bytes {
    if Signed(value, base) then [MINUS] + Numeral(Magnitude(value, base), base)
    else Numeral(Magnitude(value, base), base)
  }

  /** For every value that gets no sign, reading back gives the same unsigned word. */
  lemma UnsignedRoundTrip(value: i32, base: radix)
    requires !Signed(value, base)
    ensures Read(Written(value, base), base) == value % TWO32
    ensures |Written(value, base)| > 1 ==> Written(value, base)[0] != ZERO
  {
    ReadNumeral(Magnitude(value, base), base);
  }

  /** What a text says: its numeral, negated behind a minus sign. */
  function ReadSigned(s: Bytes, base: radix): int {
    if s != [] && s[0] == '-' as int then -Read(s[1..], base) else Read(s, base)
  }

  predicate IsDigit(c: u8, base: radix) {
    0 <= DigitValue(c) < base && c == Digit(DigitValue(c))
  }

  ghost predicate AreDigits(s: Bytes, base: radix) {
    forall i :: 0 <= i < |s| ==> IsDigit(s[i], base)
  }

  lemma {:induction false} WritesDigits(v: nat, base: radix)
    ensures AreDigits(DigitsOf(v, base), base) && AreDigits(Numeral(v, base), base)
    decreases v
  {
    if v > 0 {
      Shrinks(v, base);
      DigitRoundTrip(v % base);
      WritesDigits(v / base, base);
    }
  }

  /** Numerals of the same length that say the same are the same. */
  lemma {:induction false} ReadInjective(s: Bytes, t: Bytes, base: radix)
    requires |s| == |t| && AreDigits(s, base) && AreDigits(t, base)
    requires Read(s, base) == Read(t, base)
    ensures s == t
    decreases |s|
  {
    hide DigitValue;
    if s != [] {
      var k := |s| - 1;
      assert IsDigit(s[k], base) && IsDigit(t[k], base);
      UniqueParts(base, Read(s[..k], base), DigitValue(s[k]), Read(t[..k], base), DigitValue(t[k]));
      ReadInjective(s[..k], t[..k], base);
      assert s == s[..k] + [s[k]] && t == t[..k] + [t[k]];
    }
  }

  /** What should be written says the value; in base 16, its 32-bit word. */
  lemma IntendedReads(value: i32, base: radix)
    ensures value < 0 && base != 16 ==>
              |Intended(value, base)| > 1 && Intended(value, base)[0] == '-' as int
              && Read(Intended(value, base)[1..], base) == 0 - value
    ensures value >= 0 || base != 16 ==> ReadSigned(Intended(value, base), base) == value
    ensures value < 0 && base == 16 ==> ReadSigned(Intended(value, base), base) == 0x1_0000_0000 + value
  {
    var m := Magnitude(value, base);
    ReadNumeral(m, base);
    WritesDigits(m, base);
    hide Numeral, Read;
    if Signed(value, base) {
      assert Intended(value, base)[1..] == Numeral(m, base);
    }
  }

  ghost predicate Uniform(ds: Bytes) {
    forall i, j :: 0 <= i < |ds| && 0 <= j < |ds| ==> ds[i] == ds[j]
  }

  lemma {:induction false} StepwiseUniform(ds: Bytes, i: nat)
    requires i < |ds| && forall k, l :: 0 <= k < |ds| && 0 <= l < |ds| && l == k + 1 ==> ds[k] == ds[l]
    ensures ds[i] == ds[0]
    decreases i
  {
    if i > 0 {
      StepwiseUniform(ds, i - 1);
      assert ds[i - 1] == ds[(i - 1) + 1];
    }
  }

  /** Turning round all digits but the last is turning them all round just for equal digits. */
  lemma MissedDigit(ds: Bytes)
    requires ds != []
    ensures Reversed(ds[..|ds| - 1]) + ds[|ds| - 1..] == Reversed(ds) <==> Uniform(ds)
  {
    var m, w, n := |ds|, Reversed(ds[..|ds| - 1]) + ds[|ds| - 1..], Reversed(ds);
    if w == n {
      forall k, l | 0 <= k < m && 0 <= l < m && l == k + 1
        ensures ds[k] == ds[l]
      {
        assert w[m - 1 - l] == ds[k] && n[m - 1 - l] == ds[l];
      }
      forall i, j | 0 <= i < m && 0 <= j < m
        ensures ds[i] == ds[j]
      {
        StepwiseUniform(ds, i);
        StepwiseUniform(ds, j);
      }
    }
  }

  /** A signed value is written as intended exactly when all its digits are the same,
      as those of every one-digit value are. */
  lemma WrittenAsIntended(value: i32, base: radix)
    ensures Written(value, base) == Intended(value, base)
       <==> !Signed(value, base) || Uniform(DigitsOf(Magnitude(value, base), base))
  {
    if Signed(value, base) {
      var ds := DigitsOf(Magnitude(value, base), base);
      DigitsCons(Magnitude(value, base), base);
      hide DigitsOf;
      MissedDigit(ds);
      assert Written(value, base)[1..] == Reversed(ds[..|ds| - 1]) + ds[|ds| - 1..];
      assert Intended(value, base)[1..] == Reversed(ds);
    }
  }

  /** What is written says what it should, except for a signed value whose digits differ. */
  lemma WrittenReads(value: i32, base: radix)
    ensures value >= 0 ==> ReadSigned(Written(value, base), base) == value
    ensures value < 0 && base == 16 ==> ReadSigned(Written(value, base), base) == 0x1_0000_0000 + value
    ensures value < 0 && base != 16 ==>
              (ReadSigned(Written(value, base), base) == value <==> Uniform(DigitsOf(0 - value, base)))
  {
    hide Written, Intended, Read, DigitsOf;
    IntendedReads(value, base);
    WrittenAsIntended(value, base);
    if Signed(value, base) {
      SignedTexts(value, base);
      var w, n := Written(value, base), Intended(value, base);
      if Read(w[1..], base) == Read(n[1..], base) {
        ReadInjective(w[1..], n[1..], base);
        assert w == [MINUS] + w[1..] && n == [MINUS] + n[1..];
      }
    }
  }

  lemma SignedTexts(value: i32, base: radix)
    requires Signed(value, base)
    ensures |Written(value, base)| == |Intended(value, base)| > 1
    ensures Written(value, base)[0] == MINUS == Intended(value, base)[0]
    ensures AreDigits(Written(value, base)[1..], base) && AreDigits(Intended(value, base)[1..], base)
  {
    hide DigitsOf;
    var ds := DigitsOf(0 - value, base);
    WritesDigits(0 - value, base);
    DigitsCons(0 - value, base);
    assert Written(value, base)[1..] == Reversed(ds[..|ds| - 1]) + ds[|ds| - 1..];
    assert Intended(value, base)[1..] == Reversed(ds);
  }

  lemma WrittenLength(value: i32, base: radix)
    ensures var ds := DigitsOf(Magnitude(value, base), base);
      && (ds == [] <==> Magnitude(value, base) == 0)
      && |Written(value, base)| == (if Signed(value, base) then 1 else 0) + |ds| + (if ds == [] then 1 else 0)
  {
  }

  /** -12 comes out as -21. */
  lemma MinusTwelve()
    ensures Written(-12, 10) == [MINUS, ZERO + 2, ZERO + 1]
    ensures Intended(-12, 10) == [MINUS, ZERO + 1, ZERO + 2]
  {
    assert DigitsOf(1, 10) == [ZERO + 1] + DigitsOf(0, 10);
    assert DigitsOf(12, 10) == [ZERO + 2] + DigitsOf(1, 10);
    assert DigitsOf(12, 10) == [ZERO + 2, ZERO + 1];
  }

  lemma DigitsCons(v: nat, base: radix)
    requires v > 0
    ensures 0 <= v / base < v && 0 <= v % base < base
    ensures DigitsOf(v, base) == [Digit(v % base)] + DigitsOf(v / base, base)
  {
    Shrinks(v, base);
  }

  method PutDigit(d: nat, buf: array<u8>, idx: nat)
    requires d < 36 && idx < buf.Length
    modifies buf
    ensures buf[..idx] == old(buf[..idx]) && buf[idx] == Digit(d) && buf[idx + 1..] == old(buf[idx + 1..])
  {
    if d < 10 {
      buf[idx] := ZERO + d;
    } else {
      buf[idx] := UPPER_A + d - 10;
    }
  }

  /** The first loop of `itoa`. */
  method PutDigits(value: u32, buf: array<u8>, neg: nat, base: radix) returns (idx: nat)
    requires neg + |DigitsOf(value, base)| <= buf.Length
    modifies buf
    ensures idx == neg + |DigitsOf(value, base)|
    ensures buf[..] == old(buf[..neg]) + DigitsOf(value, base) + old(buf[idx..])
  {
    ghost var ds, was := DigitsOf(value, base), buf[..];
    hide DigitsOf, Digit;
    var v: u32 := value;
    ghost var done: Bytes := [];
    idx := neg;
    while v > 0
      invariant ds == done + DigitsOf(v, base) && idx == neg + |done|
      invariant buf[..idx] == was[..neg] + done && buf[idx..] == was[idx..]
      decreases v
    {
      DigitsCons(v, base);
      ghost var before := buf[..idx];
      PutDigit(v % base, buf, idx);
      OneMoreDigit(buf[..], before, idx, was, neg, done);
      done := done + [Digit(v % base)];
      idx := idx + 1;
      v := v / base;
    }
    NoDigits(base);
    assert buf[..] == buf[..idx] + buf[idx..];
  }

  lemma OneMoreDigit(s: Bytes, before: Bytes, idx: nat, was: Bytes, neg: nat, done: Bytes)
    requires idx < |s| && neg <= |was| && s[..idx] == before == was[..neg] + done
    ensures s[..idx + 1] == was[..neg] + (done + [s[idx]])
  {
    assert s[..idx + 1] == s[..idx] + [s[idx]];
  }

  lemma NoDigits(base: radix)
    ensures DigitsOf(0, base) == []
  {
  }

  /** A text whose index j has changed places with idx - j - 1, for neg <= j < idx / 2. */
  function Turned(s: Bytes, neg: nat, idx: nat): (r: Bytes)
    requires neg <= 1 && 2 * neg <= idx <= |s|
    ensures |r| == |s|
    ensures forall p :: 0 <= p < |s| ==> r[p] == if neg <= p < idx - neg then s[idx - 1 - p] else s[p]
  {
    seq(|s|, p requires 0 <= p < |s| => if neg <= p < idx - neg then s[idx - 1 - p] else s[p])
  }

  /** The second loop. */
  method TurnRound(buf: array<u8>, neg: nat, idx: nat)
    requires neg <= 1 && 2 * neg <= idx <= buf.Length
    modifies buf
    ensures buf[..] == Turned(old(buf[..]), neg, idx)
  {
    ghost var was := buf[..];
    var half := idx / 2;
    for j := neg to half
      invariant forall p :: neg <= p < j ==> buf[p] == was[idx - 1 - p]
      invariant forall p :: idx - j <= p < idx - neg ==> buf[p] == was[idx - 1 - p]
      invariant forall p :: 0 <= p < buf.Length && !(neg <= p < j) && !(idx - j <= p < idx - neg) ==> buf[p] == was[p]
    {
      buf[j], buf[idx - j - 1] := buf[idx - j - 1], buf[j];
    }
  }

  lemma TurnedPrefix(s: Bytes, tail: Bytes, neg: nat)
    requires neg <= 1 && 2 * neg <= |s|
    ensures Turned(s + tail, neg, |s|) == Turned(s, neg, |s|) + tail
  {
  }

  /** The digits, turned round behind their sign, are the text. */
  lemma TurnedDigits(value: i32, base: radix)
    ensures var signed := Sign(value, base) + DigitsOf(Magnitude(value, base), base);
      if signed == [] then Written(value, base) == [ZERO]
      else 2 * |Sign(value, base)| <= |signed| && Turned(signed, |Sign(value, base)|, |signed|) == Written(value, base)
  {
    WrittenLength(value, base);
    var ds := DigitsOf(Magnitude(value, base), base);
    hide DigitsOf, Magnitude, Turned;
    if Signed(value, base) {
      TurnedBehindSign(ds);
    } else {
      TurnedAlone(ds);
    }
  }

  lemma TurnedBehindSign(ds: Bytes)
    requires ds != []
    ensures Turned([MINUS] + ds, 1, |ds| + 1) == [MINUS] + Reversed(ds[..|ds| - 1]) + ds[|ds| - 1..]
  {
    var t, w := Turned([MINUS] + ds, 1, |ds| + 1), [MINUS] + Reversed(ds[..|ds| - 1]) + ds[|ds| - 1..];
    assert |t| == |w| && forall p :: 0 <= p < |w| ==> t[p] == w[p];
  }

  lemma TurnedAlone(ds: Bytes)
    ensures Turned([] + ds, 0, |ds|) == Reversed(ds)
  {
    assert [] + ds == ds;
  }

  function Sign(value: i32, base: radix): Bytes {
    if Signed(value, base) then [MINUS] else []
  }

  /** The sign, and the word to take the digits from. */
  method PutSign(value: i32, buf: array<u8>, base: radix) returns (v: u32, neg: nat)
    requires buf.Length > 0
    modifies buf
    ensures v == Magnitude(value, base) && neg == |Sign(value, base)|
    ensures buf[..neg] == Sign(value, base) && buf[neg..] == old(buf[neg..])
  {
    if value < 0 && base != 16 {
      buf[0] := MINUS;
      return 0 - value, 1;
    }
    return value % TWO32, 0;
  }

  /** `itoa`. The buffer must have room for the text and its NUL. */
  method Itoa(value: i32, buf: array<u8>, base: radix)
    requires buf.Length > |Written(value, base)|
    modifies buf
    ensures buf[..] == Written(value, base) + [NUL] + old(buf[|Written(value, base)| + 1..])
    ensures var n := |Written(value, base)|;
      && buf[n] == '\0' as int
      && (value >= 0 ==> ReadSigned(buf[..n], base) == value)
      && (value < 0 && base == 16 ==> ReadSigned(buf[..n], base) == 0x1_0000_0000 + value)
      && (value < 0 && base != 16 ==>
            (ReadSigned(buf[..n], base) == value <==> Uniform(DigitsOf(0 - value, base))))
  {
    hide ReadSigned, Uniform;
    WrittenReads(value, base);
    WrittenLength(value, base);
    ghost var was, text := buf[..], Written(value, base);
    ghost var signed := Sign(value, base) + DigitsOf(Magnitude(value, base), base);
    TurnedDigits(value, base);
    hide DigitsOf, Written, Turned, Magnitude;
    var v, neg := PutSign(value, buf, base);
    var idx := PutDigits(v, buf, neg, base);
    SignAndDigits(buf[..], signed, was, idx);
    if idx > 0 {
      TurnedPrefix(signed, was[idx..], neg);
      TurnRound(buf, neg, idx);
    } else {
      buf[idx] := ZERO;
      idx := 1;
    }
    PutNul(text, was);
    buf[idx] := NUL;
    assert buf[..|text|] == text;
  }

  lemma SignAndDigits(s: Bytes, signed: Bytes, was: Bytes, idx: nat)
    requires idx == |signed| <= |was| && s == signed + was[idx..]
    ensures signed == [] ==> s == was
    ensures idx == 0 < |was| ==> s[0 := ZERO] == [ZERO] + was[1..]
  {
  }

  lemma PutNul(text: Bytes, was: Bytes)
    requires |text| < |was|
    ensures (text + was[|text|..])[|text| := NUL] == text + [NUL] + was[|text| + 1..]
  {
  }
}
