/** Positional notation: the arithmetic behind the hand-written base58 loops.

    Digit arrays are little-endian, as the loops keep them; texts and byte strings are big-endian. */
module Radix {

  /** The number a big-endian digit string denotes. */
  function Value(s: seq<nat>, base: nat): nat {
    if s == [] then 0 else Value(s[..|s| - 1], base) * base + s[|s| - 1]
  }

  /** The shortest little-endian digits of n; zero has the one digit 0. */
  function Digits(n: nat, base: nat): (d: seq<nat>)
    requires base >= 2
    ensures |d| >= 1
    ensures forall i :: 0 <= i < |d| ==> d[i] < base
  {
    if n < base then [n]
    else
      DivShrinks(n, base);
      [n % base] + Digits(n / base, base)
  }

  lemma DivShrinks(n: nat, base: nat)
    requires base >= 2 && n > 0
    ensures n / base < n
  {
    var q, r := n / base, n % base;
    assert n == base * q + r;
    if q >= n {
      MulMonotone(base, 2, q);
    }
  }

  lemma MulMonotone(x: nat, lo: nat, m: nat)
    requires lo <= x
    ensures lo * m <= x * m
  {
  }

  /** The digits that are appended for a remaining carry: none for 0. */
  function CarryDigits(c: nat, base: nat): seq<nat>
    requires base >= 2
  {
    if c == 0 then []
    else
      DivShrinks(c, base);
      [c % base] + CarryDigits(c / base, base)
  }

  /** Multiply a little-endian digit array by mul and add carry, digit by digit. */
  function MulAdd(d: seq<nat>, mul: nat, carry: nat, base: nat): seq<nat>
    requires base >= 2
  {
    if d == [] then CarryDigits(carry, base)
    else
      var c := carry + d[0] * mul;
      [c % base] + MulAdd(d[1..], mul, c / base, base)
  }

  lemma MulAddStep(d: seq<nat>, j: nat, mul: nat, carry: nat, base: nat)
    requires base >= 2 && j < |d|
    ensures MulAdd(d[j..], mul, carry, base)
         == [(carry + d[j] * mul) % base] + MulAdd(d[j + 1..], mul, (carry + d[j] * mul) / base, base)
  {
    assert d[j..][1..] == d[j + 1..];
  }

  lemma MulAddEnd(mul: nat, carry: nat, base: nat)
    requires base >= 2
    ensures MulAdd([], mul, carry, base) == CarryDigits(carry, base)
  {
  }

  /** The inner loop at digit j: what is done, and what is still to do with the carry, make up the whole. */
  predicate Partly(before: seq<nat>, digits: seq<nat>, j: nat, mul: nat, carry: nat, x: nat, base: nat)
    requires base >= 2
  {
    && j <= |digits| == |before| && IsNumeral(digits, base) && digits[j..] == before[j..]
    && digits[..j] + MulAdd(before[j..], mul, carry, base) == MulAdd(before, mul, x, base)
  }

  lemma PartlyStarts(before: seq<nat>, mul: nat, x: nat, base: nat)
    requires base >= 2 && IsNumeral(before, base)
    ensures Partly(before, before, 0, mul, x, x, base)
  {
    assert before[0..] == before && [] + MulAdd(before, mul, x, base) == MulAdd(before, mul, x, base);
  }

  lemma PutDigit(digits: seq<nat>, j: nat, x: nat, base: nat, rest: seq<nat>)
    requires j < |digits| && x < base && IsNumeral(digits, base)
    ensures var next := digits[j := x];
      && digits[j] < base && IsNumeral(next, base) && next[j + 1..] == digits[j + 1..]
      && next[..j + 1] + rest == digits[..j] + ([x] + rest)
  {
    var next := digits[j := x];
    assert next[..j + 1] == digits[..j] + [x];
    assert (digits[..j] + [x]) + rest == digits[..j] + ([x] + rest);
  }

  lemma PartlyNext(before: seq<nat>, digits: seq<nat>, j: nat, mul: nat, carry: nat, x: nat, base: nat)
    requires base >= 2 && Partly(before, digits, j, mul, carry, x, base) && j < |digits|
    ensures var sum := carry + digits[j] * mul;
      digits[j] < base && Partly(before, digits[j := sum % base], j + 1, mul, sum / base, x, base)
  {
    hide MulAdd, IsNumeral;
    var sum := carry + digits[j] * mul;
    assert before[j..][0] == digits[j..][0] && before[j..][1..] == digits[j..][1..];
    MulAddStep(before, j, mul, carry, base);
    PutDigit(digits, j, sum % base, base, MulAdd(before[j + 1..], mul, sum / base, base));
  }

  lemma CarryBound(digit: nat, mul: nat, carry: nat, base: nat)
    requires digit < base && carry < mul
    ensures carry + digit * mul < base * mul && (carry + digit * mul) / base < mul
  {
    var sum := carry + digit * mul;
    MulMonotone(base - 1, digit, mul);
    assert (base - 1) * mul == base * mul - mul;
    assert sum < base * mul;
    if sum / base >= mul {
      MulMonotone(sum / base, mul, base);
    }
  }

  lemma PartlyEnds(before: seq<nat>, digits: seq<nat>, mul: nat, carry: nat, x: nat, base: nat)
    requires base >= 2 && Partly(before, digits, |digits|, mul, carry, x, base)
    ensures Flushing(digits, carry, base, MulAdd(before, mul, x, base))
  {
    MulAddEnd(mul, carry, base);
    assert before[|before|..] == [] && digits[..|digits|] == digits;
  }

  /** The loop that appends what is left of the carry. */
  predicate Flushing(digits: seq<nat>, carry: nat, base: nat, whole: seq<nat>)
    requires base >= 2
  {
    digits + CarryDigits(carry, base) == whole
  }

  lemma FlushNext(digits: seq<nat>, carry: nat, base: nat, whole: seq<nat>)
    requires base >= 2 && Flushing(digits, carry, base, whole)
    ensures if carry == 0 then digits == whole
            else Flushing(digits + [carry % base], carry / base, base, whole) && carry / base < carry
  {
    if carry == 0 {
      assert digits + [] == digits;
    } else {
      DivShrinks(carry, base);
      var rest := CarryDigits(carry / base, base);
      assert (digits + [carry % base]) + rest == digits + ([carry % base] + rest);
    }
  }

  function Reverse<T>(s: seq<T>): (r: seq<T>)
    ensures |r| == |s|
    ensures forall i :: 0 <= i < |r| ==> r[i] in s
  {
    if s == [] then [] else Reverse(s[1..]) + [s[0]]
  }

  lemma {:induction false} ReverseAt<T>(s: seq<T>, k: nat)
    requires k < |s|
    ensures Reverse(s)[k] == s[|s| - 1 - k]
  {
    if k < |s| - 1 {
      ReverseAt(s[1..], k);
    }
  }

  lemma {:induction false} CarryIsDigits(c: nat, base: nat)
    requires base >= 2 && c > 0
    ensures CarryDigits(c, base) == Digits(c, base)
    decreases c
  {
    DivShrinks(c, base);
    if c >= base {
      QuotientPositive(c, base);
      CarryIsDigits(c / base, base);
    } else {
      SmallDivMod(c, base);
      assert CarryDigits(0, base) == [];
    }
  }

  lemma DivModUnique(n: nat, q: nat, r: nat, base: nat)
    requires base >= 1 && r < base && n == q * base + r
    ensures n / base == q && n % base == r
  {
    var q', r' := n / base, n % base;
    assert n == base * q' + r';
    if q > q' {
      MulMonotone(q, q' + 1, base);
    } else if q < q' {
      MulMonotone(q', q + 1, base);
    }
  }

  lemma SmallDivMod(n: nat, base: nat)
    requires n < base
    ensures n / base == 0 && n % base == n
  {
    DivModUnique(n, 0, n, base);
  }

  /** The digits of q * base + r are the digits of q behind the low digit r. */
  lemma DigitsSplit(q: nat, r: nat, base: nat)
    requires base >= 2 && r < base && q > 0
    ensures Digits(q * base + r, base) == [r] + Digits(q, base)
  {
    DivModUnique(q * base + r, q, r, base);
    MulMonotone(q, 1, base);
  }

  lemma MulAddSplit(d: seq<nat>, mul: nat, carry: nat, base: nat, q: nat, r: nat)
    requires base >= 2 && |d| > 0 && r < base && carry + d[0] * mul == q * base + r
    ensures MulAdd(d, mul, carry, base) == [r] + MulAdd(d[1..], mul, q, base)
  {
    DivModUnique(carry + d[0] * mul, q, r, base);
  }

  lemma MulAddNothing(mul: nat, carry: nat, base: nat)
    requires base >= 2
    ensures MulAdd([], mul, carry, base) == if carry == 0 then [] else Digits(carry, base)
  {
    if carry > 0 {
      CarryIsDigits(carry, base);
    }
  }

  lemma Regroup(q: nat, r: nat, mul: nat, c: nat, kq: nat, kr: nat, base: nat)
    requires c + r * mul == kq * base + kr
    ensures (q * base + r) * mul + c == (q * mul + kq) * base + kr
  {
  }

  /** One pass of the carry loop turns the digits of n into the digits of n * mul + c. */
  lemma {:induction false} MulAddIsDigits(n: nat, mul: nat, c: nat, base: nat)
    requires base >= 2 && mul >= 1
    ensures MulAdd(Digits(n, base), mul, c, base) == Digits(n * mul + c, base)
    decreases n
  {
    if n < base {
      MulAddOneDigit(n, mul, c, base);
    } else {
      var q, r := Split(n, base);
      DivShrinks2(n, q, r, base);
      var kq, kr := Split(c + r * mul, base);
      DigitsSplit(q, r, base);
      var d := Digits(n, base);
      assert d[0] == r && d[1..] == Digits(q, base);
      MulAddSplit(d, mul, c, base, kq, kr);
      MulAddIsDigits(q, mul, kq, base);
      Regroup(q, r, mul, c, kq, kr, base);
      MulMonotone(mul, 1, q);
      DigitsSplit(q * mul + kq, kr, base);
    }
  }

  lemma Split(n: nat, base: nat) returns (q: nat, r: nat)
    requires base >= 1
    ensures r < base && n == q * base + r
  {
    q, r := n / base, n % base;
  }

  lemma DivShrinks2(n: nat, q: nat, r: nat, base: nat)
    requires base >= 2 && n >= base && r < base && n == q * base + r
    ensures 0 < q < n
  {
    MulMonotone(base, 2, q);
  }

  lemma MulAddOneDigit(n: nat, mul: nat, c: nat, base: nat)
    requires base >= 2 && n < base
    ensures MulAdd(Digits(n, base), mul, c, base) == Digits(n * mul + c, base)
  {
    var d := Digits(n, base);
    assert d == [n] && d[1..] == [];
    var q, r := Split(c + n * mul, base);
    MulAddSplit(d, mul, c, base, q, r);
    MulAddNothing(mul, q, base);
    if q > 0 {
      DigitsSplit(q, r, base);
    }
  }

  lemma QuotientPositive(n: nat, base: nat)
    requires base >= 1 && n >= base
    ensures n / base > 0
  {
    assert n == base * (n / base) + n % base;
  }

  /** Appending one big-endian digit multiplies by the base and adds. */
  lemma ValueSnoc(s: seq<nat>, x: nat, base: nat)
    ensures Value(s + [x], base) == Value(s, base) * base + x
  {
    assert (s + [x])[..|s|] == s;
  }

  lemma ValueEmpty(base: nat)
    ensures Value([], base) == 0
  {
  }

  function Power(base: nat, n: nat): nat {
    if n == 0 then 1 else base * Power(base, n - 1)
  }

  lemma OneMoreDigit(v: nat, u: nat, p: nat, base: nat)
    ensures (v * p + u) * base == v * (base * p) + u * base
  {
  }

  /** Digits in front count by the power of the base that follows them. */
  lemma {:induction false} ValueIsPositional(a: seq<nat>, b: seq<nat>, base: nat)
    ensures Value(a + b, base) == Value(a, base) * Power(base, |b|) + Value(b, base)
  {
    hide Value;
    ValueEmpty(base);
    if b == [] {
      assert a + b == a;
    } else {
      var front, x, p := b[..|b| - 1], b[|b| - 1], Power(base, |b| - 1);
      assert a + b == (a + front) + [x] && b == front + [x];
      ValueSnoc(a + front, x, base);
      ValueSnoc(front, x, base);
      ValueIsPositional(a, front, base);
      OneMoreDigit(Value(a, base), Value(front, base), p, base);
    }
  }

  predicate IsNumeral(s: seq<nat>, base: nat) {
    forall i :: 0 <= i < |s| ==> s[i] < base
  }

  lemma {:induction false} PositiveValue(s: seq<nat>, base: nat)
    requires base >= 1 && |s| > 0 && s[0] > 0
    ensures Value(s, base) > 0
  {
    if |s| > 1 {
      PositiveValue(s[..|s| - 1], base);
      assert Value(s[..|s| - 1], base) * base >= 1;
    }
  }

  /** Uniqueness: a numeral without a superfluous leading zero is the numeral of its value. */
  lemma {:induction false} NumeralIsUnique(s: seq<nat>, base: nat)
    requires base >= 2 && |s| > 0 && IsNumeral(s, base)
    requires s[0] > 0 || |s| == 1
    ensures Reverse(Digits(Value(s, base), base)) == s
  {
    hide Value, Digits, Reverse;
    var rest, x := s[..|s| - 1], s[|s| - 1];
    assert s == rest + [x];
    if |s| == 1 {
      assert s == [x];
      SingleValue(x, base);
      OneDigit(x, base);
    } else {
      NumeralIsUnique(rest, base);
      PositiveValue(rest, base);
      NumeralSnoc(rest, x, base);
    }
  }

  lemma NumeralSnoc(rest: seq<nat>, x: nat, base: nat)
    requires base >= 2 && x < base && Value(rest, base) > 0
    requires Reverse(Digits(Value(rest, base), base)) == rest
    ensures Reverse(Digits(Value(rest + [x], base), base)) == rest + [x]
  {
    hide Value, Digits, Reverse;
    var v := Value(rest, base);
    ValueSnoc(rest, x, base);
    DigitsSplit(v, x, base);
    ReverseCons(x, Digits(v, base));
  }

  lemma SingleValue(x: nat, base: nat)
    ensures Value([x], base) == x
  {
    ValueEmpty(base);
    ValueSnoc([], x, base);
    assert [] + [x] == [x];
  }

  lemma OneDigit(x: nat, base: nat)
    requires base >= 2 && x < base
    ensures Reverse(Digits(x, base)) == [x]
  {
    assert Digits(x, base) == [x] && [x][1..] == [];
  }

  lemma ReverseCons<T>(x: T, s: seq<T>)
    ensures Reverse([x] + s) == Reverse(s) + [x]
  {
    assert ([x] + s)[1..] == s;
  }

  /** The digits of n, read back, are worth n. */
  lemma {:induction false} DigitsValue(n: nat, base: nat)
    requires base >= 2
    ensures Value(Reverse(Digits(n, base)), base) == n
    decreases n
  {
    var d := Digits(n, base);
    if n >= base {
      var q, r := Split(n, base);
      DivShrinks2(n, q, r, base);
      DigitsSplit(q, r, base);
      assert d[1..] == Digits(q, base);
      DigitsValue(q, base);
      ValueSnoc(Reverse(d[1..]), r, base);
    } else {
      assert Reverse(d) == [n] by { assert d[1..] == []; }
      assert [n][..0] == [];
    }
  }

  /** The most significant digit of a positive number is not zero. */
  lemma {:induction false} TopDigit(n: nat, base: nat)
    requires base >= 2 && n > 0
    ensures Digits(n, base)[|Digits(n, base)| - 1] > 0
    decreases n
  {
    if n >= base {
      QuotientPositive(n, base);
      DivShrinks(n, base);
      TopDigit(n / base, base);
    }
  }

  /** Leading zeros do not count. */
  lemma {:induction false} ValueDropsLeadingZeros(s: seq<nat>, z: nat, base: nat)
    requires z <= |s| && forall i :: 0 <= i < z ==> s[i] == 0
    ensures Value(s, base) == Value(s[z..], base)
    decreases |s|
  {
    if |s| > z {
      ValueDropsLeadingZeros(s[..|s| - 1], z, base);
      assert s[z..][..|s| - 1 - z] == s[..|s| - 1][z..];
    } else if z > 0 {
      ValueDropsLeadingZeros(s[..|s| - 1], z - 1, base);
      assert s[..|s| - 1][z - 1..] == [] == s[z..];
      assert Value(s, base) == 0 * base + 0;
    }
  }
}
