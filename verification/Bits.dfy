/** Shifts, masks and bitwise or on naturals, written as arithmetic. */
module Bits {
  import opened Align

  function Pow2(n: nat): (r: nat)
    ensures r > 0
  {
    if n == 0 then 1 else 2 * Pow2(n - 1)
  }

  lemma {:induction false} Pow2Add(m: nat, n: nat)
    ensures Pow2(m + n) == Pow2(m) * Pow2(n)
  {
    if m > 0 {
      Pow2Add(m - 1, n);
      calc {
        Pow2(m + n);
        2 * Pow2(m - 1 + n);
        2 * (Pow2(m - 1) * Pow2(n));
        Pow2(m) * Pow2(n);
      }
    }
  }

  lemma MulPositive(a: nat, b: nat)
    requires a > 0 && b > 0
    ensures a * b > 0 && a * b >= a && a * b >= b
  {
    MulGap(0, b, a);
    if b > 1 { MulGap(1, b, a); }
    assert a * b == b * a;
    MulGap(0, a, b);
    if a > 1 { MulGap(1, a, b); }
  }

  /** A number with a low part, a digit and a high part, divided by the weight of the high part. */
  lemma FromDigits(n: nat, a: nat, b: nat, high: nat, digit: nat, low: nat)
    requires a > 0 && b > 0 && digit < b && low < a && n == (high * b + digit) * a + low
    ensures a * b > 0 && n / (a * b) == high && n % (a * b) == digit * a + low
  {
    MulPositive(a, b);
    var m := a * b;
    Regroup(high, digit, a, b);
    MulGap(digit, b, a);
    assert b * a == m;
    DivUnique(n, m, high, digit * a + low);
  }

  lemma Regroup(high: nat, digit: nat, a: nat, b: nat)
    ensures (high * b + digit) * a == high * (a * b) + digit * a
  {
    assert (high * b + digit) * a == high * b * a + digit * a;
    assert high * b * a == high * (b * a);
  }

  lemma QuotRem(n: nat, a: nat)
    requires a > 0
    ensures n == n / a * a + n % a && n % a < a
  {}

  /** Dividing twice is dividing by the product. */
  lemma DivDiv(n: nat, a: nat, b: nat)
    requires a > 0 && b > 0
    ensures a * b > 0 && (n / a) / b == n / (a * b)
  {
    QuotRem(n, a);
    QuotRem(n / a, b);
    FromDigits(n, a, b, (n / a) / b, (n / a) % b, n % a);
  }

  /** A remainder by a product splits into a digit and a smaller remainder. */
  lemma ModSplit(n: nat, a: nat, b: nat)
    requires a > 0 && b > 0
    ensures a * b > 0 && n % (a * b) == ((n / a) % b) * a + n % a
  {
    QuotRem(n, a);
    QuotRem(n / a, b);
    FromDigits(n, a, b, (n / a) / b, (n / a) % b, n % a);
  }

  /** Digit and remainder are determined by their combination. */
  lemma DigitsUnique(x: nat, y: nat, x': nat, y': nat, a: nat)
    requires y < a && y' < a
    ensures x * a + y == x' * a + y' <==> x == x' && y == y'
  {
    MulGap(x, x', a);
    MulGap(x', x, a);
  }

  /** Agreement modulo a power of two is agreement of the top digit and of the rest. */
  lemma DigitStep(n: nat, m: nat, low: nat, bits: nat)
    ensures n % Pow2(low + bits) == m % Pow2(low + bits) <==>
              (n / Pow2(low)) % Pow2(bits) == (m / Pow2(low)) % Pow2(bits) && n % Pow2(low) == m % Pow2(low)
  {
    hide Pow2;
    Pow2Add(low, bits);
    ModSplit(n, Pow2(low), Pow2(bits));
    ModSplit(m, Pow2(low), Pow2(bits));
    DigitsUnique((n / Pow2(low)) % Pow2(bits), n % Pow2(low), (m / Pow2(low)) % Pow2(bits), m % Pow2(low), Pow2(low));
  }

  /** Numbers that agree in their low bits have the same low digits. */
  lemma LowBits(x: nat, y: nat, k: nat, bits: nat, s: nat)
    requires x % Pow2(s) == y % Pow2(s) && k + bits <= s
    ensures (x / Pow2(k)) % Pow2(bits) == (y / Pow2(k)) % Pow2(bits)
  {
    hide Pow2;
    DigitStep(x, y, k + bits, s - k - bits);
    DigitStep(x, y, k, bits);
  }

  // ---- Powers of two and `size_align` ----

  lemma {:induction false} PowGrows(m: nat, n: nat)
    requires m < n
    ensures 2 * Pow2(m) <= Pow2(n)
  {
    if m + 1 < n { PowGrows(m, n - 1); }
  }

  /** Doubling a power of two until it reaches `val` stops at a power, and at the first. */
  lemma {:induction false} DoubleUntilPower(j: nat, val: nat) returns (k: nat)
    ensures DoubleUntil(Pow2(j), val) == Pow2(k) && k >= j
    ensures forall i: nat :: j <= i < k ==> Pow2(i) < val
    decreases if Pow2(j) >= val then 0 else val - Pow2(j)
  {
    if Pow2(j) >= val {
      k := j;
    } else {
      assert Pow2(j + 1) == 2 * Pow2(j);
      k := DoubleUntilPower(j + 1, val);
    }
  }

  /** `size_align` yields the least power of two that is not below a size smaller than a
      page, hence less than twice that size, and the least whole number of pages for every
      other size. */
  lemma {:induction false} SizeAlignLeast(val: nat, page: nat)
    requires BasePage(page)
    ensures SizeAlign(val, page) >= val
    ensures val < page ==> (exists k: nat :: SizeAlign(val, page) == Pow2(k))
    ensures val < page ==> forall k: nat :: Pow2(k) >= val ==> SizeAlign(val, page) <= Pow2(k)
    ensures 0 < val < page ==> SizeAlign(val, page) < 2 * val
    ensures val == 0 ==> SizeAlign(val, page) == 1
    ensures val >= page ==> SizeAlign(val, page) % page == 0
    ensures val >= page ==> forall m: nat :: m >= val && m % page == 0 ==> SizeAlign(val, page) <= m
  {
    AlignUpLeast(val, page);
    if val < page {
      assert Pow2(0) == 1;
      var k := DoubleUntilPower(0, val);
      assert SizeAlign(val, page) == Pow2(k);
      forall n: nat | Pow2(n) >= val ensures Pow2(k) <= Pow2(n) {
        if k < n { PowGrows(k, n); }
      }
      if val > 0 && k > 0 { assert Pow2(k) == 2 * Pow2(k - 1) && Pow2(k - 1) < val; }
    } else {
      assert forall m: nat {:trigger m % page} :: m % page == 0 ==> Aligned(m, page);
    }
  }

  /** Bitwise or. */
  function Or(x: nat, y: nat): nat
    decreases x + y
  {
    if x == 0 then y
    else if y == 0 then x
    else 2 * Or(x / 2, y / 2) + if x % 2 == 1 || y % 2 == 1 then 1 else 0
  }

  lemma OrStep(x: nat, y: nat)
    ensures Or(x, y) / 2 == Or(x / 2, y / 2)
    ensures Or(x, y) % 2 == if x % 2 == 1 || y % 2 == 1 then 1 else 0
  {}

  /** Or with a value whose low bits are zero keeps the other value's low bits and
      leaves the rest to the high parts. */
  lemma {:induction false} OrHigh(x: nat, y: nat, k: nat)
    requires x % Pow2(k) == 0
    ensures Or(x, y) % Pow2(k) == y % Pow2(k)
    ensures Or(x, y) / Pow2(k) == Or(x / Pow2(k), y / Pow2(k))
    decreases k
  {
    if k > 0 {
      var m := Pow2(k - 1);
      ModSplit(x, 2, m);
      ModSplit(y, 2, m);
      ModSplit(Or(x, y), 2, m);
      DivDiv(x, 2, m);
      DivDiv(y, 2, m);
      DivDiv(Or(x, y), 2, m);
      assert x % 2 == 0 && (x / 2) % m == 0;
      OrStep(x, y);
      OrHigh(x / 2, y / 2, k - 1);
    }
  }

  /** Or of an aligned value and a small one is their sum. */
  lemma OrSmall(x: nat, y: nat, k: nat)
    requires x % Pow2(k) == 0 && y < Pow2(k)
    ensures Or(x, y) == x + y
  {
    hide Or, Pow2;
    OrHigh(x, y, k);
    var m, z := Pow2(k), Or(x, y);
    DivUnique(y, m, 0, y);
    OrNothing(x / m);
    assert z == z / m * m + z % m;
    assert x == x / m * m + x % m;
  }

  lemma OrNothing(x: nat)
    ensures Or(x, 0) == x
  {}
}
