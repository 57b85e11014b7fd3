/** Integer semantics of the C operators and fixed-width types the firmware relies on. */
module CNumeric {

  /** An unsigned 8-bit value, as held in the command queue and in EEPROM. */
  type Byte = b: int | 0 <= b < 256

  /** A signed 16-bit value (`int` and `int16_t` on the AVR). */
  type Int16 = x: int | -0x8000 <= x < 0x8000

  /** A signed 32-bit value (`int32_t`). */
  type Int32 = x: int | -0x8000_0000 <= x < 0x8000_0000

  const INT16_MAX: int := 0x7FFF
  const TWO_16: int := 0x1_0000
  const TWO_31: int := 0x8000_0000
  const TWO_32: int := 0x1_0000_0000

  function Abs(x: int): (a: nat)
  {
    if x < 0 then -x else x
  }

  /** C's integer `/`: the quotient truncated toward zero (Dafny's own `/` is Euclidean). */
  function CDiv(a: int, b: int): (q: int)
    requires b != 0
    ensures Abs(q) * Abs(b) <= Abs(a) < (Abs(q) + 1) * Abs(b)
    ensures q == 0 || ((q < 0) <==> ((a < 0) != (b < 0)))
  {
    var m := Abs(a) / Abs(b);
    DivBounds(Abs(a), Abs(b));
    assert (m + 1) * Abs(b) == m * Abs(b) + Abs(b);
    if (a < 0) != (b < 0) then -m else m
  }

  /** Euclidean division of a natural number brackets it between consecutive multiples. */
  lemma DivBounds(x: nat, y: int)
    requires y > 0
    ensures 0 <= x / y
    ensures (x / y) * y <= x < (x / y) * y + y
  {
    var q, r := x / y, x % y;
    assert x == y * q + r && 0 <= r < y;
    assert q * y == y * q;
  }

  lemma MulLeft(a: int, b: int, m: int)
    requires m >= 0 && a <= b
    ensures a * m <= b * m
  {
    assert b * m - a * m == (b - a) * m;
  }

  /** Dividing both sides of `a * m <= b * m` by a positive `m`. */
  lemma CancelFactor(a: int, b: int, m: int)
    requires m > 0 && a * m <= b * m
    ensures a <= b
  {
    if a > b {
      MulLeft(b + 1, a, m);
      assert false;
    }
  }

  /** Euclidean division is determined by any quotient and remainder that fit. */
  lemma DivUnique(x: int, d: int, q: int, r: int)
    requires d > 0 && x == q * d + r && 0 <= r < d
    ensures x / d == q && x % d == r
  {
    var q', r' := x / d, x % d;
    assert x == q' * d + r' && 0 <= r' < d;
    if q' < q {
      MulLeft(q' + 1, q, d);
      assert false;
    } else if q' > q {
      MulLeft(q + 1, q', d);
      assert false;
    }
  }

  /** Euclidean division by a positive divisor never falls as a non-negative dividend grows. */
  lemma DivMonotone(x: int, y: int, d: int)
    requires 0 <= x <= y && d > 0
    ensures x / d <= y / d
  {
    DivBounds(x, d);
    DivBounds(y, d);
    if x / d > y / d {
      MulLeft(y / d + 1, x / d, d);
      assert false;
    }
  }

  /** A value below `2 * n` is reduced modulo `n` by at most one subtraction. */
  lemma ModSmall(x: int, n: int)
    requires 0 <= x < 2 * n
    ensures x % n == if x < n then x else x - n
  {
    if x < n {
      DivUnique(x, n, 0, x);
    } else {
      DivUnique(x, n, 1, x - n);
    }
  }

  /** On non-negative operands C's and Dafny's division agree. */
  lemma CDivNonNegative(a: int, b: int)
    requires a >= 0 && b > 0
    ensures CDiv(a, b) == a / b
  {
  }

  /** Negating the dividend negates a truncating quotient (a Euclidean one would not). */
  lemma CDivNegate(a: int, b: int)
    requires b != 0
    ensures CDiv(-a, b) == -CDiv(a, b)
  {
  }

  /** Arduino's `constrain(x, lo, hi)` macro. */
  function Constrain(x: int, lo: int, hi: int): (r: int)
    ensures lo <= hi ==> lo <= r <= hi
    ensures lo <= x <= hi ==> r == x
    ensures x < lo ==> r == lo
    ensures lo <= x && hi < x ==> r == hi
  {
    if x < lo then lo else if x > hi then hi else x
  }
}

/** The usual optional value. */
module Wrappers {
  datatype Option<T> = None | Some(value: T)
}

/** Sums and truncated means of sample sequences, shared by both temperature samplers. */
module SampleMath {
  import CNumeric

  /** A reading of the 10-bit analog-to-digital converter. */
  type AdcReading = x: int | 0 <= x < 1024

  const ADC_MAX: int := 1023

  /** The sum of `s`, built from the back so that a running total over `s[..i]` extends by `s[i]`. */
  function Sum(s: seq<int>): (total: int)
  {
    if s == [] then 0 else Sum(s[..|s| - 1]) + s[|s| - 1]
  }

  /** The truncated mean of a non-empty sequence of non-negative values. */
  function Mean(s: seq<int>): (m: int)
    requires |s| > 0
  {
    Sum(s) / |s|
  }

  /** The mean of converter readings is itself a converter reading. */
  function MeanReading(s: seq<AdcReading>): (m: AdcReading)
    requires |s| > 0
    ensures m == Mean(s)
  {
    MeanBetweenMinAndMax(s);
    assert Max(s) in s;
    Mean(s)
  }

  function Min(s: seq<int>): (m: int)
    requires |s| > 0
    ensures m in s
    ensures forall i :: 0 <= i < |s| ==> m <= s[i]
  {
    if |s| == 1 then s[0]
    else
      var rest := Min(s[..|s| - 1]);
      assert forall i :: 0 <= i < |s| - 1 ==> s[..|s| - 1][i] == s[i];
      if s[|s| - 1] < rest then s[|s| - 1] else rest
  }

  function Max(s: seq<int>): (m: int)
    requires |s| > 0
    ensures m in s
    ensures forall i :: 0 <= i < |s| ==> s[i] <= m
  {
    if |s| == 1 then s[0]
    else
      var rest := Max(s[..|s| - 1]);
      assert forall i :: 0 <= i < |s| - 1 ==> s[..|s| - 1][i] == s[i];
      if s[|s| - 1] > rest then s[|s| - 1] else rest
  }

  lemma {:induction false} SumPrefix(s: seq<int>, i: nat)
    requires i < |s|
    ensures Sum(s[..i + 1]) == Sum(s[..i]) + s[i]
  {
    assert s[..i + 1][..i] == s[..i];
  }

  /** Sums distribute over concatenation. */
  lemma {:induction false} SumAppend(a: seq<int>, b: seq<int>)
    ensures Sum(a + b) == Sum(a) + Sum(b)
    decreases |b|
  {
    if b == [] {
      assert a + b == a;
    } else {
      var init := b[..|b| - 1];
      assert (a + b)[..|a + b| - 1] == a + init;
      SumAppend(a, init);
    }
  }

  /** Every element lies between `lo` and `hi`, so the sum lies between `|s| * lo` and `|s| * hi`. */
  lemma {:induction false} SumBounds(s: seq<int>, lo: int, hi: int)
    requires forall i :: 0 <= i < |s| ==> lo <= s[i] <= hi
    ensures |s| * lo <= Sum(s) <= |s| * hi
  {
    if s != [] {
      var init := s[..|s| - 1];
      assert forall i :: 0 <= i < |init| ==> init[i] == s[i];
      SumBounds(init, lo, hi);
      assert |s| * lo == |init| * lo + lo;
      assert |s| * hi == |init| * hi + hi;
    }
  }

  /** The truncated mean of non-negative samples lies between the smallest and the largest sample. */
  lemma MeanBetweenMinAndMax(s: seq<int>)
    requires |s| > 0
    requires forall i :: 0 <= i < |s| ==> 0 <= s[i]
    ensures Min(s) <= Mean(s) <= Max(s)
  {
    var n, lo, hi, total := |s|, Min(s), Max(s), Sum(s);
    assert 0 <= lo by { assert lo in s; }
    SumBounds(s, lo, hi);
    SumBounds(s, 0, hi);
    QuotientBetween(total, n, lo, hi);
  }

  /** A total between `n * lo` and `n * hi` has its truncated `n`-th part between `lo` and `hi`. */
  lemma QuotientBetween(total: nat, n: int, lo: int, hi: int)
    requires n > 0 && n * lo <= total <= n * hi
    ensures lo <= total / n <= hi
  {
    var q := total / n;
    CNumeric.DivBounds(total, n);
    // q * n <= total < q * n + n
    if q < lo {
      MulMonotone(n, q + 1, lo);
      Distribute(n, q);
      assert false;
    }
    if q > hi {
      MulMonotone(n, hi + 1, q);
      Distribute(n, hi);
      assert false;
    }
  }

  lemma Distribute(n: int, q: int)
    ensures n * (q + 1) == q * n + n
  {
  }

  lemma MulMonotone(n: nat, a: int, b: int)
    requires a <= b
    ensures n * a <= n * b
  {
    assert n * b - n * a == n * (b - a);
  }

  /** Samples of the 10-bit converter sum to at most `|s| * 1023`; a 16-bit accumulator holds the sum of up to 32 of them. */
  lemma AdcSumBound(s: seq<AdcReading>)
    ensures 0 <= Sum(s) <= |s| * ADC_MAX
  {
    SumBounds(s, 0, ADC_MAX);
  }
}
