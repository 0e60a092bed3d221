/** The fixed-point arithmetic of _kiss_fft_guts.h, for any number of fraction bits. */
module FixedPoint {
  import opened Modular

  datatype Cpx = Cpx(r: int, i: int)

  /** SAMP_MAX for a number of fraction bits; SAMP_MIN is its negative. */
  function SampMax(bits: nat): (s: int)
    ensures s >= 0
  {
    Pow2(bits) - 1
  }

  predicate Within(x: int, m: int) {
    -m <= x <= m
  }

  predicate Fits(bits: nat, x: int) {
    Within(x, SampMax(bits))
  }

  /** Half a unit. */
  function Half(bits: nat): int
    requires bits >= 1
  {
    Pow2(bits - 1)
  }

  /** Products and squares, kept apart so that the solver meets them one at a time. */
  function Times(a: int, b: int): int {
    a * b
  }

  /** Add half a unit and shift right, which rounds down also below zero. */
  function Sround(bits: nat, x: int): int
    requires bits >= 1
  {
    Floor(x + Half(bits), Pow2(bits))
  }

  /** x >> n for p = 2^n */
  function Floor(x: int, p: nat): int
    requires p > 0
  {
    x / p
  }

  lemma FloorIs(x: int, p: nat)
    requires p > 0
    ensures Times(p, Floor(x, p)) <= x < Times(p, Floor(x, p)) + p
  {}

  lemma FloorBound(x: int, p: nat, lo: int, hi: int)
    requires p > 0 && Times(p, lo) <= x < Times(p, hi) + p
    ensures lo <= Floor(x, p) <= hi
  {
    FloorIs(x, p);
    var f := Floor(x, p);
    hide Floor, Times;
    TimesNext(p, f);
    TimesNext(p, hi);
    TimesMono(p, f + 1, lo);
    TimesMono(p, hi + 1, f);
  }

  lemma TimesNext(p: int, a: int)
    ensures Times(p, a + 1) == Times(p, a) + p
  {}

  lemma TimesMono(p: nat, a: int, b: int)
    ensures a <= b ==> Times(p, a) <= Times(p, b)
  {}

  /** Rounding is off by at most half a unit. */
  lemma {:induction false} SroundNearest(bits: nat, x: int)
    requires bits >= 1
    ensures Within(Times(Pow2(bits), Sround(bits, x)) - x, Half(bits))
  {
    FloorIs(x + Half(bits), Pow2(bits));
    assert Pow2(bits) == 2 * Half(bits);
    hide Times, Floor, Half, Pow2;
  }

  lemma {:induction false} SroundBound(bits: nat, x: int, q: int)
    requires bits >= 1 && q >= 0 && Within(x, Times(Pow2(bits), q))
    ensures Within(Sround(bits, x), q)
  {
    assert Times(Pow2(bits), -q) == -Times(Pow2(bits), q);
    assert 0 <= Half(bits) < Pow2(bits);
    hide Times, Floor, Half, Pow2;
    FloorBound(x + Half(bits), Pow2(bits), -q, q);
  }

  /** C_MUL */
  function CMul(bits: nat, a: Cpx, b: Cpx): Cpx
    requires bits >= 1
  {
    Cpx(Sround(bits, Times(a.r, b.r) - Times(a.i, b.i)), Sround(bits, Times(a.r, b.i) + Times(a.i, b.r)))
  }

  function Norm2(a: Cpx): int {
    Times(a.r, a.r) + Times(a.i, a.i)
  }

  /** Cauchy and Schwarz: the parts of an exact product are at most the product of the moduli. */
  lemma {:induction false} PartBound(a: Cpx, b: Cpx, x: int, y: int)
    requires x >= 0 && y >= 0 && Norm2(a) <= Times(x, x) && Norm2(b) <= Times(y, y)
    ensures Within(Times(a.r, b.r) - Times(a.i, b.i), Times(x, y))
    ensures Within(Times(a.r, b.i) + Times(a.i, b.r), Times(x, y))
  {
    var re, im := Times(a.r, b.r) - Times(a.i, b.i), Times(a.r, b.i) + Times(a.i, b.r);
    NormProduct(a, b);
    Monotone(Norm2(a), Times(x, x), Norm2(b), Times(y, y));
    SquareProduct(x, y);
    hide Norm2, Times;
    assert Times(re, re) + Times(im, im) <= Times(Times(x, y), Times(x, y));
    SquareNat(re);
    SquareNat(im);
    TimesNat(x, y);
    RootMono(re, Times(x, y));
    RootMono(im, Times(x, y));
  }

  lemma NormProduct(a: Cpx, b: Cpx)
    ensures var re, im := Times(a.r, b.r) - Times(a.i, b.i), Times(a.r, b.i) + Times(a.i, b.r);
            Times(re, re) + Times(im, im) == Times(Norm2(a), Norm2(b))
  {
    var p, q, r, s := a.r, a.i, b.r, b.i;
    BinomialSquares(p * r, q * s, p * s, q * r);
    Regroup(p, r, q, s);
    Regroup(p, r, p, r);
    Regroup(q, s, q, s);
    Regroup(p, s, p, s);
    Regroup(q, r, q, r);
    BinomialProduct(p * p, q * q, r * r, s * s);
  }

  lemma Regroup(x: int, y: int, z: int, w: int)
    ensures (x * y) * (z * w) == (x * w) * (z * y) == (x * z) * (y * w)
  {}

  lemma BinomialProduct(a: int, b: int, c: int, d: int)
    ensures (a + b) * (c + d) == a * c + a * d + b * c + b * d
  {}

  lemma BinomialSquares(a: int, b: int, c: int, d: int)
    ensures (a - b) * (a - b) + (c + d) * (c + d) == a * a - 2 * (a * b) + b * b + c * c + 2 * (c * d) + d * d
  {}

  lemma SquareNat(x: int)
    ensures Times(x, x) >= 0
  {}

  lemma TimesNat(x: int, y: int)
    requires x >= 0 && y >= 0
    ensures Times(x, y) >= 0
  {}

  lemma Monotone(a: int, a': int, b: int, b': int)
    requires a <= a' && b <= b' && 0 <= b && 0 <= a'
    ensures Times(a, b) <= Times(a', b')
  {
    assert a * b <= a' * b;
    assert a' * b <= a' * b';
  }

  lemma SquareProduct(x: int, y: int)
    ensures Times(Times(x, x), Times(y, y)) == Times(Times(x, y), Times(x, y))
  {
    assert x * x * (y * y) == (x * y) * (x * y);
  }

  lemma RootMono(x: int, y: int)
    requires y >= 0 && Times(x, x) <= Times(y, y)
    ensures Within(x, y)
  {
    assert x > y ==> x * x > y * y;
    assert x < -y ==> x * x > y * y;
  }

  /**
   * A factor of modulus at most SAMP_MAX times one of modulus at most one unit more, which is what a rounded twiddle
   * can reach, gives parts in range, each within half a unit of the exact scaled product.
   */
  lemma {:induction false} CMulInRange(bits: nat, a: Cpx, b: Cpx)
    requires bits >= 1
    requires Norm2(a) <= Times(SampMax(bits), SampMax(bits)) && Norm2(b) <= Times(SampMax(bits) + 1, SampMax(bits) + 1)
    ensures var m, p, half := CMul(bits, a, b), Pow2(bits), Half(bits);
            && Fits(bits, m.r) && Fits(bits, m.i)
            && Within(Times(p, m.r) - (Times(a.r, b.r) - Times(a.i, b.i)), half)
            && Within(Times(p, m.i) - (Times(a.r, b.i) + Times(a.i, b.r)), half)
  {
    var s := SampMax(bits);
    hide Times, Norm2, Sround;
    PartBound(a, b, s, s + 1);
    TimesSwap(s, s + 1);
    var re, im := Times(a.r, b.r) - Times(a.i, b.i), Times(a.r, b.i) + Times(a.i, b.r);
    SroundBound(bits, re, s);
    SroundBound(bits, im, s);
    SroundNearest(bits, re);
    SroundNearest(bits, im);
  }

  /** The exact sums of products that are in range once rounded. */
  predicate RoundsInRange(bits: nat, x: int)
    requires bits >= 1
  {
    var limit := Times(Pow2(bits), SampMax(bits));
    -limit - Half(bits) <= x < limit + Half(bits)
  }

  lemma {:induction false} SroundFits(bits: nat, x: int)
    requires bits >= 1
    ensures Fits(bits, Sround(bits, x)) <==> RoundsInRange(bits, x)
  {
    var p, s, f := Pow2(bits), SampMax(bits), Sround(bits, x);
    FloorIs(x + Half(bits), p);
    assert p == 2 * Half(bits) && Times(p, -s) == -Times(p, s);
    hide Times, Floor, Half, Pow2;
    TimesNext(p, f);
    TimesNext(p, s);
    TimesMono(p, f, s);
    TimesMono(p, s + 1, f);
    TimesMono(p, -s, f);
    TimesMono(p, f + 1, -s);
  }

  /** Exactly when a product does not overflow: both exact parts round into the range. */
  lemma {:induction false} CMulFits(bits: nat, a: Cpx, b: Cpx)
    requires bits >= 1
    ensures var m := CMul(bits, a, b);
            && (Fits(bits, m.r) <==> RoundsInRange(bits, Times(a.r, b.r) - Times(a.i, b.i)))
            && (Fits(bits, m.i) <==> RoundsInRange(bits, Times(a.r, b.i) + Times(a.i, b.r)))
  {
    hide Times, Sround, RoundsInRange;
    SroundFits(bits, Times(a.r, b.r) - Times(a.i, b.i));
    SroundFits(bits, Times(a.r, b.i) + Times(a.i, b.r));
  }

  lemma TimesSwap(x: int, y: int)
    ensures Times(x, y) == Times(y, x)
  {}

  /** Parts in range alone are not enough. */
  lemma {:induction false} CMulOverflow(bits: nat)
    requires bits >= 3
    ensures var s := SampMax(bits);
            var m := CMul(bits, Cpx(s, s), Cpx(s, -s));
            !Fits(bits, m.r)
  {
    var s, p, h := SampMax(bits), Pow2(bits), Half(bits);
    assert p == 2 * h && h == 2 * Pow2(bits - 2) && Pow2(bits - 2) == 2 * Pow2(bits - 3);
    hide Floor, Pow2, Half;
    TwiceSquare(p, h);
    FloorBound(Times(s, s) - Times(s, -s) + h, p, 2 * p - 4, 2 * p - 3);
  }

  lemma TwiceSquare(p: int, h: int)
    requires p == 2 * h && h >= 4
    ensures var x := Times(p - 1, p - 1) - Times(p - 1, -(p - 1)) + h;
            Times(p, 2 * p - 4) <= x < Times(p, 2 * p - 3) + p
  {
    assert Times(p - 1, p - 1) == p * p - 2 * p + 1;
    assert Times(p - 1, -(p - 1)) == -(p * p - 2 * p + 1);
    assert Times(p, 2 * p - 4) == 2 * (p * p) - 4 * p;
    assert Times(p, 2 * p - 3) == 2 * (p * p) - 3 * p;
  }

  /** For 15 and for 31 fraction bits sums of products fit the type they are computed in, and so does the rounding. */
  lemma {:induction false} IntermediateFits(bits: nat, a: Cpx, b: Cpx)
    requires bits == 15 || bits == 31
    requires Fits(bits, a.r) && Fits(bits, a.i) && Fits(bits, b.r) && Fits(bits, b.i)
    ensures var limit: int := if bits == 15 then 0x7fff_ffff else 0x7fff_ffff_ffff_ffff;
            && -limit <= Times(a.r, b.r) - Times(a.i, b.i)
            && Times(a.r, b.r) - Times(a.i, b.i) + Half(bits) <= limit
            && -limit <= Times(a.r, b.i) + Times(a.i, b.r)
            && Times(a.r, b.i) + Times(a.i, b.r) + Half(bits) <= limit
  {
    PowValues();
    var s := SampMax(bits);
    ProductBound(a.r, b.r, s);
    ProductBound(a.i, b.i, s);
    ProductBound(a.r, b.i, s);
    ProductBound(a.i, b.r, s);
    hide Pow2;
    assert s == if bits == 15 then 32767 else 2147483647;
    assert Times(32767, 32767) == 1073676289 && Times(2147483647, 2147483647) == 4611686014132420609;
    hide Times;
  }

  lemma PowValues()
    ensures Pow2(14) == 16384 && Pow2(15) == 32768 && Pow2(30) == 1073741824 && Pow2(31) == 2147483648
  {
    assert Pow2(7) == 128;
    assert Pow2(14) == 16384;
    assert Pow2(22) == 4194304;
    assert Pow2(30) == 1073741824;
  }

  lemma ProductBound(x: int, y: int, s: int)
    requires Within(x, s) && Within(y, s)
    ensures Within(Times(x, y), Times(s, s))
  {
    assert (s - x) * (s + y) >= 0 && (s + x) * (s - y) >= 0;
    assert (s - x) * (s - y) >= 0 && (s + x) * (s + y) >= 0;
    assert (s - x) * (s + y) == s * s + s * y - x * s - x * y;
    assert (s + x) * (s - y) == s * s - s * y + x * s - x * y;
    assert (s - x) * (s - y) == s * s - s * y - x * s + x * y;
    assert (s + x) * (s + y) == s * s + s * y + x * s + x * y;
  }

  // Headroom.

  /** DIVSCALAR: multiply by SAMP_MAX/k and round. */
  function DivScalar(bits: nat, x: int, k: nat): int
    requires bits >= 1 && k >= 1
  {
    Sround(bits, Times(x, SampMax(bits) / k))
  }

  /** A sample divided by k is at most the integer quotient of SAMP_MAX and k. */
  lemma {:induction false} DivScalarBound(bits: nat, x: int, k: nat)
    requires bits >= 1 && k >= 1 && Fits(bits, x)
    ensures Within(DivScalar(bits, x, k), SampMax(bits) / k)
  {
    var s, q := SampMax(bits), SampMax(bits) / k;
    assert q >= 0;
    Scaled(x, s, q);
    TimesSwap(s + 1, q);
    hide Times, Sround;
    SroundBound(bits, Times(x, q), q);
  }

  /** k times the result is off by at most three halves of k: what the quotient loses and the rounding. */
  lemma {:induction false} DivScalarIs(bits: nat, x: int, k: nat)
    requires bits >= 1 && k >= 1 && Fits(bits, x)
    ensures Within(2 * (Times(k, DivScalar(bits, x, k)) - x), 3 * k)
  {
    hide Sround, Half, Pow2, Times;
    var p, q := Pow2(bits), SampMax(bits) / k;
    HalfTwice(bits);
    QuotientLoss(p, k);
    SroundNearest(bits, Times(x, q));
    DivideError(p, k, q, x, DivScalar(bits, x, k));
  }

  lemma HalfTwice(bits: nat)
    requires bits >= 1
    ensures Pow2(bits) == 2 * Half(bits) > 0
  {}

  lemma QuotientLoss(p: int, k: nat)
    requires p >= 1 && k >= 1
    ensures 1 <= p - Times(k, (p - 1) / k) <= k
  {
    FloorIs(p - 1, k);
  }

  lemma {:induction false} DivideError(p: int, k: nat, q: int, x: int, r: int)
    requires Within(x, p) && 0 <= p - Times(k, q) <= k && p > 0
    requires Within(2 * (Times(p, r) - Times(x, q)), p)
    ensures Within(2 * (Times(k, r) - x), 3 * k)
  {
    hide Times;
    var loss, off := p - Times(k, q), Times(p, r) - Times(x, q);
    ErrorParts(p, k, q, x, r);
    ShrinkBound(2 * off, p, k);
    DoubleTimes(k, off);
    ProductBounds(x, p, loss, k);
    DoubleTimes(p, Times(k, r) - x);
    TripleTimes(p, k);
    CancelBound(p, 2 * (Times(k, r) - x), 3 * k);
  }

  lemma ErrorParts(p: int, k: int, q: int, x: int, r: int)
    ensures Times(p, Times(k, r) - x) == Times(k, Times(p, r) - Times(x, q)) - Times(x, p - Times(k, q))
  {
    assert p * (k * r - x) == p * (k * r) - p * x;
    assert k * (p * r - x * q) == k * (p * r) - k * (x * q);
    assert x * (p - k * q) == x * p - x * (k * q);
    assert p * (k * r) == k * (p * r) && x * (k * q) == k * (x * q);
  }

  lemma DoubleTimes(a: int, b: int)
    ensures Times(a, 2 * b) == 2 * Times(a, b)
  {}

  lemma TripleTimes(a: int, b: int)
    ensures Times(a, 3 * b) == 3 * Times(a, b) && Times(a, -(3 * b)) == -(3 * Times(a, b))
  {}

  lemma ShrinkBound(x: int, p: int, k: nat)
    requires Within(x, p)
    ensures Within(Times(k, x), Times(p, k))
  {
    assert k * (p - x) >= 0 && k * (p + x) >= 0;
  }

  lemma ProductBounds(x: int, p: int, loss: int, k: nat)
    requires Within(x, p) && 0 <= loss <= k
    ensures Within(Times(x, loss), Times(p, k))
  {
    assert loss * (p - x) >= 0 && loss * (p + x) >= 0;
    assert p * (k - loss) >= 0;
  }

  lemma CancelBound(p: nat, x: int, y: int)
    requires p > 0 && Times(p, -y) <= Times(p, x) <= Times(p, y)
    ensures Within(x, y)
  {
    hide Times;
    TimesNext(p, y);
    TimesNext(p, x);
    TimesMono(p, y + 1, x);
    TimesMono(p, x + 1, -y);
  }

  lemma Scaled(x: int, s: int, q: int)
    requires Within(x, s) && q >= 0
    ensures Within(Times(x, q), Times(s + 1, q))
  {
    assert (s + 1 - x) * q >= 0 && (s + 1 + x) * q >= 0;
    assert (s + 1 - x) * q == (s + 1) * q - x * q;
    assert (s + 1 + x) * q == (s + 1) * q + x * q;
  }

  /** Sums and differences of samples divided by k, in any order and grouping. */
  datatype Sum = Sample(x: int) | Plus(a: Sum, b: Sum) | Minus(a: Sum, b: Sum)

  function Samples(t: Sum): (n: nat)
    ensures n >= 1
  {
    match t
    case Sample(_) => 1
    case Plus(a, b) => Samples(a) + Samples(b)
    case Minus(a, b) => Samples(a) + Samples(b)
  }

  function Value(bits: nat, k: nat, t: Sum): int
    requires bits >= 1 && k >= 1
  {
    match t
    case Sample(x) => DivScalar(bits, x, k)
    case Plus(a, b) => Value(bits, k, a) + Value(bits, k, b)
    case Minus(a, b) => Value(bits, k, a) - Value(bits, k, b)
  }

  /** The sum without any division. */
  function Exact(t: Sum): int {
    match t
    case Sample(x) => x
    case Plus(a, b) => Exact(a) + Exact(b)
    case Minus(a, b) => Exact(a) - Exact(b)
  }

  /** The result is the exact sum divided by k, off by at most one and a half for every sample. */
  lemma {:induction false} Accuracy(bits: nat, k: nat, t: Sum)
    requires bits >= 1 && k >= 1 && Inputs(bits, t)
    ensures Within(2 * (Times(k, Value(bits, k, t)) - Exact(t)), Times(Samples(t), 3 * k))
  {
    match t {
      case Sample(x) => DivScalarIs(bits, x, k);
      case Plus(a, b) =>
        hide Times;
        Accuracy(bits, k, a);
        Accuracy(bits, k, b);
        AddTimes(Samples(a), Samples(b), 3 * k);
        TimesSum(k, Value(bits, k, a), Value(bits, k, b));
      case Minus(a, b) =>
        hide Times;
        Accuracy(bits, k, a);
        Accuracy(bits, k, b);
        AddTimes(Samples(a), Samples(b), 3 * k);
        TimesSum(k, Value(bits, k, a), Value(bits, k, b));
    }
  }

  lemma TimesSum(k: int, a: int, b: int)
    ensures Times(k, a + b) == Times(k, a) + Times(k, b) && Times(k, a - b) == Times(k, a) - Times(k, b)
  {}

  /** All samples are in range before the division. */
  predicate Inputs(bits: nat, t: Sum) {
    match t
    case Sample(x) => Fits(bits, x)
    case Plus(a, b) => Inputs(bits, a) && Inputs(bits, b)
    case Minus(a, b) => Inputs(bits, a) && Inputs(bits, b)
  }

  /** Every sum and difference on the way is in range. */
  predicate NoOverflow(bits: nat, k: nat, t: Sum)
    requires bits >= 1 && k >= 1
  {
    Fits(bits, Value(bits, k, t)) &&
    match t
    case Sample(_) => true
    case Plus(a, b) => NoOverflow(bits, k, a) && NoOverflow(bits, k, b)
    case Minus(a, b) => NoOverflow(bits, k, a) && NoOverflow(bits, k, b)
  }

  lemma {:induction false} ValueBound(bits: nat, k: nat, t: Sum)
    requires bits >= 1 && k >= 1 && Inputs(bits, t)
    ensures Within(Value(bits, k, t), Times(Samples(t), SampMax(bits) / k))
  {
    var q := SampMax(bits) / k;
    match t {
      case Sample(x) => DivScalarBound(bits, x, k);
      case Plus(a, b) =>
        ValueBound(bits, k, a);
        ValueBound(bits, k, b);
        AddTimes(Samples(a), Samples(b), q);
      case Minus(a, b) =>
        ValueBound(bits, k, a);
        ValueBound(bits, k, b);
        AddTimes(Samples(a), Samples(b), q);
    }
  }

  lemma AddTimes(m: int, n: int, q: int)
    ensures Times(m + n, q) == Times(m, q) + Times(n, q)
  {}

  /** Up to k samples divided by k can be added and subtracted in any way without overflow at any point. */
  lemma {:induction false} Headroom(bits: nat, k: nat, t: Sum)
    requires bits >= 1 && k >= 1 && Inputs(bits, t) && Samples(t) <= k
    ensures NoOverflow(bits, k, t)
  {
    ValueBound(bits, k, t);
    Quotient(SampMax(bits), k, Samples(t));
    match t {
      case Sample(_) =>
      case Plus(a, b) =>
        Headroom(bits, k, a);
        Headroom(bits, k, b);
      case Minus(a, b) =>
        Headroom(bits, k, a);
        Headroom(bits, k, b);
    }
  }

  /** More samples than they were divided by can overflow, also on the way to a result that is in range. */
  lemma {:induction false} NoHeadroom(bits: nat)
    requires bits >= 2
    ensures var x := Sample(SampMax(bits));
            && Inputs(bits, Plus(x, x)) && !Fits(bits, Value(bits, 1, Plus(x, x)))
            && Fits(bits, Value(bits, 1, Minus(Plus(x, x), x))) && !NoOverflow(bits, 1, Minus(Plus(x, x), x))
            && !NoOverflow(bits, 1, Plus(Plus(x, x), Minus(x, Plus(x, x))))
  {
    var s := SampMax(bits);
    assert Pow2(bits) == 2 * Pow2(bits - 1) && Pow2(bits - 1) == 2 * Pow2(bits - 2);
    DivScalarIs(bits, s, 1);
    DivScalarBound(bits, s, 1);
    assert Times(1, DivScalar(bits, s, 1)) == DivScalar(bits, s, 1);
    hide DivScalar, Pow2, Times;
  }

  lemma Quotient(s: int, k: nat, n: nat)
    requires 1 <= n <= k && s >= 0
    ensures Times(n, s / k) <= s
  {
    assert k * (s / k) <= s;
    assert n * (s / k) <= k * (s / k);
  }
}
