/** The arithmetic of kiss_fft.c's butterflies in the floating-point configuration, on exact reals:
    each hand-scheduled radix computes the transform of its column. */
module Radix {
  import opened Complex
  import opened Dft
  import opened Modular

  // ----- the twiddle table

  ghost function QuarterTurn(inverse: bool): Cpx {
    Cpx(0.0, if inverse then 1.0 else -1.0)
  }

  ghost predicate IsQuarter(n: nat, q: nat) {
    n == 4 * q
  }

  /** A primitive root that turns clockwise exactly when the transform is forward. */
  ghost predicate Level(w: nat -> Cpx, n: nat, inverse: bool) {
    && Primitive(w, n)
    && (forall q: nat {:trigger IsQuarter(n, q)} :: IsQuarter(n, q) ==> w(q) == QuarterTurn(inverse))
  }

  /** The root of one recursion level, as the code reads it from the shared table. */
  ghost predicate Reads(tw: seq<Cpx>, stride: nat, w: nat -> Cpx) {
    |tw| > 0 && forall e: nat :: w(e) == tw[Times(stride, e) % |tw|]
  }

  /** The powers of the root that a twiddle table holds. */
  ghost function RootOf(tw: seq<Cpx>): nat -> Cpx
    requires |tw| > 0
  {
    (e: nat) => tw[e % |tw|]
  }

  /** What kiss_fft_alloc's cos/sin loop fills in: the powers of a primitive |tw|-th root of unity. */
  ghost predicate Twiddles(tw: seq<Cpx>, inverse: bool) {
    |tw| > 0 && Level(RootOf(tw), |tw|, inverse)
  }

  lemma SubLevelTerm(w: nat -> Cpx, p: nat, a: nat, b: nat)
    ensures Strided(w, p, 0)(a) == w(Cell(p, a, 0))
    ensures Cell(p, a + b, 0) == Cell(p, a, 0) + Cell(p, b, 0)
  {
    assert p * (a + b) == p * a + p * b;
  }

  lemma CellOrder(p: nat, d: nat, m: nat)
    requires p > 0
    ensures Cell(p, 0, 0) == 0
    ensures 0 < d < m ==> 0 < Cell(p, d, 0) < Cell(p, m, 0)
    ensures Cell(p, d, 0) == Cell(d, p, 0)
    ensures 4 * Cell(p, d, 0) == Cell(p, 4 * d, 0)
  {
    if 0 < d < m {
      MulMono(d + 1, m, p);
      MulMono(1, d, p);
    }
  }

  /** The sub-transforms of a p*m-point transform run on the p-th power of its root. */
  lemma {:induction false} SubLevel(w: nat -> Cpx, p: nat, m: nat, inverse: bool)
    requires p > 0 && Level(w, Cell(p, m, 0), inverse)
    ensures Level(Strided(w, p, 0), m, inverse)
  {
    hide Mul, Cell;
    var v, n := Strided(w, p, 0), Cell(p, m, 0);
    forall a: nat, b: nat ensures Pair(v, a, b) == v(a + b) {
      SubLevelTerm(w, p, a, b);
      SubLevelTerm(w, p, b, 0);
      SubLevelTerm(w, p, a + b, 0);
      Compose(w, n, Cell(p, a, 0), Cell(p, b, 0));
    }
    CellOrder(p, 0, m);
    SubLevelTerm(w, p, 0, 0);
    SubLevelTerm(w, p, m, 0);
    forall e: nat ensures UnitPair(v, e) == ONE {
      SubLevelTerm(w, p, e, 0);
      assert UnitPair(w, Cell(p, e, 0)) == ONE;
    }
    forall d: nat | ShortOfTurn(m, d) ensures v(d) != ONE {
      SubLevelTerm(w, p, d, 0);
      CellOrder(p, d, m);
      assert ShortOfTurn(n, Cell(p, d, 0));
    }
    forall q: nat | IsQuarter(m, q) ensures v(q) == QuarterTurn(inverse) {
      SubLevelTerm(w, p, q, 0);
      CellOrder(p, q, m);
      assert IsQuarter(n, Cell(p, q, 0));
    }
  }

  lemma SubReads(tw: seq<Cpx>, stride: nat, w: nat -> Cpx, p: nat)
    requires Reads(tw, stride, w)
    ensures Reads(tw, Times(stride, p), Strided(w, p, 0))
  {
    forall e: nat ensures Strided(w, p, 0)(e) == tw[Times(Times(stride, p), e) % |tw|] {
      assert stride * (p * e) == (stride * p) * e;
      hide Times;
      SubLevelTerm(w, p, e, 0);
    }
  }

  // ----- the arithmetic of one butterfly column

  /** Twiddles of a column: q*(m*q1 + u) turns are r*m turns plus q*u turns, r being q*q1 modulo p. */
  lemma {:induction false} ColumnTwiddle(w: nat -> Cpx, p: nat, m: nat, u: nat, q: nat, q1: nat, r: nat, t: nat)
    requires Root(w, Cell(p, m, 0)) && q * q1 == p * t + r
    ensures w(Times(q, Cell(m, q1, u))) == Mul(w(Times(r, m)), w(Times(q, u)))
  {
    assert q * (m * q1 + u) == (r * m + q * u) + (p * m) * t by {
      assert q * (m * q1) == m * (q * q1) == m * (p * t + r) == (p * m) * t + r * m;
    }
    assert Times(q, Cell(m, q1, u)) == Times(r, m) + Times(q, u) + Times(Cell(p, m, 0), t);
    hide Mul, Times, Cell, Root;
    Turn(w, Cell(p, m, 0), Times(r, m) + Times(q, u), t);
    Compose(w, Cell(p, m, 0), Times(r, m), Times(q, u));
  }

  /** One term of a column: the turned input s of branch q, times a p-th root of unity. */
  lemma {:induction false} ColumnTerm(w: nat -> Cpx, p: nat, m: nat, u: nat, q: nat, q1: nat, r: nat, t: nat, f: Cpx)
    requires Root(w, Cell(p, m, 0)) && q * q1 == p * t + r
    ensures Mul(f, w(Times(q, Cell(m, q1, u)))) == Mul(w(Times(r, m)), Mul(f, w(Times(q, u))))
  {
    ColumnTwiddle(w, p, m, u, q, q1, r, t);
    hide Mul, Times, Cell, Root;
    var z, s := w(Times(r, m)), w(Times(q, u));
    MulAssoc(f, z, s);
    MulCommutes(f, z);
    MulAssoc(z, f, s);
  }

  lemma Sum5(f: nat -> Cpx)
    ensures Sum(2, f) == Add(f(0), f(1))
    ensures Sum(3, f) == Add(Sum(2, f), f(2))
    ensures Sum(4, f) == Add(Sum(3, f), f(3))
    ensures Sum(5, f) == Add(Sum(4, f), f(4))
  {
    assert Sum(1, f) == f(0) by {
      assert f(0) == Cpx(f(0).r, f(0).i);
    }
  }

  /** Branch q of a column, turned by its own twiddle. */
  ghost function Turned(w: nat -> Cpx, b: nat -> Cpx, u: nat, q: nat): Cpx {
    Mul(b(q), w(Times(q, u)))
  }

  /** The twiddle that separates output q1 from output 0 on branch q: a p-th root of unity. */
  ghost function Spoke(w: nat -> Cpx, p: nat, m: nat, q: nat, q1: nat): Cpx
    requires p > 0
  {
    w(Times(q * q1 % p, m))
  }

  /** Every output of a column is a combination of the same turned inputs. */
  lemma {:induction false} ColumnSum(w: nat -> Cpx, b: nat -> Cpx, p: nat, m: nat, u: nat, q1: nat)
    requires p > 0 && Root(w, Cell(p, m, 0))
    ensures Transform(w, b, p, Cell(m, q1, u)) == Sum(p, (q: nat) => Mul(Spoke(w, p, m, q, q1), Turned(w, b, u, q)))
  {
    hide Mul, Times, Cell, Root, Spoke, Turned;
    var k := Cell(m, q1, u);
    var f := (q: nat) => Mul(b(q), w(Times(q, k)));
    var g := (q: nat) => Mul(Spoke(w, p, m, q, q1), Turned(w, b, u, q));
    forall q: nat | q < p ensures f(q) == g(q) {
      ColumnSpoke(w, b, p, m, u, q, q1);
    }
    SumCong(p, f, g);
  }

  lemma {:induction false} ColumnSpoke(w: nat -> Cpx, b: nat -> Cpx, p: nat, m: nat, u: nat, q: nat, q1: nat)
    requires p > 0 && Root(w, Cell(p, m, 0))
    ensures Mul(b(q), w(Times(q, Cell(m, q1, u)))) == Mul(Spoke(w, p, m, q, q1), Turned(w, b, u, q))
  {
    hide Mul, Times, Cell, Root;
    ColumnTerm(w, p, m, u, q, q1, q * q1 % p, q * q1 / p, b(q));
  }

  lemma {:induction false} TurnedZero(w: nat -> Cpx, n: nat, b: nat -> Cpx, u: nat)
    requires Root(w, n)
    ensures Turned(w, b, u, 0) == b(0)
    ensures w(Times(0, u)) == ONE
    ensures w(Times(1, u)) == w(u)
  {
    assert Times(0, u) == 0 && Times(1, u) == u;
    hide Times, Mul;
    Unity(w, n);
    MulOne(b(0));
  }

  /** The columns of radix 2 to 5, written out. */
  lemma {:induction false} Columns(w: nat -> Cpx, b: nat -> Cpx, p: nat, m: nat, u: nat, q1: nat)
    requires 2 <= p <= 5 && Root(w, Cell(p, m, 0))
    ensures Transform(w, b, p, Cell(m, q1, u)) ==
            var f := (q: nat) => Mul(Spoke(w, p, m, q, q1), Turned(w, b, u, q));
            if p == 2 then Add(f(0), f(1))
            else if p == 3 then Add(Add(f(0), f(1)), f(2))
            else if p == 4 then Add(Add(Add(f(0), f(1)), f(2)), f(3))
            else Add(Add(Add(Add(f(0), f(1)), f(2)), f(3)), f(4))
  {
    hide Mul, Times, Cell, Root, Spoke, Turned;
    ColumnSum(w, b, p, m, u, q1);
    Sum5((q: nat) => Mul(Spoke(w, p, m, q, q1), Turned(w, b, u, q)));
  }

  lemma SpokeAt(w: nat -> Cpx, p: nat, m: nat, q: nat, q1: nat, t: nat, r: nat)
    requires r < p && q * q1 == p * t + r
    ensures Spoke(w, p, m, q, q1) == w(Times(r, m))
  {
    DivModUnique(q * q1, p, t, r);
  }

  // ----- radix 2

  function Radix2(f0: Cpx, f1: Cpx, t1: Cpx): (Cpx, Cpx) {
    var t := Mul(f1, t1);
    (Add(f0, t), Sub(f0, t))
  }

  /** Half a turn is -1. */
  lemma {:induction false} HalfTurn(w: nat -> Cpx, m: nat, inverse: bool)
    requires m > 0 && Level(w, Cell(2, m, 0), inverse)
    ensures w(m) == Cpx(-1.0, 0.0)
  {
    hide Mul;
    var z := w(m);
    Compose(w, Cell(2, m, 0), m, m);
    assert ShortOfTurn(Cell(2, m, 0), m);
    hide Level;
    RootsOfOne(z);
  }

  lemma RootsOfOne(z: Cpx)
    requires Mul(z, z) == ONE && z != ONE
    ensures z == Cpx(-1.0, 0.0)
  {
    var plus := Cpx(z.r + 1.0, z.i);
    assert Mul(Sub(z, ONE), plus) == ZERO;
    hide Mul;
    NoZeroDivisors(Sub(z, ONE), plus);
    assert z == Cpx(z.r, z.i);
  }

  lemma {:induction false} Radix2Correct(w: nat -> Cpx, b: nat -> Cpx, m: nat, u: nat, inverse: bool)
    requires m > 0 && Level(w, Cell(2, m, 0), inverse)
    ensures Radix2(b(0), b(1), w(u)).0 == Transform(w, b, 2, Cell(m, 0, u))
    ensures Radix2(b(0), b(1), w(u)).1 == Transform(w, b, 2, Cell(m, 1, u))
  {
    hide Mul, Times, Cell, Primitive, Root, Spoke;
    PrimitiveFacts(w, Cell(2, m, 0), 0);
    TurnedZero(w, Cell(2, m, 0), b, u);
    TurnedZero(w, Cell(2, m, 0), b, m);
    HalfTurn(w, m, inverse);
    hide Level;
    Columns(w, b, 2, m, u, 0);
    Columns(w, b, 2, m, u, 1);
    SpokeAt(w, 2, m, 0, 0, 0, 0);
    SpokeAt(w, 2, m, 1, 0, 0, 0);
    SpokeAt(w, 2, m, 0, 1, 0, 0);
    SpokeAt(w, 2, m, 1, 1, 0, 1);
    var s1 := Turned(w, b, u, 1);
    MulOne(b(0));
    MulOne(s1);
    MinusOne(s1);
  }

  lemma MinusOne(s: Cpx)
    ensures Mul(Cpx(-1.0, 0.0), s) == Sub(ZERO, s)
  {}

  /** A value scaled and turned clockwise by a right angle. */
  function Rot(d: Cpx, c: real): Cpx {
    Cpx(d.i * c, -(d.r * c))
  }

  /** a times the real part of y, plus d turned by a right angle times its imaginary part. */
  function Mix(a: Cpx, d: Cpx, y: Cpx): Cpx {
    Sub(Scale(a, y.r), Rot(d, y.i))
  }

  lemma RotNeg(d: Cpx, c: real)
    ensures Rot(Neg(d), c) == Rot(d, -c) == Neg(Rot(d, c))
  {}

  /** Conjugate multipliers on two branches act on their sum and their difference. */
  lemma ConjugatePair(y: Cpx, s: Cpx, t: Cpx)
    ensures Add(Mul(y, s), Mul(Conj(y), t)) == Mix(Add(s, t), Sub(s, t), y)
    ensures Add(Mul(Conj(y), s), Mul(y, t)) == Mix(Add(s, t), Neg(Sub(s, t)), y)
  {
    ConjugatePairPlus(y, s, t);
    ConjugatePairPlus(Conj(y), s, t);
    MixConj(Add(s, t), Sub(s, t), y);
    hide Mul, Mix;
    assert Conj(Conj(y)) == y;
  }

  lemma ConjugatePairPlus(y: Cpx, s: Cpx, t: Cpx)
    ensures Add(Mul(y, s), Mul(Conj(y), t)) == Mix(Add(s, t), Sub(s, t), y)
  {
    hide Mul, Scale, Rot;
    MulParts(y, s);
    MulParts(Conj(y), t);
    RotMinus(t, y.i);
    ScaleSum(s, t, y.r);
    RotDifference(s, t, y.i);
  }

  lemma MulParts(y: Cpx, s: Cpx)
    ensures Mul(y, s) == Sub(Scale(s, y.r), Rot(s, y.i))
  {}

  lemma RotMinus(d: Cpx, c: real)
    ensures Rot(d, -c) == Neg(Rot(d, c))
  {}

  lemma ScaleSum(s: Cpx, t: Cpx, c: real)
    ensures Scale(Add(s, t), c) == Add(Scale(s, c), Scale(t, c))
  {}

  lemma RotDifference(s: Cpx, t: Cpx, c: real)
    ensures Rot(Sub(s, t), c) == Sub(Rot(s, c), Rot(t, c))
  {}

  lemma MixConj(a: Cpx, d: Cpx, y: Cpx)
    ensures Mix(a, d, Conj(y)) == Mix(a, Neg(d), y)
  {
    hide Scale, Rot;
    RotNeg(d, y.i);
  }

  // ----- radix 3

  function Radix3(f0: Cpx, f1: Cpx, f2: Cpx, t1: Cpx, t2: Cpx, epi3: Cpx): (Cpx, Cpx, Cpx) {
    var s1, s2 := Mul(f1, t1), Mul(f2, t2);
    Wheel3(f0, s1, s2, epi3)
  }

  /** The part of a radix-3 column that follows the twiddle products. */
  function Wheel3(f0: Cpx, s1: Cpx, s2: Cpx, epi3: Cpx): (Cpx, Cpx, Cpx) {
    var s3, d := Add(s1, s2), Sub(s1, s2);
    var h := Cpx(f0.r - s3.r * 0.5, f0.i - s3.i * 0.5);
    var s0 := Cpx(d.r * epi3.i, d.i * epi3.i);
    (Add(f0, s3), Cpx(h.r - s0.i, h.i + s0.r), Cpx(h.r + s0.i, h.i - s0.r))
  }

  /** Exponents that add up to a whole turn name conjugate numbers. */
  lemma {:induction false} Opposite(w: nat -> Cpx, n: nat, a: nat, b: nat)
    requires Primitive(w, n) && a + b == n
    ensures w(b) == Conj(w(a))
  {
    hide Mul, Primitive, Root;
    PrimitiveFacts(w, n, a);
    Compose(w, n, b, a);
    Unity(w, n);
    MulAssoc(w(b), w(a), Conj(w(a)));
    MulOne(w(b));
    MulOne(Conj(w(a)));
  }

  lemma CubeRoot(z: Cpx)
    requires Mul(z, z) == Conj(z) && Mul(z, Conj(z)) == ONE && z != ONE
    ensures z.r == -0.5
  {
    assert z == Cpx(z.r, z.i);
    CubeRootParts(z.r, z.i);
  }

  lemma CubeRootParts(x: real, y: real)
    requires x * x - y * y == x && x * y + y * x == -y && x * x + y * y == 1.0
    requires x != 1.0 || y != 0.0
    ensures x == -0.5
  {
    assert y * (2.0 * x + 1.0) == 0.0;
  }

  /** A third of a turn has real part -1/2; two thirds are its conjugate. */
  lemma {:induction false} ThirdTurn(w: nat -> Cpx, m: nat, inverse: bool)
    requires m > 0 && Level(w, Cell(3, m, 0), inverse)
    ensures w(m).r == -0.5 && w(Times(2, m)) == Conj(w(m))
  {
    hide Mul, Cell, Times, Primitive, Root;
    Multiples(m);
    Opposite(w, Cell(3, m, 0), m, Times(2, m));
    PrimitiveFacts(w, Cell(3, m, 0), m);
    Compose(w, Cell(3, m, 0), m, m);
    CubeRoot(w(m));
  }

  lemma Wheel3Correct(f0: Cpx, s1: Cpx, s2: Cpx, z: Cpx)
    requires z.r == -0.5
    ensures Wheel3(f0, s1, s2, z).0 == Add(Add(f0, s1), s2)
    ensures Wheel3(f0, s1, s2, z).1 == Add(Add(f0, Mul(z, s1)), Mul(Conj(z), s2))
    ensures Wheel3(f0, s1, s2, z).2 == Add(Add(f0, Mul(Conj(z), s1)), Mul(z, s2))
  {
    hide Mul;
    ConjugatePair(z, s1, s2);
  }

  lemma {:induction false} Radix3Correct(w: nat -> Cpx, b: nat -> Cpx, m: nat, u: nat, inverse: bool)
    requires m > 0 && Level(w, Cell(3, m, 0), inverse)
    ensures Radix3(b(0), b(1), b(2), w(u), w(Times(2, u)), w(m)).0 == Transform(w, b, 3, Cell(m, 0, u))
    ensures Radix3(b(0), b(1), b(2), w(u), w(Times(2, u)), w(m)).1 == Transform(w, b, 3, Cell(m, 1, u))
    ensures Radix3(b(0), b(1), b(2), w(u), w(Times(2, u)), w(m)).2 == Transform(w, b, 3, Cell(m, 2, u))
  {
    hide Mul, Times, Cell, Primitive, Root, Spoke, Wheel3;
    var n := Cell(3, m, 0);
    PrimitiveFacts(w, n, 0);
    TurnedZero(w, n, b, u);
    TurnedZero(w, n, b, m);
    ThirdTurn(w, m, inverse);
    hide Level;
    Columns(w, b, 3, m, u, 0);
    Columns(w, b, 3, m, u, 1);
    Columns(w, b, 3, m, u, 2);
    SpokeAt(w, 3, m, 0, 0, 0, 0);
    SpokeAt(w, 3, m, 1, 0, 0, 0);
    SpokeAt(w, 3, m, 2, 0, 0, 0);
    SpokeAt(w, 3, m, 0, 1, 0, 0);
    SpokeAt(w, 3, m, 1, 1, 0, 1);
    SpokeAt(w, 3, m, 2, 1, 0, 2);
    SpokeAt(w, 3, m, 0, 2, 0, 0);
    SpokeAt(w, 3, m, 1, 2, 0, 2);
    SpokeAt(w, 3, m, 2, 2, 1, 1);
    var s1, s2 := Turned(w, b, u, 1), Turned(w, b, u, 2);
    MulOne(b(0));
    MulOne(s1);
    MulOne(s2);
    Wheel3Correct(b(0), s1, s2, w(m));
  }

  // ----- radix 4

  function Radix4(f0: Cpx, f1: Cpx, f2: Cpx, f3: Cpx, t1: Cpx, t2: Cpx, t3: Cpx, inverse: bool): (Cpx, Cpx, Cpx, Cpx) {
    var s0, s1, s2 := Mul(f1, t1), Mul(f2, t2), Mul(f3, t3);
    Wheel4(f0, s0, s1, s2, inverse)
  }

  function Wheel4(f0: Cpx, s0: Cpx, s1: Cpx, s2: Cpx, inverse: bool): (Cpx, Cpx, Cpx, Cpx) {
    var s5 := Sub(f0, s1);
    var g0 := Add(f0, s1);
    var s3, s4 := Add(s0, s2), Sub(s0, s2);
    var plus, minus := Cpx(s5.r - s4.i, s5.i + s4.r), Cpx(s5.r + s4.i, s5.i - s4.r);
    if inverse then (Add(g0, s3), plus, Sub(g0, s3), minus) else (Add(g0, s3), minus, Sub(g0, s3), plus)
  }

  lemma Multiples(m: nat)
    ensures Times(2, m) == m + m
    ensures Cell(3, m, 0) == m + Times(2, m)
    ensures Cell(4, m, 0) == m + Times(3, m)
    ensures Cell(5, m, 0) == m + Times(4, m) == Times(2, m) + Times(3, m)
  {}

  lemma LevelQuarter(w: nat -> Cpx, m: nat, inverse: bool)
    requires Level(w, Cell(4, m, 0), inverse)
    ensures Primitive(w, Cell(4, m, 0)) && w(m) == QuarterTurn(inverse)
  {
    assert IsQuarter(Cell(4, m, 0), m);
  }

  lemma {:induction false} QuarterTurns(w: nat -> Cpx, m: nat, inverse: bool)
    requires m > 0 && Level(w, Cell(4, m, 0), inverse)
    ensures w(m) == QuarterTurn(inverse)
    ensures w(Times(2, m)) == Cpx(-1.0, 0.0)
    ensures w(Times(3, m)) == Conj(w(m))
  {
    hide Mul, Cell, Times, Primitive, Root;
    Multiples(m);
    LevelQuarter(w, m, inverse);
    hide Level;
    PrimitiveFacts(w, Cell(4, m, 0), m);
    Opposite(w, Cell(4, m, 0), m, Times(3, m));
    Compose(w, Cell(4, m, 0), m, m);
    RightAngles(QuarterTurn(inverse));
  }

  lemma RightAngles(s: Cpx)
    ensures Mul(Cpx(0.0, 1.0), s) == Cpx(-s.i, s.r)
    ensures Mul(Cpx(0.0, -1.0), s) == Cpx(s.i, -s.r)
    ensures Mul(Cpx(-1.0, 0.0), s) == Cpx(-s.r, -s.i)
  {}

  lemma Wheel4Correct(f0: Cpx, s0: Cpx, s1: Cpx, s2: Cpx, inverse: bool)
    ensures var z := QuarterTurn(inverse);
            var x := Wheel4(f0, s0, s1, s2, inverse);
            var neg := Cpx(-1.0, 0.0);
            && x.0 == Add(Add(Add(f0, s0), s1), s2)
            && x.1 == Add(Add(Add(f0, Mul(z, s0)), Mul(neg, s1)), Mul(Conj(z), s2))
            && x.2 == Add(Add(Add(f0, Mul(neg, s0)), s1), Mul(neg, s2))
            && x.3 == Add(Add(Add(f0, Mul(Conj(z), s0)), Mul(neg, s1)), Mul(z, s2))
  {
    hide Mul;
    RightAngles(s0);
    RightAngles(s1);
    RightAngles(s2);
  }

  lemma {:induction false} Radix4Correct(w: nat -> Cpx, b: nat -> Cpx, m: nat, u: nat, inverse: bool)
    requires m > 0 && Level(w, Cell(4, m, 0), inverse)
    ensures var x := Radix4(b(0), b(1), b(2), b(3), w(u), w(Times(2, u)), w(Times(3, u)), inverse);
            && x.0 == Transform(w, b, 4, Cell(m, 0, u))
            && x.1 == Transform(w, b, 4, Cell(m, 1, u))
            && x.2 == Transform(w, b, 4, Cell(m, 2, u))
            && x.3 == Transform(w, b, 4, Cell(m, 3, u))
  {
    hide Mul, Times, Cell, Primitive, Root, Spoke, Wheel4;
    var n := Cell(4, m, 0);
    PrimitiveFacts(w, n, 0);
    TurnedZero(w, n, b, u);
    TurnedZero(w, n, b, m);
    QuarterTurns(w, m, inverse);
    hide Level, QuarterTurn;
    Columns(w, b, 4, m, u, 0);
    Columns(w, b, 4, m, u, 1);
    Columns(w, b, 4, m, u, 2);
    Columns(w, b, 4, m, u, 3);
    Spokes4(w, m);
    var s1, s2, s3 := Turned(w, b, u, 1), Turned(w, b, u, 2), Turned(w, b, u, 3);
    MulOne(b(0));
    MulOne(s1);
    MulOne(s2);
    MulOne(s3);
    Wheel4Correct(b(0), s1, s2, s3, inverse);
  }

  lemma Spokes4(w: nat -> Cpx, m: nat)
    ensures forall q: nat, q1: nat | q < 4 && q1 < 4 && (q == 0 || q1 == 0) :: Spoke(w, 4, m, q, q1) == w(Times(0, m))
    ensures Spoke(w, 4, m, 1, 1) == Spoke(w, 4, m, 3, 3) == w(Times(1, m))
    ensures Spoke(w, 4, m, 1, 2) == Spoke(w, 4, m, 2, 1) == Spoke(w, 4, m, 2, 3) == Spoke(w, 4, m, 3, 2)
            == w(Times(2, m))
    ensures Spoke(w, 4, m, 1, 3) == Spoke(w, 4, m, 3, 1) == w(Times(3, m))
    ensures Spoke(w, 4, m, 2, 2) == w(Times(0, m))
  {
    hide Times;
  }

  // ----- radix 5

  function Radix5(f0: Cpx, f1: Cpx, f2: Cpx, f3: Cpx, f4: Cpx, t1: Cpx, t2: Cpx, t3: Cpx, t4: Cpx, ya: Cpx, yb: Cpx)
    : (Cpx, Cpx, Cpx, Cpx, Cpx)
  {
    var s1, s2, s3, s4 := Mul(f1, t1), Mul(f2, t2), Mul(f3, t3), Mul(f4, t4);
    Wheel5(f0, s1, s2, s3, s4, ya, yb)
  }

  function Wheel5(s0: Cpx, s1: Cpx, s2: Cpx, s3: Cpx, s4: Cpx, ya: Cpx, yb: Cpx): (Cpx, Cpx, Cpx, Cpx, Cpx) {
    Spread5(s0, Add(s1, s4), Add(s2, s3), Sub(s2, s3), Sub(s1, s4), ya, yb)
  }

  function Spread5(s0: Cpx, s7: Cpx, s8: Cpx, s9: Cpx, s10: Cpx, ya: Cpx, yb: Cpx): (Cpx, Cpx, Cpx, Cpx, Cpx) {
    var x0 := Cpx(s0.r + (s7.r + s8.r), s0.i + (s7.i + s8.i));
    var s5 := Add(Add(s0, Scale(s7, ya.r)), Scale(s8, yb.r));
    var s6 := Add(Rot(s10, ya.i), Rot(s9, yb.i));
    var s11 := Add(Add(s0, Scale(s7, yb.r)), Scale(s8, ya.r));
    var s12 := Add(Neg(Rot(s10, yb.i)), Rot(s9, ya.i));
    (x0, Sub(s5, s6), Add(s11, s12), Sub(s11, s12), Add(s5, s6))
  }

  lemma {:induction false} Spread5Correct(s0: Cpx, s7: Cpx, s8: Cpx, s9: Cpx, s10: Cpx, ya: Cpx, yb: Cpx)
    ensures var x := Spread5(s0, s7, s8, s9, s10, ya, yb);
            && x.0 == Add(s0, Add(s7, s8))
            && x.1 == Add(Add(s0, Mix(s7, s10, ya)), Mix(s8, s9, yb))
            && x.2 == Add(Add(s0, Mix(s7, s10, yb)), Mix(s8, Neg(s9), ya))
            && x.3 == Add(Add(s0, Mix(s7, Neg(s10), yb)), Mix(s8, s9, ya))
            && x.4 == Add(Add(s0, Mix(s7, Neg(s10), ya)), Mix(s8, Neg(s9), yb))
  {
    hide Scale, Rot;
    RotNeg(s9, ya.i);
    RotNeg(s9, yb.i);
    RotNeg(s10, ya.i);
    RotNeg(s10, yb.i);
  }

  lemma {:induction false} Wheel5Correct(s0: Cpx, s1: Cpx, s2: Cpx, s3: Cpx, s4: Cpx, ya: Cpx, yb: Cpx)
    ensures var x := Wheel5(s0, s1, s2, s3, s4, ya, yb);
            && x.0 == Add(Add(Add(Add(s0, s1), s2), s3), s4)
            && x.1 == Add(Add(Add(Add(s0, Mul(ya, s1)), Mul(yb, s2)), Mul(Conj(yb), s3)), Mul(Conj(ya), s4))
            && x.2 == Add(Add(Add(Add(s0, Mul(yb, s1)), Mul(Conj(ya), s2)), Mul(ya, s3)), Mul(Conj(yb), s4))
            && x.3 == Add(Add(Add(Add(s0, Mul(Conj(yb), s1)), Mul(ya, s2)), Mul(Conj(ya), s3)), Mul(yb, s4))
            && x.4 == Add(Add(Add(Add(s0, Mul(Conj(ya), s1)), Mul(Conj(yb), s2)), Mul(yb, s3)), Mul(ya, s4))
  {
    hide Mul, Mix, Spread5;
    ConjugatePair(ya, s1, s4);
    ConjugatePair(yb, s2, s3);
    ConjugatePair(yb, s1, s4);
    ConjugatePair(ya, s2, s3);
    Spread5Correct(s0, Add(s1, s4), Add(s2, s3), Sub(s2, s3), Sub(s1, s4), ya, yb);
  }

  lemma {:induction false} FifthTurns(w: nat -> Cpx, m: nat)
    requires Primitive(w, Cell(5, m, 0))
    ensures w(Times(3, m)) == Conj(w(Times(2, m)))
    ensures w(Times(4, m)) == Conj(w(m))
  {
    hide Mul, Cell, Times, Primitive, Root;
    Multiples(m);
    Opposite(w, Cell(5, m, 0), m, Times(4, m));
    Opposite(w, Cell(5, m, 0), Times(2, m), Times(3, m));
  }

  lemma Spokes5(w: nat -> Cpx, m: nat)
    ensures forall q: nat, q1: nat | q < 5 && q1 < 5 && (q == 0 || q1 == 0) :: Spoke(w, 5, m, q, q1) == w(Times(0, m))
    ensures Spoke(w, 5, m, 1, 1) == Spoke(w, 5, m, 2, 3) == Spoke(w, 5, m, 3, 2) == Spoke(w, 5, m, 4, 4)
            == w(Times(1, m))
    ensures Spoke(w, 5, m, 1, 2) == Spoke(w, 5, m, 2, 1) == Spoke(w, 5, m, 3, 4) == Spoke(w, 5, m, 4, 3)
            == w(Times(2, m))
    ensures Spoke(w, 5, m, 1, 3) == Spoke(w, 5, m, 3, 1) == Spoke(w, 5, m, 2, 4) == Spoke(w, 5, m, 4, 2)
            == w(Times(3, m))
    ensures Spoke(w, 5, m, 1, 4) == Spoke(w, 5, m, 4, 1) == Spoke(w, 5, m, 2, 2) == Spoke(w, 5, m, 3, 3)
            == w(Times(4, m))
  {
    hide Times;
  }

  lemma {:induction false} Radix5Correct(w: nat -> Cpx, b: nat -> Cpx, m: nat, u: nat, inverse: bool)
    requires m > 0 && Level(w, Cell(5, m, 0), inverse)
    ensures var x := Radix5(b(0), b(1), b(2), b(3), b(4), w(u), w(Times(2, u)), w(Times(3, u)), w(Times(4, u)),
                            w(m), w(Times(2, m)));
            && x.0 == Transform(w, b, 5, Cell(m, 0, u))
            && x.1 == Transform(w, b, 5, Cell(m, 1, u))
            && x.2 == Transform(w, b, 5, Cell(m, 2, u))
            && x.3 == Transform(w, b, 5, Cell(m, 3, u))
            && x.4 == Transform(w, b, 5, Cell(m, 4, u))
  {
    hide Mul, Times, Cell, Primitive, Root, Spoke, Wheel5;
    var n := Cell(5, m, 0);
    hide Transform;
    PrimitiveFacts(w, n, 0);
    TurnedZero(w, n, b, u);
    TurnedZero(w, n, b, m);
    FifthTurns(w, m);
    hide Level;
    Columns(w, b, 5, m, u, 0);
    Columns(w, b, 5, m, u, 1);
    Columns(w, b, 5, m, u, 2);
    Columns(w, b, 5, m, u, 3);
    Columns(w, b, 5, m, u, 4);
    Spokes5(w, m);
    var s1, s2, s3, s4 := Turned(w, b, u, 1), Turned(w, b, u, 2), Turned(w, b, u, 3), Turned(w, b, u, 4);
    MulOne(b(0));
    MulOne(s1);
    MulOne(s2);
    MulOne(s3);
    MulOne(s4);
    Wheel5Correct(b(0), s1, s2, s3, s4, w(m), w(Times(2, m)));
  }
}
