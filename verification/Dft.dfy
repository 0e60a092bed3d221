/** The discrete Fourier transform over an exact root of unity: the reference that kiss_fft.c is
    measured against, its decimation step, and its inversion. */
module Dft {
  import opened Complex

  ghost function Pair(w: nat -> Cpx, a: nat, b: nat): Cpx {
    Mul(w(a), w(b))
  }

  /** w(0), w(1), ... are the powers of a root of unity of order dividing n. */
  ghost predicate Root(w: nat -> Cpx, n: nat) {
    && (forall a: nat, b: nat :: Pair(w, a, b) == w(a + b))
    && w(0) == w(n) == ONE
  }

  function Times(j: nat, k: nat): nat {
    j * k
  }

  /** Bin k of the n-point transform of x over the root w. */
  ghost function Transform(w: nat -> Cpx, x: nat -> Cpx, n: nat, k: nat): Cpx {
    Sum(n, (j: nat) => Mul(x(j), w(Times(j, k))))
  }

  lemma {:induction false} TransformCong(w: nat -> Cpx, x: nat -> Cpx, w': nat -> Cpx, x': nat -> Cpx, n: nat, k: nat)
    requires forall j: nat :: j < n ==> x(j) == x'(j)
    requires forall e: nat :: w(e) == w'(e)
    ensures Transform(w, x, n, k) == Transform(w', x', n, k)
  {
    hide Mul, Times;
    SumCong(n, (j: nat) => Mul(x(j), w(Times(j, k))), (j: nat) => Mul(x'(j), w'(Times(j, k))));
  }

  lemma Compose(w: nat -> Cpx, n: nat, a: nat, b: nat)
    requires Root(w, n)
    ensures Mul(w(a), w(b)) == w(a + b)
  {
    assert Pair(w, a, b) == w(a + b);
  }

  lemma Unity(w: nat -> Cpx, n: nat)
    requires Root(w, n)
    ensures w(0) == w(n) == ONE
  {}

  lemma TimesSteps(n: nat, k: nat)
    ensures Times(n, 0) == Times(0, n) == 0
    ensures Times(n, k + 1) == Times(n, k) + n
    ensures Times(n, k) == Times(k, n)
  {}

  lemma {:induction false} WholeTurns(w: nat -> Cpx, n: nat, k: nat)
    requires Root(w, n)
    ensures w(Times(n, k)) == ONE
  {
    hide Mul, Times, Root;
    Unity(w, n);
    if k == 0 {
      TimesSteps(n, k);
    } else {
      WholeTurns(w, n, k - 1);
      TimesSteps(n, k - 1);
      Compose(w, n, Times(n, k - 1), n);
      MulOne(ONE);
    }
  }

  /** Adding a whole number of turns to the exponent changes nothing. */
  lemma {:induction false} Turn(w: nat -> Cpx, n: nat, a: nat, k: nat)
    requires Root(w, n)
    ensures w(a + Times(n, k)) == w(a)
  {
    hide Mul, Root, Times;
    WholeTurns(w, n, k);
    Compose(w, n, a, Times(n, k));
    MulOne(w(a));
  }

  /** Element n of the decimation of x that keeps every p-th sample, starting at q. */
  ghost function Strided(x: nat -> Cpx, p: nat, q: nat): nat -> Cpx {
    (n: nat) => x(Cell(p, n, q))
  }

  lemma StridedAt(x: nat -> Cpx, p: nat, q: nat, n: nat)
    ensures Strided(x, p, q)(n) == x(Cell(p, n, q))
  {}

  lemma Exponents(p: nat, m: nat, n: nat, q: nat, u: nat, q1: nat)
    ensures Cell(p, Times(n, u), 0) + Times(Cell(p, m, 0), Times(n, q1)) + Times(q, Cell(m, q1, u)) ==
            Times(Cell(p, n, q), Cell(m, q1, u))
  {
    assert (p * m) * (n * q1) == (p * n) * (m * q1);
    assert p * (n * u) == (p * n) * u;
    assert (p * n) * u + (p * n) * (m * q1) == (p * n) * (u + m * q1);
  }

  /** The exponent identity behind one decimation step. */
  lemma {:induction false} TwiddleSplit(w: nat -> Cpx, p: nat, m: nat, n: nat, q: nat, u: nat, q1: nat)
    requires Root(w, Cell(p, m, 0))
    ensures Mul(w(Cell(p, Times(n, u), 0)), w(Times(q, Cell(m, q1, u)))) == w(Times(Cell(p, n, q), Cell(m, q1, u)))
  {
    Exponents(p, m, n, q, u, q1);
    hide Mul, Root, Times, Cell;
    var e, g := Cell(p, Times(n, u), 0), Times(q, Cell(m, q1, u));
    Turn(w, Cell(p, m, 0), e, Times(n, q1));
    Compose(w, Cell(p, m, 0), e + Times(Cell(p, m, 0), Times(n, q1)), g);
  }

  lemma {:induction false} DecimateColumn(w: nat -> Cpx, x: nat -> Cpx, p: nat, m: nat, u: nat, q1: nat, q: nat)
    requires Root(w, Cell(p, m, 0))
    ensures Sum(m, (n: nat) => Mul(x(Cell(p, n, q)), w(Times(Cell(p, n, q), Cell(m, q1, u))))) ==
            Mul(Transform(Strided(w, p, 0), Strided(x, p, q), m, u), w(Times(q, Cell(m, q1, u))))
  {
    hide Mul, Root, Times, Cell;
    var k := Cell(m, q1, u);
    var c := w(Times(q, k));
    var inner := (n: nat) => Mul(Strided(x, p, q)(n), Strided(w, p, 0)(Times(n, u)));
    var outer := (n: nat) => Mul(x(Cell(p, n, q)), w(Times(Cell(p, n, q), k)));
    forall n: nat | n < m
      ensures outer(n) == Mul(c, inner(n))
    {
      TwiddleSplit(w, p, m, n, q, u, q1);
      MulAssoc(x(Cell(p, n, q)), w(Cell(p, Times(n, u), 0)), c);
      StridedAt(x, p, q, n);
      StridedAt(w, p, 0, Times(n, u));
      MulCommutes(c, inner(n));
    }
    SumCong(m, outer, (n: nat) => Mul(c, inner(n)));
    SumScale(m, c, inner);
    MulCommutes(c, Sum(m, inner));
  }

  /** Cooley-Tukey: bin m*q1 + u of a p*m-point transform is bin m*q1 + u of the p-point transform of
      the values that the p decimated m-point transforms take at bin u. */
  lemma {:induction false} Decimate(w: nat -> Cpx, x: nat -> Cpx, p: nat, m: nat, u: nat, q1: nat)
    requires Root(w, Cell(p, m, 0))
    ensures Transform(w, x, Cell(p, m, 0), Cell(m, q1, u)) ==
            Transform(w, (q: nat) => Transform(Strided(w, p, 0), Strided(x, p, q), m, u), p, Cell(m, q1, u))
  {
    hide Mul, Root, Times, Cell;
    var k := Cell(m, q1, u);
    var term := (j: nat) => Mul(x(j), w(Times(j, k)));
    var b := (q: nat) => Transform(Strided(w, p, 0), Strided(x, p, q), m, u);
    SumColumns(p, m, term);
    var columns := (q: nat) => Sum(m, (n: nat) => term(Cell(p, n, q)));
    var columns' := (q: nat) => Mul(b(q), w(Times(q, k)));
    forall q: nat | q < p
      ensures columns(q) == columns'(q)
    {
      DecimateColumn(w, x, p, m, u, q1, q);
      SumCong(m, (n: nat) => term(Cell(p, n, q)), (n: nat) => Mul(x(Cell(p, n, q)), w(Times(Cell(p, n, q), k))));
    }
    SumCong(p, columns, columns');
  }

  // ----- inversion

  ghost function UnitPair(w: nat -> Cpx, e: nat): Cpx {
    Mul(w(e), Conj(w(e)))
  }

  ghost predicate ShortOfTurn(n: nat, d: nat) {
    0 < d < n
  }

  /** A root of order exactly n on the unit circle. */
  ghost predicate Primitive(w: nat -> Cpx, n: nat) {
    && Root(w, n)
    && (forall e: nat :: UnitPair(w, e) == ONE)
    && (forall d: nat {:trigger ShortOfTurn(n, d)} :: ShortOfTurn(n, d) ==> w(d) != ONE)
  }

  /** The root of the transform in the other direction. */
  ghost function ConjRoot(w: nat -> Cpx): nat -> Cpx {
    (e: nat) => Conj(w(e))
  }

  lemma ConjRootAt(w: nat -> Cpx, e: nat)
    ensures ConjRoot(w)(e) == Conj(w(e))
  {}

  lemma ConjRootIsRoot(w: nat -> Cpx, n: nat)
    requires Root(w, n)
    ensures Root(ConjRoot(w), n)
  {
    var v := ConjRoot(w);
    hide Mul;
    forall a: nat, b: nat
      ensures Pair(v, a, b) == v(a + b)
    {
      ConjMul(w(a), w(b));
      Compose(w, n, a, b);
    }
  }

  lemma {:induction false} SumShift(n: nat, f: nat -> Cpx)
    ensures Add(f(0), Sum(n, (k: nat) => f(k + 1))) == Add(Sum(n, f), f(n))
  {
    if n != 0 {
      SumShift(n - 1, f);
    }
  }

  /** The powers of a root other than 1 cancel over a whole turn. */
  lemma {:induction false} GeometricZero(w: nat -> Cpx, n: nat, d: nat)
    requires Root(w, n) && w(d) != ONE
    ensures Sum(n, (k: nat) => w(Times(d, k))) == ZERO
  {
    hide Mul, Root, Times;
    var f := (k: nat) => w(Times(d, k));
    var s := Sum(n, f);
    SumScale(n, w(d), f);
    forall k: nat | k < n
      ensures Mul(w(d), f(k)) == f(k + 1)
    {
      Compose(w, n, d, Times(d, k));
      TimesSteps(d, k);
    }
    SumCong(n, (k: nat) => Mul(w(d), f(k)), (k: nat) => f(k + 1));
    SumShift(n, f);
    Unity(w, n);
    TimesSteps(d, n);
    WholeTurns(w, n, d);
    assert Mul(w(d), s) == s;
    FixedPoint(w(d), s);
  }

  lemma FixedPoint(z: Cpx, s: Cpx)
    requires Mul(z, s) == s && z != ONE
    ensures s == ZERO
  {
    assert Mul(Sub(z, ONE), s) == ZERO;
    hide Mul;
    NoZeroDivisors(Sub(z, ONE), s);
    assert z == Cpx(z.r, z.i);
  }

  lemma {:induction false} PrimitiveFacts(w: nat -> Cpx, n: nat, e: nat)
    requires Primitive(w, n)
    ensures Root(w, n)
    ensures Mul(w(e), Conj(w(e))) == ONE
    ensures 0 < e < n ==> w(e) != ONE
  {
    assert UnitPair(w, e) == ONE;
    assert ShortOfTurn(n, e) <==> 0 < e < n;
    hide Root;
  }

  lemma {:induction false} SumOnes(n: nat, f: nat -> Cpx)
    requires forall k: nat :: k < n ==> f(k) == ONE
    ensures Sum(n, f) == Cpx(n as real, 0.0)
  {
    if n != 0 {
      SumOnes(n - 1, f);
    }
  }

  lemma TimesSplit(d: nat, j: nat, k: nat)
    ensures Times(j + d, k) == Times(k, j + d) == Times(d, k) + Times(k, j)
    ensures Times(k, j) == Times(j, k)
  {
    assert d * k + k * j == (j + d) * k;
  }

  /** w^(ik) times the conjugate of w^(kj) depends on the difference of i and j only. */
  lemma {:induction false} Difference(w: nat -> Cpx, n: nat, j: nat, d: nat, k: nat)
    requires Primitive(w, n)
    ensures Mul(w(Times(j + d, k)), Conj(w(Times(k, j)))) == w(Times(d, k))
    ensures Mul(w(Times(j, k)), Conj(w(Times(k, j + d)))) == Conj(w(Times(d, k)))
  {
    hide Mul, Primitive, Root, Times;
    PrimitiveFacts(w, n, Times(k, j));
    TimesSplit(d, j, k);
    var b, c := w(Times(k, j)), w(Times(d, k));
    Compose(w, n, Times(d, k), Times(k, j));
    MulAssoc(c, b, Conj(b));
    MulOne(c);
    ConjMul(c, b);
    MulCommutes(Conj(c), Conj(b));
    MulAssoc(b, Conj(b), Conj(c));
    MulOne(Conj(c));
  }

  lemma {:induction false} OrthogonalSame(w: nat -> Cpx, n: nat, i: nat)
    requires Primitive(w, n)
    ensures Sum(n, (k: nat) => Mul(w(Times(i, k)), Conj(w(Times(k, i))))) == Cpx(n as real, 0.0)
  {
    hide Mul, Primitive, Root, Times, Conj;
    PrimitiveFacts(w, n, 0);
    Unity(w, n);
    var f := (k: nat) => Mul(w(Times(i, k)), Conj(w(Times(k, i))));
    forall k: nat | k < n ensures f(k) == ONE {
      Difference(w, n, i, 0, k);
      TimesSteps(k, 0);
    }
    SumOnes(n, f);
  }

  lemma {:induction false} OrthogonalAbove(w: nat -> Cpx, n: nat, j: nat, d: nat)
    requires Primitive(w, n) && 0 < d < n
    ensures Sum(n, (k: nat) => Mul(w(Times(j + d, k)), Conj(w(Times(k, j))))) == ZERO
  {
    hide Mul, Primitive, Root, Times, Conj;
    PrimitiveFacts(w, n, d);
    var f := (k: nat) => Mul(w(Times(j + d, k)), Conj(w(Times(k, j))));
    var g := (k: nat) => w(Times(d, k));
    forall k: nat | k < n ensures f(k) == g(k) {
      Difference(w, n, j, d, k);
    }
    SumCong(n, f, g);
    GeometricZero(w, n, d);
  }

  lemma {:induction false} OrthogonalBelow(w: nat -> Cpx, n: nat, i: nat, d: nat)
    requires Primitive(w, n) && 0 < d < n
    ensures Sum(n, (k: nat) => Mul(w(Times(i, k)), Conj(w(Times(k, i + d))))) == ZERO
  {
    hide Mul, Primitive, Root, Times, ConjRoot;
    PrimitiveFacts(w, n, d);
    ConjRootAt(w, d);
    var v := ConjRoot(w);
    assert Conj(v(d)) == w(d) != ONE;
    hide Conj;
    var f := (k: nat) => Mul(w(Times(i, k)), Conj(w(Times(k, i + d))));
    var g := (k: nat) => v(Times(d, k));
    forall k: nat | k < n ensures f(k) == g(k) {
      Difference(w, n, i, d, k);
      ConjRootAt(w, Times(d, k));
    }
    SumCong(n, f, g);
    ConjRootIsRoot(w, n);
    GeometricZero(v, n, d);
  }

  lemma {:induction false} Orthogonal(w: nat -> Cpx, n: nat, i: nat, j: nat)
    requires Primitive(w, n) && i < n && j < n
    ensures Sum(n, (k: nat) => Mul(w(Times(i, k)), Conj(w(Times(k, j))))) ==
            if i == j then Cpx(n as real, 0.0) else ZERO
  {
    hide Mul, Primitive, Times, Conj, Sum;
    if i == j {
      OrthogonalSame(w, n, i);
    } else if j < i {
      OrthogonalAbove(w, n, j, i - j);
    } else {
      OrthogonalBelow(w, n, i, j - i);
    }
  }

  /** One bin of the double transform, as a sum over the input. */
  lemma {:induction false} InversionRow(w: nat -> Cpx, x: nat -> Cpx, n: nat, j: nat, k: nat)
    ensures Mul(Transform(w, x, n, k), Conj(w(Times(k, j)))) ==
            Sum(n, (i: nat) => Mul(x(i), Mul(w(Times(i, k)), Conj(w(Times(k, j))))))
  {
    hide Mul, Times;
    var c := Conj(w(Times(k, j)));
    var f := (i: nat) => Mul(x(i), w(Times(i, k)));
    var g := (i: nat) => Mul(x(i), Mul(w(Times(i, k)), c));
    SumScale(n, c, f);
    MulCommutes(c, Sum(n, f));
    forall i: nat | i < n ensures Mul(c, f(i)) == g(i) {
      MulCommutes(c, f(i));
      MulAssoc(x(i), w(Times(i, k)), c);
    }
    SumCong(n, (i: nat) => Mul(c, f(i)), g);
    SumCong(n, g, (i: nat) => Mul(x(i), Mul(w(Times(i, k)), Conj(w(Times(k, j))))));
  }

  /** What one input sample contributes to output j of the double transform. */
  lemma {:induction false} InversionColumn(w: nat -> Cpx, x: nat -> Cpx, n: nat, j: nat, i: nat)
    requires Primitive(w, n) && i < n && j < n
    ensures Sum(n, (k: nat) => Mul(x(i), Mul(w(Times(i, k)), Conj(w(Times(k, j)))))) ==
            if i == j then Mul(Cpx(n as real, 0.0), x(i)) else ZERO
  {
    hide Mul, Times, Primitive;
    var f := (k: nat) => Mul(w(Times(i, k)), Conj(w(Times(k, j))));
    SumScale(n, x(i), f);
    SumCong(n, (k: nat) => Mul(x(i), f(k)), (k: nat) => Mul(x(i), Mul(w(Times(i, k)), Conj(w(Times(k, j))))));
    Orthogonal(w, n, i, j);
    MulZero(x(i));
    MulCommutes(x(i), Cpx(n as real, 0.0));
  }

  /** The inverse transform of the transform is n times the input, at every index. */
  lemma {:induction false} Inversion(w: nat -> Cpx, x: nat -> Cpx, n: nat, j: nat)
    requires Primitive(w, n) && j < n
    ensures Transform(ConjRoot(w), (k: nat) => Transform(w, x, n, k), n, j) == Mul(Cpx(n as real, 0.0), x(j))
  {
    hide Mul, Times, Primitive;
    var grid := (k: nat, i: nat) => Mul(x(i), Mul(w(Times(i, k)), Conj(w(Times(k, j)))));
    var spectrum := (k: nat) => Transform(w, x, n, k);
    var outer := (k: nat) => Mul(spectrum(k), ConjRoot(w)(Times(k, j)));
    var rows := (k: nat) => Sum(n, (i: nat) => grid(k, i));
    forall k: nat | k < n ensures outer(k) == rows(k) {
      InversionRow(w, x, n, j, k);
      ConjRootAt(w, Times(k, j));
      SumCong(n, (i: nat) => grid(k, i), (i: nat) => Mul(x(i), Mul(w(Times(i, k)), Conj(w(Times(k, j))))));
    }
    SumCong(n, outer, rows);
    SumSwap(n, n, grid);
    var columns := (i: nat) => Sum(n, (k: nat) => grid(k, i));
    var picked := (i: nat) => if i == j then Mul(Cpx(n as real, 0.0), x(i)) else ZERO;
    forall i: nat | i < n ensures columns(i) == picked(i) {
      InversionColumn(w, x, n, j, i);
      SumCong(n, (k: nat) => grid(k, i), (k: nat) => Mul(x(i), Mul(w(Times(i, k)), Conj(w(Times(k, j))))));
    }
    SumCong(n, columns, picked);
    SumPick(n, picked, j);
  }

  lemma {:induction false} SumPick(n: nat, f: nat -> Cpx, j: nat)
    requires j < n
    requires forall i: nat :: i < n && i != j ==> f(i) == ZERO
    ensures Sum(n, f) == f(j)
  {
    if j == n - 1 {
      SumZero(n - 1, f);
    } else {
      SumPick(n - 1, f, j);
    }
  }
}
