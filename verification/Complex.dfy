/** Exact complex arithmetic, the meaning of the `kiss_fft_cpx` macros in the floating-point
    branch of _kiss_fft_guts.h, and finite sums of complex terms. */
module Complex {

  datatype Cpx = Cpx(r: real, i: real)

  const ZERO := Cpx(0.0, 0.0)
  const ONE := Cpx(1.0, 0.0)

  function Add(a: Cpx, b: Cpx): Cpx {
    Cpx(a.r + b.r, a.i + b.i)
  }

  function Sub(a: Cpx, b: Cpx): Cpx {
    Cpx(a.r - b.r, a.i - b.i)
  }

  /** C_MUL */
  function Mul(a: Cpx, b: Cpx): Cpx {
    Cpx(a.r * b.r - a.i * b.i, a.r * b.i + a.i * b.r)
  }

  function Conj(a: Cpx): Cpx {
    Cpx(a.r, -a.i)
  }

  function Neg(a: Cpx): Cpx {
    Cpx(-a.r, -a.i)
  }

  /** C_MULBYSCALAR */
  function Scale(a: Cpx, c: real): Cpx {
    Cpx(a.r * c, a.i * c)
  }

  function Square(x: real): real {
    x * x
  }

  function Norm2(a: Cpx): real {
    Square(a.r) + Square(a.i)
  }

  lemma MulCommutes(a: Cpx, b: Cpx)
    ensures Mul(a, b) == Mul(b, a)
  {}

  lemma MulAssoc(a: Cpx, b: Cpx, c: Cpx)
    ensures Mul(Mul(a, b), c) == Mul(a, Mul(b, c))
  {}

  lemma MulAdd(a: Cpx, b: Cpx, c: Cpx)
    ensures Mul(a, Add(b, c)) == Add(Mul(a, b), Mul(a, c))
  {}

  lemma MulOne(a: Cpx)
    ensures Mul(a, ONE) == a
    ensures Mul(ONE, a) == a
  {}

  lemma MulZero(a: Cpx)
    ensures Mul(a, ZERO) == ZERO
    ensures Mul(ZERO, a) == ZERO
  {}

  lemma ConjMul(a: Cpx, b: Cpx)
    ensures Conj(Mul(a, b)) == Mul(Conj(a), Conj(b))
  {}

  lemma SquarePositive(x: real)
    ensures Square(x) >= 0.0
    ensures x != 0.0 ==> Square(x) > 0.0
  {
    if x != 0.0 {
      calc {
        Square(x);
        x * x;
      > 0.0;
      }
    }
  }

  lemma NormZero(a: Cpx)
    requires Norm2(a) == 0.0
    ensures a == ZERO
  {
    hide Square;
    SquarePositive(a.r);
    SquarePositive(a.i);
    assert a.r == 0.0 && a.i == 0.0;
  }

  lemma NormMul(a: Cpx, b: Cpx)
    ensures Norm2(Mul(a, b)) == Norm2(a) * Norm2(b)
  {}

  /** The complex numbers have no zero divisors. */
  lemma NoZeroDivisors(a: Cpx, b: Cpx)
    requires Mul(a, b) == ZERO
    ensures a == ZERO || b == ZERO
  {
    hide Mul, Norm2;
    NormMul(a, b);
    ZeroNorm();
    if Norm2(a) == 0.0 {
      NormZero(a);
    } else {
      NormZero(b);
    }
  }

  lemma ZeroNorm()
    ensures Norm2(ZERO) == 0.0
  {}

  /** f(0) + ... + f(n-1) */
  ghost function Sum(n: nat, f: nat -> Cpx): Cpx {
    if n == 0 then ZERO else Add(Sum(n - 1, f), f(n - 1))
  }

  lemma SumCong(n: nat, f: nat -> Cpx, g: nat -> Cpx)
    requires forall i: nat :: i < n ==> f(i) == g(i)
    ensures Sum(n, f) == Sum(n, g)
  {
    if n != 0 {
      SumCong(n - 1, f, g);
    }
  }

  lemma SumZero(n: nat, f: nat -> Cpx)
    requires forall i: nat :: i < n ==> f(i) == ZERO
    ensures Sum(n, f) == ZERO
  {
    if n != 0 {
      SumZero(n - 1, f);
    }
  }

  lemma SumAdd(n: nat, f: nat -> Cpx, g: nat -> Cpx)
    ensures Sum(n, (i: nat) => Add(f(i), g(i))) == Add(Sum(n, f), Sum(n, g))
  {
    if n != 0 {
      SumAdd(n - 1, f, g);
    }
  }

  lemma SumScale(n: nat, c: Cpx, f: nat -> Cpx)
    ensures Sum(n, (i: nat) => Mul(c, f(i))) == Mul(c, Sum(n, f))
  {
    if n == 0 {
      MulZero(c);
    } else {
      SumScale(n - 1, c, f);
      MulAdd(c, Sum(n - 1, f), f(n - 1));
    }
  }

  /** Splitting a sum at a point. */
  lemma SumSplit(m: nat, n: nat, f: nat -> Cpx)
    ensures Sum(m + n, f) == Add(Sum(m, f), Sum(n, (i: nat) => f(m + i)))
  {
    if n != 0 {
      SumSplit(m, n - 1, f);
    }
  }

  /** Exchanging the order of two summations. */
  lemma SumSwap(m: nat, n: nat, f: (nat, nat) -> Cpx)
    ensures Sum(m, (i: nat) => Sum(n, (j: nat) => f(i, j))) ==
            Sum(n, (j: nat) => Sum(m, (i: nat) => f(i, j)))
  {
    if m == 0 {
      SumZero(n, (j: nat) => Sum(m, (i: nat) => f(i, j)));
    } else {
      SumSwap(m - 1, n, f);
      var g := (j: nat) => Sum(m - 1, (i: nat) => f(i, j));
      var h := (j: nat) => f(m - 1, j);
      SumAdd(n, g, h);
      SumCong(n, (j: nat) => Add(g(j), h(j)), (j: nat) => Sum(m, (i: nat) => f(i, j)));
    }
  }

  /** The index of column q in row n of a table with p columns. */
  function Cell(p: nat, n: nat, q: nat): nat {
    p * n + q
  }

  lemma CellSteps(p: nat, n: nat, q: nat)
    ensures Cell(p, n, q) == Cell(p, n, 0) + q
    ensures Cell(p, n + 1, 0) == Cell(p, n, 0) + p
  {}

  /** The sum of row n, and the rows as one function. */
  ghost function Row(p: nat, f: nat -> Cpx, n: nat): Cpx {
    Sum(p, (q: nat) => f(Cell(p, n, q)))
  }

  ghost function Rows(p: nat, f: nat -> Cpx): nat -> Cpx {
    (n: nat) => Row(p, f, n)
  }

  lemma {:induction false} NextRow(p: nat, m: nat, f: nat -> Cpx)
    ensures Sum(Cell(p, m + 1, 0), f) == Add(Sum(Cell(p, m, 0), f), Row(p, f, m))
  {
    hide Cell;
    var done := Cell(p, m, 0);
    CellSteps(p, m, p);
    SumSplit(done, p, f);
    var row := (q: nat) => f(Cell(p, m, q));
    forall q: nat | q < p
      ensures f(done + q) == row(q)
    {
      CellSteps(p, m, q);
    }
    SumCong(p, (i: nat) => f(done + i), row);
  }

  /** A sum over p*m terms, row by row. */
  lemma {:induction false} SumRows(p: nat, m: nat, f: nat -> Cpx)
    ensures Sum(Cell(p, m, 0), f) == Sum(m, Rows(p, f))
  {
    hide Cell, Row, Add;
    if m == 0 {
      NoRows(p);
    } else {
      SumRows(p, m - 1, f);
      NextRow(p, m - 1, f);
      assert Rows(p, f)(m - 1) == Row(p, f, m - 1);
    }
  }

  lemma NoRows(p: nat)
    ensures Cell(p, 0, 0) == 0
  {}

  /** The same sum, column by column. */
  lemma SumColumns(p: nat, m: nat, f: nat -> Cpx)
    ensures Sum(Cell(p, m, 0), f) == Sum(p, (q: nat) => Sum(m, (n: nat) => f(Cell(p, n, q))))
  {
    SumRows(p, m, f);
    hide Cell;
    var grid := (n: nat, q: nat) => f(Cell(p, n, q));
    var rows := (n: nat) => Sum(p, (q: nat) => grid(n, q));
    forall n: nat | n < m
      ensures Rows(p, f)(n) == rows(n)
    {
      SumCong(p, (q: nat) => f(Cell(p, n, q)), (q: nat) => grid(n, q));
    }
    SumCong(m, Rows(p, f), rows);
    SumSwap(m, p, grid);
    var columns := (q: nat) => Sum(m, (n: nat) => f(Cell(p, n, q)));
    var columns' := (q: nat) => Sum(m, (n: nat) => grid(n, q));
    forall q: nat | q < p
      ensures columns(q) == columns'(q)
    {
      SumCong(m, (n: nat) => f(Cell(p, n, q)), (n: nat) => grid(n, q));
    }
    SumCong(p, columns, columns');
  }
}
