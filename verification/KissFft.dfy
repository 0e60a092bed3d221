/** kiss_fft.c in its floating-point configuration: the factoriser kf_factor, the recursive
    decimation kf_work and the driver, proved to compute the discrete Fourier transform. */
module KissFft {
  import opened Complex
  import opened Dft
  import opened Modular
  import opened Radix
  import opened Butterflies

  // ----- kf_factor

  /** The (radix, remaining length) pairs of a mixed-radix plan for length n, ending at length 1. */
  ghost predicate Plan(n: nat, factors: seq<(nat, nat)>)
    decreases |factors|
  {
    && |factors| > 0
    && factors[0].0 >= 1 && factors[0].1 >= 1
    && Cell(factors[0].0, factors[0].1, 0) == n
    && if factors[0].1 == 1 then |factors| == 1 else Plan(factors[0].1, factors[1..])
  }

  /** p divides n */
  predicate Divides(p: nat, n: nat)
    requires p > 0
  {
    n % p == 0
  }

  ghost predicate Prime(p: nat) {
    p >= 2 && forall d: nat | 2 <= d < p :: !Divides(d, p)
  }

  /** n has no divisor from 2 up to, but not including, b. */
  ghost predicate Sieved(n: nat, b: nat) {
    forall d: nat | 2 <= d < b :: !Divides(d, n)
  }

  /** What kf_factor knows of n when it is about to try p. */
  ghost predicate Trying(n: nat, p: nat) {
    p == 4 || (p == 2 && !Divides(4, n)) || (p % 2 == 1 && p >= 3 && Sieved(n, p))
  }

  lemma QuotientFacts(n: nat, p: nat)
    requires n > 0 && p > 0 && Divides(p, n)
    ensures n / p > 0 && Cell(p, n / p, 0) == n
    ensures p >= 2 ==> n / p < n
  {
    assert n == p * (n / p);
    if p >= 2 && n / p >= n {
      MulMono(2, p, n / p);
    }
  }

  lemma DividesTrans(d: nat, p: nat, n: nat)
    requires d > 0 && n > 0 && p > 0 && Divides(p, n) && Divides(d, n / p)
    ensures Divides(d, n)
  {
    var k := n / p / d;
    assert n == p * (n / p) && n / p == d * k;
    assert n == d * (p * k);
    ModPeriod(0, d, p * k);
  }

  lemma TryingQuotient(n: nat, p: nat)
    requires n > 0 && p > 0 && Divides(p, n) && Trying(n, p)
    ensures Trying(n / p, p)
  {
    if p == 2 && Divides(4, n / p) {
      DividesTrans(4, p, n);
    } else if p != 4 && p != 2 {
      forall d: nat | 2 <= d < p ensures !Divides(d, n / p) {
        if Divides(d, n / p) {
          DividesTrans(d, p, n);
        }
      }
    }
  }

  lemma TryingNext(n: nat, p: nat)
    requires Trying(n, p) && p > 0 && !Divides(p, n)
    ensures Trying(n, if p == 4 then 2 else if p == 2 then 3 else p + 2)
  {
    hide Divides;
    if p != 4 && p != 2 {
      forall d: nat | 2 <= d < p + 2 ensures !Divides(d, n) {
        if d == p + 1 && Divides(d, n) {
          EvenDivisor(d, n);
        }
      }
    }
  }

  lemma EvenDivisor(d: nat, n: nat)
    requires d > 0 && d % 2 == 0 && Divides(d, n)
    ensures Divides(2, n)
  {
    var h, k := d / 2, n / d;
    assert n == d * k == 2 * (h * k) by {
      assert d == 2 * h;
      assert (2 * h) * k == 2 * (h * k);
    }
  }

  lemma DividesMul(d: nat, p: nat, n: nat)
    requires d > 0 && p > 0 && Divides(d, p) && Divides(p, n)
    ensures Divides(d, n)
  {
    var j, k := p / d, n / p;
    assert p == d * j && n == p * k == d * (j * k);
    ModPeriod(0, d, j * k);
  }

  /** A radix that divides n is 4 or prime. */
  lemma RadixPrime(n: nat, p: nat)
    requires n > 0 && Trying(n, p) && Divides(p, n)
    ensures p == 4 || Prime(p)
  {
    if p != 4 && p != 2 {
      forall d: nat | 2 <= d < p ensures !Divides(d, p) {
        if Divides(d, p) {
          DividesMul(d, p, n);
        }
      }
    }
  }

  /** A number with no divisor up to its square root is prime. */
  lemma SievedPrime(n: nat, p: nat)
    requires n >= 2 && p >= 2 && Sieved(n, p) && n < p * p
    ensures Prime(n)
  {
    forall d: nat | 2 <= d < n ensures !Divides(d, n) {
      if Divides(d, n) {
        var k := n / d;
        assert n == d * k;
        if d >= p {
          assert k < p by {
            if k >= p {
              MulMono(p, k, d);
              MulMono(p, d, p);
            }
          }
          assert k >= 2;
          assert n == k * d;
          ModPeriod(0, k, d);
          assert Divides(k, n);
        }
      }
    }
  }

  lemma {:induction false} PlanLength(n: nat, factors: seq<(nat, nat)>)
    requires Plan(n, factors) && forall i | 0 <= i < |factors| :: factors[i].0 >= 2
    ensures Pow2(|factors|) <= n
    decreases |factors|
  {
    var (p, m) := factors[0];
    if m == 1 {
      assert Pow2(1) == 2;
    } else {
      PlanLength(m, factors[1..]);
      MulMono(2, p, m);
    }
  }

  lemma {:induction false} PlanAppend(n: nat, factors: seq<(nat, nat)>, r: nat, p: nat, m: nat)
    requires OpenPlan(n, factors, r) && r > 1 && p >= 1 && m >= 1 && Cell(p, m, 0) == r
    ensures m > 1 ==> OpenPlan(n, factors + [(p, m)], m)
    ensures m == 1 ==> Plan(n, factors + [(p, m)])
    decreases |factors|
  {
    if factors != [] {
      PlanAppend(factors[0].1, factors[1..], r, p, m);
      assert (factors + [(p, m)])[1..] == factors[1..] + [(p, m)];
    }
  }

  /** A plan in the making: what is still to be split has length r. */
  ghost predicate OpenPlan(n: nat, factors: seq<(nat, nat)>, r: nat)
    decreases |factors|
  {
    if factors == [] then n == r
    else
      && factors[0].0 >= 1 && factors[0].1 > 1
      && Cell(factors[0].0, factors[0].1, 0) == n
      && OpenPlan(factors[0].1, factors[1..], r)
  }

  /** Once the candidate has passed the square root, what is left is prime. */
  lemma PastRoot(n: nat, p: nat, root: nat)
    requires n > 1 && Trying(n, p) && p != 4 && root < p && n < (root + 1) * (root + 1)
    ensures Prime(n)
  {
    MulMono(root + 1, p, root + 1);
    MulMono(root + 1, p, p);
    SievedPrime(n, p);
  }

  function Rank(p: nat, root: nat): nat {
    if p == 4 then root + 6 else if p == 2 then root + 5 else if root < p then 1 else root + 4 - p
  }

  /** The search for the next radix: from p upwards, skipping to n past the square root. */
  method NextRadix(n: nat, p0: nat, root: nat) returns (p: nat)
    requires n > 1 && Trying(n, p0) && n < (root + 1) * (root + 1)
    ensures 2 <= p && Divides(p, n) && (p == 4 || Prime(p))
    ensures Trying(n / p, p) || n / p == 1
  {
    p := p0;
    hide Trying, Divides, Prime;
    TryingPositive(n, p);
    while !Divides(p, n)
      invariant p > 0
      invariant (p == n && Prime(n) && Divides(p, n)) || Trying(n, p)
      decreases if Divides(p, n) then 0 else Rank(p, root)
    {
      TryingNext(n, p);
      p := if p == 4 then 2 else if p == 2 then 3 else p + 2;
      if p > root {
        PastRoot(n, p, root);
        p := n;
        SelfDivides(n);
      }
    }
    QuotientFacts(n, p);
    SelfDivides(n);
    if p == n && Prime(n) {
      PrimeAtLeast2(n);
    } else {
      TryingQuotient(n, p);
      RadixPrime(n, p);
      TryingPositive(n, p);
    }
  }

  lemma TryingPositive(n: nat, p: nat)
    requires Trying(n, p)
    ensures p >= 2
  {}

  lemma PrimeAtLeast2(p: nat)
    requires Prime(p)
    ensures p >= 2
  {}

  lemma SelfDivides(n: nat)
    requires n > 0
    ensures Divides(n, n) && n / n == 1
  {
    DivModUnique(n, n, 1, 0);
  }

  /** Length 1 gets the one trivial radix; every other length a plan whose radices are 4 or prime. */
  method KfFactor(nfft: nat, root: nat) returns (factors: seq<(nat, nat)>)
    requires nfft > 0 && root * root <= nfft < (root + 1) * (root + 1)
    ensures Plan(nfft, factors)
    ensures nfft == 1 ==> factors == [(1, 1)]
    ensures nfft > 1 ==> forall i | 0 <= i < |factors| :: factors[i].0 == 4 || Prime(factors[i].0)
    ensures nfft > 1 ==> Pow2(|factors|) <= nfft
  {
    factors := [];
    if nfft == 1 {
      factors := [(1, 1)];
      return;
    }
    var n, p := nfft, 4;
    while n > 1
      invariant n > 0
      invariant n > 1 ==> OpenPlan(nfft, factors, n) && Trying(n, p)
      invariant n == 1 ==> Plan(nfft, factors)
      invariant n <= nfft
      invariant forall i | 0 <= i < |factors| :: factors[i].0 == 4 || Prime(factors[i].0)
    {
      p := NextRadix(n, p, root);
      QuotientFacts(n, p);
      PlanAppend(nfft, factors, n, p, n / p);
      n := n / p;
      factors := factors + [(p, n)];
    }
    PlanLength(nfft, factors);
  }

  // ----- kf_work

  /** The samples a call of kf_work reads: every step-th one, from offset off. */
  ghost predicate Samples(f: seq<Cpx>, step: nat, off: nat, n: nat, x: nat -> Cpx) {
    && (forall j: nat | j < n :: Cell(step, j, off) < |f| && x(j) == f[Cell(step, j, off)])
  }

  /** Block [o, o+n) holds the transform of x; the rest of the buffer is as before. */
  ghost predicate Transformed(w: nat -> Cpx, x: nat -> Cpx, before: seq<Cpx>, now: seq<Cpx>, o: nat, n: nat) {
    && |now| == |before| && o + n <= |now|
    && (forall k: nat | k < n :: At(now, o + k) == Transform(w, x, n, k))
    && (forall i: nat | i < |now| && (i < o || o + n <= i) :: now[i] == before[i])
  }

  /** The first r of the p sub-blocks are transformed. */
  ghost predicate SubTransformed(w: nat -> Cpx, x: nat -> Cpx, before: seq<Cpx>, now: seq<Cpx>, o: nat, p: nat,
                                 m: nat, r: nat) {
    && |now| == |before|
    && (forall q: nat, u: nat | q < r && u < m ::
          At(now, Slot(o, m, q, u)) == Transform(Strided(w, p, 0), Strided(x, p, q), m, u))
    && (forall i: nat | i < |now| && (i < o || Slot(o, m, p, 0) <= i) :: now[i] == before[i])
  }

  lemma {:induction false} TransformOfOne(w: nat -> Cpx, n: nat, x: nat -> Cpx)
    requires Root(w, n)
    ensures Transform(w, x, 1, 0) == x(0)
  {
    hide Mul, Root;
    assert Times(0, 0) == 0;
    Unity(w, n);
    MulOne(x(0));
    SumOne((j: nat) => Mul(x(j), w(Times(j, 0))));
  }

  lemma SubCells(step: nat, p: nat, m: nat, off: nat, q: nat, n: nat)
    requires q < p
    ensures Cell(Times(step, p), n, Cell(step, q, off)) == Cell(step, Cell(p, n, q), off)
    ensures n < m ==> Cell(p, n, q) < Cell(p, m, 0)
  {
    assert step * p * n + (step * q + off) == step * (p * n + q) + off;
    if n < m {
      MulMono(n + 1, m, p);
    }
  }

  lemma {:induction false} SubSamples(f: seq<Cpx>, step: nat, off: nat, p: nat, m: nat, x: nat -> Cpx, q: nat)
    requires Samples(f, step, off, Cell(p, m, 0), x) && q < p
    ensures Samples(f, Times(step, p), Cell(step, q, off), m, Strided(x, p, q))
  {
    hide Cell, Times;
    forall n: nat | n < m
      ensures Cell(Times(step, p), n, Cell(step, q, off)) < |f|
      ensures Strided(x, p, q)(n) == f[Cell(Times(step, p), n, Cell(step, q, off))]
    {
      SubCells(step, p, m, off, q, n);
      StridedAt(x, p, q, n);
    }
  }

  lemma {:induction false} SubStage(tw: seq<Cpx>, stride: nat, w: nat -> Cpx, inverse: bool, p: nat, m: nat, p': nat,
                                    m': nat)
    requires p > 0 && Stage(tw, stride, w, inverse, p, m) && Cell(p', m', 0) == m && m' > 0
    ensures Stage(tw, Times(stride, p), Strided(w, p, 0), inverse, p', m')
  {
    assert stride * p * m == stride * (p * m);
    hide Level, Reads;
    SubLevel(w, p, m, inverse);
    SubReads(tw, stride, w, p);
  }

  /** A finished sub-block extends the run of finished sub-blocks. */
  lemma {:induction false} NextBlock(w: nat -> Cpx, x: nat -> Cpx, before: seq<Cpx>, mid: seq<Cpx>, now: seq<Cpx>,
                                     o: nat, p: nat, m: nat, r: nat)
    requires r < p && SubTransformed(w, x, before, mid, o, p, m, r)
    requires Transformed(Strided(w, p, 0), Strided(x, p, r), mid, now, Slot(o, m, r, 0), m)
    ensures SubTransformed(w, x, before, now, o, p, m, r + 1)
  {
    assert forall u: nat :: Slot(o, m, r, u) == Slot(o, m, r, 0) + u;
    assert Slot(o, m, r, 0) + m == Slot(o, m, r + 1, 0) <= Slot(o, m, p, 0) by {
      MulMono(r + 1, p, m);
    }
    hide Cell, Transform, Strided;
    forall q: nat, u: nat | q < r + 1 && u < m
      ensures At(now, Slot(o, m, q, u)) == Transform(Strided(w, p, 0), Strided(x, p, q), m, u)
    {
      if q < r {
        SlotFacts(o, m, r, q, u);
      }
    }
  }

  /** After the butterfly, the block holds the whole transform. */
  lemma {:induction false} Combine(tw: seq<Cpx>, stride: nat, w: nat -> Cpx, inverse: bool, x: nat -> Cpx,
                                   before: seq<Cpx>, mid: seq<Cpx>, now: seq<Cpx>, o: nat, p: nat, m: nat)
    requires p > 0 && Stage(tw, stride, w, inverse, p, m) && Slot(o, m, p, 0) <= |mid|
    requires SubTransformed(w, x, before, mid, o, p, m, p)
    requires Progress(w, mid, now, o, p, m, m)
    ensures Transformed(w, x, before, now, o, Cell(p, m, 0))
  {
    hide Cell, Slot, Transform, Strided;
    var n := Cell(p, m, 0);
    BlockEnd(o, m, p);
    forall k: nat | k < n
      ensures At(now, o + k) == Transform(w, x, n, k)
    {
      SplitIndex(o, k, p, m);
      CombineBin(w, inverse, x, mid, o, p, m, k / m, k % m);
    }
  }

  lemma BlockEnd(o: nat, m: nat, p: nat)
    ensures Slot(o, m, p, 0) == o + Cell(p, m, 0)
  {}

  lemma SplitIndex(o: nat, k: nat, p: nat, m: nat)
    requires m > 0 && k < Cell(p, m, 0)
    ensures k / m < p && k % m < m
    ensures k == Cell(m, k / m, k % m) && o + k == Slot(o, m, k / m, k % m)
  {
    if p <= k / m {
      MulMono(p, k / m, m);
    }
  }

  lemma {:induction false} CombineBin(w: nat -> Cpx, inverse: bool, x: nat -> Cpx, mid: seq<Cpx>, o: nat, p: nat,
                                      m: nat, q1: nat, u: nat)
    requires p > 0 && m > 0 && Level(w, Cell(p, m, 0), inverse) && u < m
    requires forall q: nat | q < p :: At(mid, Slot(o, m, q, u)) == Transform(Strided(w, p, 0), Strided(x, p, q), m, u)
    ensures Transform(w, Column(mid, o, m, u), p, Cell(m, q1, u)) == Transform(w, x, Cell(p, m, 0), Cell(m, q1, u))
  {
    Decimate(w, x, p, m, u, q1);
    hide Cell, Slot, Transform, Strided, Level;
    TransformCong(w, Column(mid, o, m, u), w, (q: nat) => Transform(Strided(w, p, 0), Strided(x, p, q), m, u), p,
                  Cell(m, q1, u));
  }

  lemma UnitRows(o: nat, p: nat, q: nat)
    ensures Slot(o, 1, q, 0) == o + q && Cell(p, 0, q) == q && Cell(p, 1, 0) == p
  {}

  /** The copy loop at the bottom of the recursion. */
  method CopySamples(fout: array<Cpx>, o: nat, f: seq<Cpx>, off: nat, step: nat, p: nat,
                     ghost w: nat -> Cpx, ghost n: nat, ghost x: nat -> Cpx)
    requires Samples(f, step, off, Cell(p, 1, 0), x) && Slot(o, 1, p, 0) <= fout.Length
    requires Root(Strided(w, p, 0), n)
    modifies fout
    ensures SubTransformed(w, x, old(fout[..]), fout[..], o, p, 1, p)
  {
    hide Root, Cell, Slot, Transform, Strided;
    UnitRows(o, p, 0);
    UnitRows(o, p, p);
    for q := 0 to p
      invariant forall i: nat | i < q :: fout[o + i] == x(i)
      invariant forall i: nat | i < fout.Length && (i < o || o + q <= i) :: fout[i] == old(fout[..])[i]
    {
      fout[o + q] := f[Cell(step, q, off)];
    }
    forall q: nat, u: nat | q < p && u < 1
      ensures At(fout[..], Slot(o, 1, q, u)) == Transform(Strided(w, p, 0), Strided(x, p, q), 1, u)
    {
      UnitRows(o, p, q);
      TransformOfOne(Strided(w, p, 0), n, Strided(x, p, q));
      StridedAt(x, p, q, 0);
    }
  }

  /** The radix-dependent recombination. */
  method Recombine(fout: array<Cpx>, o: nat, fstride: nat, tw: seq<Cpx>, inverse: bool, p: nat, m: nat,
                   ghost w: nat -> Cpx)
    requires p > 0 && Stage(tw, fstride, w, inverse, p, m) && Slot(o, m, p, 0) <= fout.Length
    modifies fout
    ensures Progress(w, old(fout[..]), fout[..], o, p, m, m)
  {
    hide *;
    if p == 2 {
      Bfly2(fout, o, fstride, tw, m, inverse, w);
    } else if p == 3 {
      Bfly3(fout, o, fstride, tw, m, inverse, w);
    } else if p == 4 {
      Bfly4(fout, o, fstride, tw, m, inverse, w);
    } else if p == 5 {
      Bfly5(fout, o, fstride, tw, m, inverse, w);
    } else {
      BflyGeneric(fout, o, fstride, tw, m, p, w, inverse);
    }
  }

  /** kf_work: whatever the plan, the block receives the transform of the samples it was given. */
  method KfWork(fout: array<Cpx>, o: nat, f: seq<Cpx>, off: nat, fstride: nat, inStride: nat,
                factors: seq<(nat, nat)>, tw: seq<Cpx>, inverse: bool,
                ghost n: nat, ghost w: nat -> Cpx, ghost x: nat -> Cpx)
    requires Plan(n, factors) && o + n <= fout.Length
    requires Stage(tw, fstride, w, inverse, factors[0].0, factors[0].1)
    requires Samples(f, Times(fstride, inStride), off, n, x)
    modifies fout
    ensures Transformed(w, x, old(fout[..]), fout[..], o, n)
    decreases |factors|
  {
    var p, m := factors[0].0, factors[0].1;
    var step := Times(fstride, inStride);
    ghost var before := fout[..];
    assert Slot(o, m, p, 0) == o + n;
    if m == 1 {
      SubRoot(tw, fstride, w, inverse, p, m);
      CopySamples(fout, o, f, off, step, p, w, m, x);
    } else {
      var p', m' := factors[1].0, factors[1].1;
      assert Cell(p', m', 0) == m && m' > 0 && factors[1..][0] == factors[1];
      hide Cell, Slot, Times, Stage, Samples, Transform, Transformed, Strided, Plan;
      for q := 0 to p
        invariant SubTransformed(w, x, before, fout[..], o, p, m, q)
      {
        ghost var mid := fout[..];
        SubStage(tw, fstride, w, inverse, p, m, p', m');
        SubStep(fstride, inStride, p);
        SubSamples(f, step, off, p, m, x, q);
        SlotEnd(o, m, q, p);
        KfWork(fout, Slot(o, m, q, 0), f, Cell(step, q, off), Times(fstride, p), inStride, factors[1..], tw, inverse,
               m, Strided(w, p, 0), Strided(x, p, q));
        NextBlock(w, x, before, mid, fout[..], o, p, m, q);
      }
    }
    hide Cell, Slot, Times, Stage, Samples, Transform, Transformed, Strided, Plan, SubTransformed, Progress;
    ghost var mid := fout[..];
    Recombine(fout, o, fstride, tw, inverse, p, m, w);
    Combine(tw, fstride, w, inverse, x, before, mid, fout[..], o, p, m);
  }

  lemma SubRoot(tw: seq<Cpx>, stride: nat, w: nat -> Cpx, inverse: bool, p: nat, m: nat)
    requires p > 0 && Stage(tw, stride, w, inverse, p, m)
    ensures Root(Strided(w, p, 0), m)
  {
    hide Reads, Cell, Mul;
    SubLevel(w, p, m, inverse);
  }

  lemma SubStep(fstride: nat, inStride: nat, p: nat)
    ensures Times(Times(fstride, p), inStride) == Times(Times(fstride, inStride), p)
  {
    assert fstride * p * inStride == fstride * inStride * p;
  }

  lemma SlotEnd(o: nat, m: nat, q: nat, p: nat)
    requires q < p
    ensures Slot(o, m, q, 0) + m <= Slot(o, m, p, 0)
  {
    MulMono(q + 1, p, m);
  }

  // ----- drivers

  /** The input as kiss_fft_stride sees it. */
  ghost function Input(fin: seq<Cpx>, inStride: nat): nat -> Cpx {
    (j: nat) => At(fin, Times(inStride, j))
  }

  /** kiss_fft_stride: bin k of the output is the sum of fin[j * in_stride] * w^(j*k) over all j. */
  method KissFftStride(tw: seq<Cpx>, inverse: bool, factors: seq<(nat, nat)>, fin: seq<Cpx>, inStride: nat)
    returns (fout: seq<Cpx>)
    requires Twiddles(tw, inverse) && Plan(|tw|, factors)
    requires Times(inStride, |tw| - 1) < |fin|
    ensures |fout| == |tw|
    ensures forall k: nat | k < |tw| :: fout[k] == Transform(RootOf(tw), Input(fin, inStride), |tw|, k)
  {
    var buffer := new Cpx[|tw|](_ => ZERO);
    TopStage(tw, inverse, factors);
    TopSamples(fin, inStride, |tw|);
    hide *;
    KfWork(buffer, 0, fin, 0, 1, inStride, factors, tw, inverse, |tw|, RootOf(tw), Input(fin, inStride));
    fout := buffer[..];
    TopResult(RootOf(tw), Input(fin, inStride), fout, |tw|);
  }

  lemma TopResult(w: nat -> Cpx, x: nat -> Cpx, fout: seq<Cpx>, n: nat)
    requires |fout| == n && exists before :: Transformed(w, x, before, fout, 0, n)
    ensures forall k: nat | k < n :: fout[k] == Transform(w, x, n, k)
  {
    hide Transform;
    forall k: nat | k < n ensures fout[k] == Transform(w, x, n, k) {
      assert At(fout, 0 + k) == fout[k];
    }
  }

  lemma {:induction false} TopStage(tw: seq<Cpx>, inverse: bool, factors: seq<(nat, nat)>)
    requires Twiddles(tw, inverse) && Plan(|tw|, factors)
    ensures Stage(tw, 1, RootOf(tw), inverse, factors[0].0, factors[0].1)
  {
    assert Times(1, |tw|) == |tw|;
    forall e: nat ensures RootOf(tw)(e) == tw[Times(1, e) % |tw|] {}
  }

  lemma {:induction false} TopSamples(fin: seq<Cpx>, inStride: nat, n: nat)
    requires n > 0 && Times(inStride, n - 1) < |fin|
    ensures Samples(fin, Times(1, inStride), 0, n, Input(fin, inStride))
  {
    forall j: nat | j < n
      ensures Cell(Times(1, inStride), j, 0) < |fin| && Input(fin, inStride)(j) == fin[Cell(Times(1, inStride), j, 0)]
    {
      assert Cell(Times(1, inStride), j, 0) == Times(inStride, j);
      MulMono(j, n - 1, inStride);
    }
  }

  /** kiss_fft_alloc and kiss_fft_stride together: every length is planned for, and transformed. */
  method Fft(tw: seq<Cpx>, inverse: bool, root: nat, fin: seq<Cpx>, inStride: nat) returns (fout: seq<Cpx>)
    requires Twiddles(tw, inverse) && root * root <= |tw| < (root + 1) * (root + 1)
    requires Times(inStride, |tw| - 1) < |fin|
    ensures |fout| == |tw|
    ensures forall k: nat | k < |tw| :: fout[k] == Transform(RootOf(tw), Input(fin, inStride), |tw|, k)
  {
    hide Transform, Plan, Times;
    var factors := KfFactor(|tw|, root);
    fout := KissFftStride(tw, inverse, factors, fin, inStride);
  }

  // ----- forward and back

  /** The table that kiss_fft_alloc builds for the other direction, with every phase negated. */
  ghost predicate Opposed(fwd: seq<Cpx>, inv: seq<Cpx>) {
    |inv| == |fwd| && forall i | 0 <= i < |fwd| :: inv[i] == Conj(fwd[i])
  }

  lemma {:induction false} OpposedTwiddles(fwd: seq<Cpx>, inv: seq<Cpx>)
    requires Twiddles(fwd, false) && Opposed(fwd, inv)
    ensures Twiddles(inv, true)
    ensures forall e: nat :: RootOf(inv)(e) == ConjRoot(RootOf(fwd))(e)
  {
    var w, v, n := RootOf(fwd), RootOf(inv), |fwd|;
    forall e: nat ensures v(e) == Conj(w(e)) {}
    hide Mul;
    forall a: nat, b: nat ensures Pair(v, a, b) == v(a + b) {
      ConjMul(w(a), w(b));
      Compose(w, n, a, b);
    }
    forall e: nat ensures UnitPair(v, e) == ONE {
      assert UnitPair(w, e) == ONE;
      MulCommutes(w(e), Conj(w(e)));
      assert Conj(Conj(w(e))) == w(e);
    }
    forall d: nat | ShortOfTurn(n, d) ensures v(d) != ONE {
      assert Conj(v(d)) == w(d);
    }
  }

  /** Transforming forward and then back gives the input times its length, sample by sample. */
  method RoundTrip(fwd: seq<Cpx>, inv: seq<Cpx>, factors: seq<(nat, nat)>, x: seq<Cpx>)
    returns (spectrum: seq<Cpx>, back: seq<Cpx>)
    requires Twiddles(fwd, false) && Opposed(fwd, inv) && Plan(|fwd|, factors) && |x| == |fwd|
    ensures |back| == |x| && forall j | 0 <= j < |x| :: back[j] == Mul(Cpx(|x| as real, 0.0), x[j])
  {
    ghost var w, n := RootOf(fwd), |fwd|;
    OpposedTwiddles(fwd, inv);
    assert Times(1, n - 1) == n - 1;
    assert Primitive(w, n);
    hide *;
    spectrum := KissFftStride(fwd, false, factors, x, 1);
    back := KissFftStride(inv, true, factors, spectrum, 1);
    forall j: nat | j < n ensures back[j] == Mul(Cpx(n as real, 0.0), x[j]) {
      Inversion(w, Input(x, 1), n, j);
      forall k: nat | k < n ensures Input(spectrum, 1)(k) == ((k: nat) => Transform(w, Input(x, 1), n, k))(k) {
        InputAt(spectrum, k);
      }
      TransformCong(RootOf(inv), Input(spectrum, 1), ConjRoot(w), (k: nat) => Transform(w, Input(x, 1), n, k), n, j);
      InputAt(x, j);
    }
  }

  lemma InputAt(x: seq<Cpx>, j: nat)
    requires j < |x|
    ensures Input(x, 1)(j) == x[j]
  {
    assert Times(1, j) == j;
  }

  /** The powers of a quarter turn, i or -i by the sign of y. */
  function Quarter(y: real, i: nat): Cpx {
    match i
    case 0 => ONE
    case 1 => Cpx(0.0, y)
    case 2 => Cpx(-1.0, 0.0)
    case _ => Cpx(0.0, -y)
  }

  lemma QuarterNext(y: real, i: nat)
    requires (y == 1.0 || y == -1.0) && i < 4
    ensures Mul(Cpx(0.0, y), Quarter(y, i)) == Quarter(y, if i == 3 then 0 else i + 1)
    ensures Conj(Quarter(y, i)) == Quarter(y, if i == 0 then 0 else 4 - i)
  {
    RightAngles(Quarter(y, i));
    hide Mul;
  }

  lemma {:induction false} QuarterMul(y: real, i: nat, j: nat)
    requires (y == 1.0 || y == -1.0) && i < 4 && j < 4
    ensures Mul(Quarter(y, i), Quarter(y, j)) == Quarter(y, if i + j < 4 then i + j else i + j - 4)
  {
    hide Mul, Quarter;
    if i == 0 {
      QuarterZero(y);
      MulOne(Quarter(y, j));
    } else {
      QuarterMul(y, i - 1, j);
      QuarterNext(y, i - 1);
      var k := if i - 1 + j < 4 then i - 1 + j else i - 1 + j - 4;
      QuarterNext(y, k);
      MulAssoc(Cpx(0.0, y), Quarter(y, i - 1), Quarter(y, j));
    }
  }

  /** The exact table of length four: 1, -i, -1, i forward, and the other way round for the inverse. */
  function FourPoint(y: real): (t: seq<Cpx>)
    ensures |t| == 4 && forall i | 0 <= i < 4 :: t[i] == Quarter(y, i)
  {
    [Quarter(y, 0), Quarter(y, 1), Quarter(y, 2), Quarter(y, 3)]
  }

  lemma FourPointAt(y: real, e: nat)
    ensures RootOf(FourPoint(y))(e) == Quarter(y, e % 4)
  {}

  lemma {:induction false} FourPointPairs(y: real, a: nat, b: nat)
    requires y == 1.0 || y == -1.0
    ensures Pair(RootOf(FourPoint(y)), a, b) == RootOf(FourPoint(y))(a + b)
    ensures UnitPair(RootOf(FourPoint(y)), a) == ONE
  {
    hide Mul, Conj, Quarter, RootOf, FourPoint;
    FourPointAt(y, a);
    FourPointAt(y, b);
    FourPointAt(y, a + b);
    var i, j := a % 4, b % 4;
    QuarterMul(y, i, j);
    QuarterNext(y, i);
    QuarterMul(y, i, if i == 0 then 0 else 4 - i);
    QuarterZero(y);
    SumMod4(a, b);
  }

  /** The forward and the inverse table are conjugate. */
  lemma {:induction false} FourPointOpposed()
    ensures Opposed(FourPoint(-1.0), FourPoint(1.0))
  {
    hide *;
    var fwd, inv := FourPoint(-1.0), FourPoint(1.0);
    forall i | 0 <= i < 4 ensures inv[i] == Conj(fwd[i]) {
      QuarterConj(i);
    }
    OpposedIs(fwd, inv);
  }

  lemma QuarterConj(i: nat)
    requires i < 4
    ensures Quarter(1.0, i) == Conj(Quarter(-1.0, i))
  {}

  lemma OpposedIs(fwd: seq<Cpx>, inv: seq<Cpx>)
    requires |fwd| == |inv| && forall i | 0 <= i < |fwd| :: inv[i] == Conj(fwd[i])
    ensures Opposed(fwd, inv)
  {}

  lemma QuarterZero(y: real)
    ensures Quarter(y, 0) == ONE
  {}

  lemma SumMod4(a: nat, b: nat)
    ensures (a + b) % 4 == if a % 4 + b % 4 < 4 then a % 4 + b % 4 else a % 4 + b % 4 - 4
  {}

  /** The exact four-point tables meet the description, quarter turn included: the results above are not empty. */
  lemma {:induction false} FourPointTable(inverse: bool)
    ensures Twiddles(FourPoint(if inverse then 1.0 else -1.0), inverse)
  {
    var y := if inverse then 1.0 else -1.0;
    var w := RootOf(FourPoint(y));
    FourPointAt(y, 0);
    FourPointAt(y, 1);
    FourPointAt(y, 2);
    FourPointAt(y, 3);
    FourPointAt(y, 4);
    hide Mul, RootOf, FourPoint;
    forall a: nat, b: nat ensures Pair(w, a, b) == w(a + b) {
      FourPointPairs(y, a, b);
    }
    forall e: nat ensures UnitPair(w, e) == ONE {
      FourPointPairs(y, e, e);
    }
  }
}
