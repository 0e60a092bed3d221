/** kiss_fft.c's butterflies as they run in place on one output buffer, column by column. */
module Butterflies {
  import opened Complex
  import opened Dft
  import opened Modular
  import opened Radix

  // ----- columns of the output buffer

  function At(s: seq<Cpx>, i: nat): Cpx {
    if i < |s| then s[i] else ZERO
  }

  /** Where branch q of column u lies, in a block of rows of length m that starts at o. */
  function Slot(o: nat, m: nat, q: nat, u: nat): nat {
    o + Cell(m, q, u)
  }

  /** The branches of column u. */
  ghost function Column(s: seq<Cpx>, o: nat, m: nat, u: nat): nat -> Cpx {
    (q: nat) => At(s, Slot(o, m, q, u))
  }

  /** Columns before u hold their transforms, the others and everything outside the block are as before. */
  ghost predicate Progress(w: nat -> Cpx, before: seq<Cpx>, now: seq<Cpx>, o: nat, p: nat, m: nat, u: nat) {
    && |now| == |before|
    && (forall q1: nat, v: nat | q1 < p && v < m ::
          At(now, Slot(o, m, q1, v)) ==
          if v < u then Transform(w, Column(before, o, m, v), p, Cell(m, q1, v)) else At(before, Slot(o, m, q1, v)))
    && (forall i: nat | i < |now| && (i < o || Slot(o, m, p, 0) <= i) :: now[i] == before[i])
  }

  lemma SlotFacts(o: nat, m: nat, p: nat, q: nat, u: nat)
    requires q < p && u < m
    ensures Slot(o, m, q, u) < Slot(o, m, p, 0)
    ensures o <= Slot(o, m, q, u)
    ensures forall q': nat, u': nat | u' < m && Slot(o, m, q', u') == Slot(o, m, q, u) :: q' == q && u' == u
  {
    BlockBound(m, q, u, p);
    forall q': nat, u': nat | u' < m && Slot(o, m, q', u') == Slot(o, m, q, u)
      ensures q' == q && u' == u
    {
      SameSplit(m, q, u, q', u');
    }
  }

  lemma {:induction false} ColumnStep(w: nat -> Cpx, before: seq<Cpx>, mid: seq<Cpx>, after: seq<Cpx>,
                                      o: nat, p: nat, m: nat, u: nat)
    requires u < m && Progress(w, before, mid, o, p, m, u) && |after| == |mid|
    requires forall q1: nat | q1 < p ::
               At(after, Slot(o, m, q1, u)) == Transform(w, Column(before, o, m, u), p, Cell(m, q1, u))
    requires forall i: nat | i < |mid| && (forall q: nat | q < p :: i != Slot(o, m, q, u)) :: after[i] == mid[i]
    ensures Progress(w, before, after, o, p, m, u + 1)
  {
    hide Cell, Slot, Transform;
    forall q1: nat, v: nat | q1 < p && v < m && v != u
      ensures At(after, Slot(o, m, q1, v)) == At(mid, Slot(o, m, q1, v))
    {
      SlotFacts(o, m, p, q1, v);
    }
    forall i: nat | i < |mid| && (i < o || Slot(o, m, p, 0) <= i)
      ensures after[i] == mid[i]
    {
      forall q: nat | q < p ensures i != Slot(o, m, q, u) {
        SlotFacts(o, m, p, q, u);
      }
    }
  }

  /** The buffer after a butterfly has stored the outputs xs of column u. */
  function Put(s: seq<Cpx>, o: nat, m: nat, u: nat, xs: seq<Cpx>): (r: seq<Cpx>)
    ensures |r| == |s|
  {
    if xs == [] then s
    else
      var q := |xs| - 1;
      var rest := Put(s, o, m, u, xs[..q]);
      if Slot(o, m, q, u) < |s| then rest[Slot(o, m, q, u) := xs[q]] else rest
  }

  lemma {:induction false} PutFacts(s: seq<Cpx>, o: nat, m: nat, u: nat, xs: seq<Cpx>)
    requires u < m && Slot(o, m, |xs|, 0) <= |s|
    ensures forall q: nat | q < |xs| :: At(Put(s, o, m, u, xs), Slot(o, m, q, u)) == xs[q]
    ensures forall i: nat | i < |s| && (forall q: nat | q < |xs| :: i != Slot(o, m, q, u)) ::
            Put(s, o, m, u, xs)[i] == s[i]
  {
    if xs != [] {
      var p := |xs|;
      var k := p - 1;
      assert Slot(o, m, p - 1, 0) <= Slot(o, m, p, 0) by {
        MulMono(p - 1, p, m);
      }
      hide Slot;
      PutFacts(s, o, m, u, xs[..k]);
      SlotFacts(o, m, p, k, u);
      forall q: nat | q < k ensures At(Put(s, o, m, u, xs), Slot(o, m, q, u)) == xs[q] {
        SlotFacts(o, m, p, q, u);
        assert xs[..k][q] == xs[q];
      }
    }
  }

  lemma PutNone(s: seq<Cpx>, o: nat, m: nat, u: nat)
    ensures Put(s, o, m, u, []) == s
  {}

  lemma PutStep(s: seq<Cpx>, o: nat, m: nat, u: nat, xs: seq<Cpx>, x: Cpx)
    requires Slot(o, m, |xs|, u) < |s|
    ensures Put(s, o, m, u, xs + [x]) == Put(s, o, m, u, xs)[Slot(o, m, |xs|, u) := x]
  {
    hide Slot;
    assert (xs + [x])[..|xs|] == xs;
  }

  /** Storing the transforms of a column completes that column. */
  lemma {:induction false} StoreColumn(w: nat -> Cpx, before: seq<Cpx>, mid: seq<Cpx>, o: nat, m: nat, u: nat,
                                       xs: seq<Cpx>)
    requires u < m && Progress(w, before, mid, o, |xs|, m, u) && Slot(o, m, |xs|, 0) <= |mid|
    requires forall q1: nat | q1 < |xs| :: xs[q1] == Transform(w, Column(before, o, m, u), |xs|, Cell(m, q1, u))
    ensures Progress(w, before, Put(mid, o, m, u, xs), o, |xs|, m, u + 1)
  {
    hide Slot, Cell, Transform, Progress;
    PutFacts(mid, o, m, u, xs);
    ColumnStep(w, before, mid, Put(mid, o, m, u, xs), o, |xs|, m, u);
  }

  /** A column that is still to be processed can be read from the buffer. */
  lemma {:induction false} ReadColumn(w: nat -> Cpx, before: seq<Cpx>, mid: seq<Cpx>, o: nat, p: nat, m: nat, u: nat)
    requires u < m && Progress(w, before, mid, o, p, m, u) && Slot(o, m, p, 0) <= |mid|
    ensures forall q: nat | q < p :: Slot(o, m, q, u) < |mid| && mid[Slot(o, m, q, u)] == Column(before, o, m, u)(q)
  {
    hide Slot, Cell, Transform;
    forall q: nat | q < p
      ensures Slot(o, m, q, u) < |mid| && mid[Slot(o, m, q, u)] == Column(before, o, m, u)(q)
    {
      SlotFacts(o, m, p, q, u);
    }
  }

  lemma IndexBound(stride: nat, p: nat, m: nat, q: nat, u: nat)
    requires q < p && u <= m && Times(stride, Cell(p, m, 0)) > 0
    ensures Times(stride, Times(q, u)) < Times(stride, Cell(p, m, 0))
  {
    assert q * u < p * m by {
      MulMono(q, p - 1, u);
      MulMono(u, m, p - 1);
      assert p * m == (p - 1) * m + m;
      assert m > 0;
    }
    assert stride > 0;
    MulMono(q * u + 1, p * m, stride);
    assert stride * (q * u + 1) == stride * (q * u) + stride;
  }

  /** The entry of the table that a butterfly reads for branch q of column u. */
  lemma {:induction false} TwiddleIndex(tw: seq<Cpx>, stride: nat, w: nat -> Cpx, p: nat, m: nat, q: nat, u: nat)
    requires Reads(tw, stride, w) && Times(stride, Cell(p, m, 0)) == |tw|
    requires q < p && u <= m
    ensures Times(stride, Times(q, u)) < |tw|
    ensures tw[Times(stride, Times(q, u))] == w(Times(q, u))
  {
    hide Times, Cell;
    IndexBound(stride, p, m, q, u);
    var i := Times(stride, Times(q, u));
    DivModUnique(i, |tw|, 0, i);
  }

  /** What a butterfly on p rows of length m is handed. */
  ghost predicate Stage(tw: seq<Cpx>, stride: nat, w: nat -> Cpx, inverse: bool, p: nat, m: nat) {
    && m > 0
    && Level(w, Cell(p, m, 0), inverse)
    && Reads(tw, stride, w)
    && Times(stride, Cell(p, m, 0)) == |tw|
  }

  /** The entry of the table for branch q of column u. */
  function Tw(tw: seq<Cpx>, stride: nat, q: nat, u: nat): Cpx {
    At(tw, Times(stride, Times(q, u)))
  }

  /** What a butterfly finds at the start of column u: its inputs in the buffer and its twiddles in the table. */
  lemma {:induction false} ColumnReady(tw: seq<Cpx>, stride: nat, w: nat -> Cpx, inverse: bool, o: nat, p: nat, m: nat,
                                       u: nat, before: seq<Cpx>, mid: seq<Cpx>)
    requires Stage(tw, stride, w, inverse, p, m) && Slot(o, m, p, 0) <= |mid| && u < m
    requires Progress(w, before, mid, o, p, m, u)
    ensures m > 0 && Level(w, Cell(p, m, 0), inverse)
    ensures w(Times(1, u)) == w(u) && w(Times(1, m)) == w(m)
    ensures forall q: nat | q < p ::
              && Slot(o, m, q, u) < |mid| && mid[Slot(o, m, q, u)] == Column(before, o, m, u)(q)
              && Tw(tw, stride, q, u) == w(Times(q, u)) && Tw(tw, stride, q, m) == w(Times(q, m))
  {
    assert Times(1, u) == u && Times(1, m) == m;
    hide Times, Cell, Reads, Level, Slot, Progress, Column;
    ReadColumn(w, before, mid, o, p, m, u);
    forall q: nat | q < p
      ensures Tw(tw, stride, q, u) == w(Times(q, u)) && Tw(tw, stride, q, m) == w(Times(q, m))
    {
      TwiddleIndex(tw, stride, w, p, m, q, u);
      TwiddleIndex(tw, stride, w, p, m, q, m);
    }
  }

  /** The outputs of a column go to the places of its inputs. */
  method StoreOutputs(fout: array<Cpx>, o: nat, m: nat, u: nat, xs: seq<Cpx>)
    requires forall q: nat | q < |xs| :: Slot(o, m, q, u) < fout.Length
    modifies fout
    ensures fout[..] == Put(old(fout[..]), o, m, u, xs)
  {
    hide Slot, Put;
    ghost var mid := fout[..];
    PutNone(mid, o, m, u);
    assert xs[..0] == [];
    for q := 0 to |xs|
      invariant fout[..] == Put(mid, o, m, u, xs[..q])
    {
      PutStep(mid, o, m, u, xs[..q], xs[q]);
      assert xs[..q] + [xs[q]] == xs[..q + 1];
      fout[Slot(o, m, q, u)] := xs[q];
    }
    assert xs[..|xs|] == xs;
  }

  // ----- butterflies

  /** The outputs of one column: the arithmetic of the radix on the inputs, the twiddles and the constants. */
  function Outputs(p: nat, f: seq<Cpx>, t: seq<Cpx>, y: seq<Cpx>, inverse: bool): (xs: seq<Cpx>)
    requires 2 <= p <= 5 && |f| == |t| == |y| == p
    ensures |xs| == p
  {
    match p
    case 2 =>
      var x := Radix2(f[0], f[1], t[1]);
      [x.0, x.1]
    case 3 =>
      var x := Radix3(f[0], f[1], f[2], t[1], t[2], y[1]);
      [x.0, x.1, x.2]
    case 4 =>
      var x := Radix4(f[0], f[1], f[2], f[3], t[1], t[2], t[3], inverse);
      [x.0, x.1, x.2, x.3]
    case _ =>
      var x := Radix5(f[0], f[1], f[2], f[3], f[4], t[1], t[2], t[3], t[4], y[1], y[2]);
      [x.0, x.1, x.2, x.3, x.4]
  }

  /** Inputs and twiddles of column u as the table gives them. */
  ghost predicate Inputs(w: nat -> Cpx, b: nat -> Cpx, p: nat, m: nat, u: nat, f: seq<Cpx>, t: seq<Cpx>, y: seq<Cpx>) {
    && |f| == |t| == |y| == p
    && forall q: nat | q < p :: f[q] == b(q) && t[q] == w(Times(q, u)) && y[q] == w(Times(q, m))
  }

  lemma TimesOne(u: nat)
    ensures Times(1, u) == u
  {}

  lemma OutputsAre(p: nat, w: nat -> Cpx, b: nat -> Cpx, m: nat, u: nat, inverse: bool,
                   f: seq<Cpx>, t: seq<Cpx>, y: seq<Cpx>)
    requires 2 <= p <= 5 && Inputs(w, b, p, m, u, f, t, y)
    ensures var xs := Outputs(p, f, t, y, inverse);
            && (p == 2 ==> (xs[0], xs[1]) == Radix2(b(0), b(1), w(Times(1, u))))
            && (p == 3 ==>
                  (xs[0], xs[1], xs[2]) == Radix3(b(0), b(1), b(2), w(Times(1, u)), w(Times(2, u)), w(Times(1, m))))
            && (p == 4 ==> (xs[0], xs[1], xs[2], xs[3])
                           == Radix4(b(0), b(1), b(2), b(3), w(Times(1, u)), w(Times(2, u)), w(Times(3, u)), inverse))
            && (p == 5 ==> (xs[0], xs[1], xs[2], xs[3], xs[4])
                           == Radix5(b(0), b(1), b(2), b(3), b(4), w(Times(1, u)), w(Times(2, u)), w(Times(3, u)),
                                     w(Times(4, u)), w(Times(1, m)), w(Times(2, m))))
  {
    hide Times, Radix2, Radix3, Radix4, Radix5;
  }

  /** Every radix computes the transform of its column. */
  lemma {:induction false} OutputsCorrect(p: nat, w: nat -> Cpx, b: nat -> Cpx, m: nat, u: nat, inverse: bool,
                                          f: seq<Cpx>, t: seq<Cpx>, y: seq<Cpx>)
    requires 2 <= p <= 5 && m > 0 && Level(w, Cell(p, m, 0), inverse) && Inputs(w, b, p, m, u, f, t, y)
    ensures forall q1: nat | q1 < p :: Outputs(p, f, t, y, inverse)[q1] == Transform(w, b, p, Cell(m, q1, u))
  {
    hide *;
    TimesOne(u);
    TimesOne(m);
    OutputsAre(p, w, b, m, u, inverse, f, t, y);
    match p {
      case 2 => Radix2Correct(w, b, m, u, inverse);
      case 3 => Radix3Correct(w, b, m, u, inverse);
      case 4 => Radix4Correct(w, b, m, u, inverse);
      case _ => Radix5Correct(w, b, m, u, inverse);
    }
  }

  /** One column of a butterfly of radix two to five. */
  method ButterflyColumn(fout: array<Cpx>, o: nat, fstride: nat, tw: seq<Cpx>, m: nat, p: nat, u: nat, inverse: bool,
                         ghost w: nat -> Cpx, ghost before: seq<Cpx>)
    requires 2 <= p <= 5 && u < m && Stage(tw, fstride, w, inverse, p, m) && Slot(o, m, p, 0) <= fout.Length
    requires Progress(w, before, fout[..], o, p, m, u)
    modifies fout
    ensures Progress(w, before, fout[..], o, p, m, u + 1)
  {
    hide *;
    ghost var mid := fout[..];
    ColumnReady(tw, fstride, w, inverse, o, p, m, u, before, mid);
    var f := seq(p, q requires 0 <= q < p && Slot(o, m, q, u) < fout.Length reads fout => fout[Slot(o, m, q, u)]);
    var t := seq(p, q requires 0 <= q < p => Tw(tw, fstride, q, u));
    var y := seq(p, q requires 0 <= q < p => Tw(tw, fstride, q, m));
    InputsIs(w, Column(before, o, m, u), p, m, u, f, t, y);
    OutputsCorrect(p, w, Column(before, o, m, u), m, u, inverse, f, t, y);
    var xs := Outputs(p, f, t, y, inverse);
    StoreColumn(w, before, mid, o, m, u, xs);
    StoreOutputs(fout, o, m, u, xs);
  }

  lemma InputsIs(w: nat -> Cpx, b: nat -> Cpx, p: nat, m: nat, u: nat, f: seq<Cpx>, t: seq<Cpx>, y: seq<Cpx>)
    requires |f| == |t| == |y| == p
    requires forall q: nat | q < p :: f[q] == b(q) && t[q] == w(Times(q, u)) && y[q] == w(Times(q, m))
    ensures Inputs(w, b, p, m, u, f, t, y)
  {}

  method Bfly2(fout: array<Cpx>, o: nat, fstride: nat, tw: seq<Cpx>, m: nat, inverse: bool, ghost w: nat -> Cpx)
    requires Stage(tw, fstride, w, inverse, 2, m) && Slot(o, m, 2, 0) <= fout.Length
    modifies fout
    ensures Progress(w, old(fout[..]), fout[..], o, 2, m, m)
  {
    ghost var before := fout[..];
    for u := 0 to m
      invariant Progress(w, before, fout[..], o, 2, m, u)
    {
      hide *;
      ButterflyColumn(fout, o, fstride, tw, m, 2, u, inverse, w, before);
    }
  }

  method Bfly3(fout: array<Cpx>, o: nat, fstride: nat, tw: seq<Cpx>, m: nat, inverse: bool, ghost w: nat -> Cpx)
    requires Stage(tw, fstride, w, inverse, 3, m) && Slot(o, m, 3, 0) <= fout.Length
    modifies fout
    ensures Progress(w, old(fout[..]), fout[..], o, 3, m, m)
  {
    ghost var before := fout[..];
    for u := 0 to m
      invariant Progress(w, before, fout[..], o, 3, m, u)
    {
      hide *;
      ButterflyColumn(fout, o, fstride, tw, m, 3, u, inverse, w, before);
    }
  }

  method Bfly4(fout: array<Cpx>, o: nat, fstride: nat, tw: seq<Cpx>, m: nat, inverse: bool, ghost w: nat -> Cpx)
    requires Stage(tw, fstride, w, inverse, 4, m) && Slot(o, m, 4, 0) <= fout.Length
    modifies fout
    ensures Progress(w, old(fout[..]), fout[..], o, 4, m, m)
  {
    ghost var before := fout[..];
    for u := 0 to m
      invariant Progress(w, before, fout[..], o, 4, m, u)
    {
      hide *;
      ButterflyColumn(fout, o, fstride, tw, m, 4, u, inverse, w, before);
    }
  }

  method Bfly5(fout: array<Cpx>, o: nat, fstride: nat, tw: seq<Cpx>, m: nat, inverse: bool, ghost w: nat -> Cpx)
    requires Stage(tw, fstride, w, inverse, 5, m) && Slot(o, m, 5, 0) <= fout.Length
    modifies fout
    ensures Progress(w, old(fout[..]), fout[..], o, 5, m, m)
  {
    ghost var before := fout[..];
    for u := 0 to m
      invariant Progress(w, before, fout[..], o, 5, m, u)
    {
      hide *;
      ButterflyColumn(fout, o, fstride, tw, m, 5, u, inverse, w, before);
    }
  }

  // ----- the generic butterfly

  lemma ModStep(a: nat, c: nat, n: nat)
    requires c < n
    ensures var t := a % n + c; (if n <= t then t - n else t) == (a + c) % n
  {
    var t := a % n + c;
    ModAdd(a, c, n);
    DivModUnique(c, n, 0, c);
    if n <= t {
      DivModUnique(t, n, 1, t - n);
    } else {
      DivModUnique(t, n, 0, t);
    }
  }

  lemma TimesDist(stride: nat, q: nat, k: nat)
    ensures Times(stride, Times(q + 1, k)) == Times(stride, Times(q, k)) + Times(stride, k)
  {
    assert stride * ((q + 1) * k) == stride * (q * k) + stride * k;
  }

  /** The twiddle index that the generic butterfly keeps by repeated addition. */
  lemma {:induction false} NextTwiddle(tw: seq<Cpx>, stride: nat, w: nat -> Cpx, q: nat, k: nat)
    requires Reads(tw, stride, w) && Times(stride, k) < |tw|
    ensures var t := Times(stride, Times(q, k)) % |tw| + Times(stride, k);
            (if |tw| <= t then t - |tw| else t) == Times(stride, Times(q + 1, k)) % |tw|
    ensures tw[Times(stride, Times(q + 1, k)) % |tw|] == w(Times(q + 1, k))
  {
    hide Times;
    TimesDist(stride, q, k);
    ModStep(Times(stride, Times(q, k)), Times(stride, k), |tw|);
  }

  /** Output k of the generic butterfly: the inputs turned and added up one by one. */
  method GenericBin(scratch: seq<Cpx>, k: nat, fstride: nat, tw: seq<Cpx>, ghost w: nat -> Cpx, ghost n: nat)
    returns (acc: Cpx)
    requires |scratch| > 0 && Reads(tw, fstride, w) && Times(fstride, k) < |tw| && Root(w, n)
    ensures acc == Transform(w, (q: nat) => At(scratch, q), |scratch|, k)
  {
    hide Mul, Times, Reads, Root;
    acc := scratch[0];
    var twidx := 0;
    ghost var term := (q: nat) => Mul(At(scratch, q), w(Times(q, k)));
    assert acc == Sum(1, term) && Times(fstride, Times(0, k)) % |tw| == 0 by {
      TimesSteps(k, 0);
      TimesSteps(fstride, 0);
      Unity(w, n);
      MulOne(scratch[0]);
      SumOne(term);
    }
    for q := 1 to |scratch|
      invariant acc == Sum(q, term)
      invariant twidx == Times(fstride, Times(q - 1, k)) % |tw|
    {
      NextTwiddle(tw, fstride, w, q - 1, k);
      twidx := twidx + Times(fstride, k);
      if |tw| <= twidx {
        twidx := twidx - |tw|;
      }
      acc := Add(acc, Mul(scratch[q], tw[twidx]));
    }
    SumCong(|scratch|, term, (j: nat) => Mul(((q: nat) => At(scratch, q))(j), w(Times(j, k))));
  }

  lemma SumOne(f: nat -> Cpx)
    ensures Sum(1, f) == f(0)
  {
    assert f(0) == Cpx(f(0).r, f(0).i);
  }

  lemma {:induction false} GenericInputs(w: nat -> Cpx, before: seq<Cpx>, o: nat, m: nat, u: nat, scratch: seq<Cpx>,
                                         k: nat)
    requires forall q: nat | q < |scratch| :: scratch[q] == Column(before, o, m, u)(q)
    ensures Transform(w, (q: nat) => At(scratch, q), |scratch|, k)
            == Transform(w, Column(before, o, m, u), |scratch|, k)
  {
    hide Column, Slot;
    TransformCong(w, (q: nat) => At(scratch, q), w, Column(before, o, m, u), |scratch|, k);
  }

  lemma {:induction false} GenericIndex(tw: seq<Cpx>, stride: nat, w: nat -> Cpx, inverse: bool, p: nat, m: nat,
                                        q1: nat, u: nat)
    requires Stage(tw, stride, w, inverse, p, m) && q1 < p && u < m
    ensures Reads(tw, stride, w) && Root(w, Cell(p, m, 0)) && Times(stride, Cell(m, q1, u)) < |tw|
  {
    assert stride * (m * q1 + u) < stride * (p * m) by {
      BlockBound(m, q1, u, p);
      assert stride > 0;
      MulMono(m * q1 + u + 1, m * p, stride);
      assert stride * (m * q1 + u + 1) == stride * (m * q1 + u) + stride;
    }
  }

  method GenericColumn(fout: array<Cpx>, o: nat, fstride: nat, tw: seq<Cpx>, m: nat, p: nat, u: nat,
                       ghost w: nat -> Cpx, ghost inverse: bool, ghost before: seq<Cpx>)
    requires 0 < p && u < m && Stage(tw, fstride, w, inverse, p, m) && Slot(o, m, p, 0) <= fout.Length
    requires Progress(w, before, fout[..], o, p, m, u)
    modifies fout
    ensures Progress(w, before, fout[..], o, p, m, u + 1)
  {
    hide *;
    ghost var mid := fout[..];
    ReadColumn(w, before, mid, o, p, m, u);
    var scratch: seq<Cpx> := [];
    for q1 := 0 to p
      invariant |scratch| == q1
      invariant forall q: nat | q < q1 :: scratch[q] == Column(before, o, m, u)(q)
    {
      scratch := scratch + [fout[Slot(o, m, q1, u)]];
    }
    ghost var xs: seq<Cpx> := [];
    PutNone(mid, o, m, u);
    for q1 := 0 to p
      invariant |xs| == q1
      invariant fout[..] == Put(mid, o, m, u, xs)
      invariant forall q: nat | q < q1 :: xs[q] == Transform(w, Column(before, o, m, u), p, Cell(m, q, u))
    {
      GenericIndex(tw, fstride, w, inverse, p, m, q1, u);
      var x := GenericBin(scratch, Cell(m, q1, u), fstride, tw, w, Cell(p, m, 0));
      GenericInputs(w, before, o, m, u, scratch, Cell(m, q1, u));
      PutStep(mid, o, m, u, xs, x);
      fout[Slot(o, m, q1, u)] := x;
      xs := xs + [x];
    }
    StoreColumn(w, before, mid, o, m, u, xs);
  }

  method BflyGeneric(fout: array<Cpx>, o: nat, fstride: nat, tw: seq<Cpx>, m: nat, p: nat,
                     ghost w: nat -> Cpx, ghost inverse: bool)
    requires p > 0 && Stage(tw, fstride, w, inverse, p, m) && Slot(o, m, p, 0) <= fout.Length
    modifies fout
    ensures Progress(w, old(fout[..]), fout[..], o, p, m, m)
  {
    ghost var before := fout[..];
    for u := 0 to m
      invariant Progress(w, before, fout[..], o, p, m, u)
    {
      hide *;
      GenericColumn(fout, o, fstride, tw, m, p, u, w, inverse, before);
    }
  }
}
