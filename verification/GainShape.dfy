/** gain_shape_vq_amp of ampexp.c: every codeword is compared after shifting it by the gain that suits it best. */
module GainShape {
  import opened SparseVq
  import C = Complex

  /** The weighted squared error of codeword j raised by a gain, over the nonzero bins among the first n. */
  function Error(vec: Spectrum, weights: Spectrum, vq: Codebook, j: nat, gain: real, n: nat): real
    requires vq.Valid() && j < vq.m && n <= vq.k
  {
    if n == 0 then 0.0
    else Error(vec, weights, vq, j, gain, n - 1) + Term(vec, weights, vq, j, gain, n - 1)
  }

  function Term(vec: Spectrum, weights: Spectrum, vq: Codebook, j: nat, gain: real, i: nat): real
    requires vq.Valid() && j < vq.m && i < vq.k
  {
    var bin := vq.offset + i;
    if vec[bin] == 0.0 then 0.0
    else
      var diff := vec[bin] - vq.Entry(j, i) - gain;
      weights[bin] * diff * diff
  }

  /** The weighted sum of what a codeword raised by a gain leaves over. */
  function Rest(vec: Spectrum, weights: Spectrum, vq: Codebook, j: nat, gain: real, n: nat): real
    requires vq.Valid() && j < vq.m && n <= vq.k
  {
    if n == 0 then 0.0
    else Rest(vec, weights, vq, j, gain, n - 1) + Pull(vec, weights, vq, j, gain, n - 1)
  }

  function Pull(vec: Spectrum, weights: Spectrum, vq: Codebook, j: nat, gain: real, i: nat): real
    requires vq.Valid() && j < vq.m && i < vq.k
  {
    var bin := vq.offset + i;
    if vec[bin] == 0.0 then 0.0 else weights[bin] * (vec[bin] - vq.Entry(j, i) - gain)
  }

  /** The weights of the nonzero bins together. */
  function Mass(vec: Spectrum, weights: Spectrum, vq: Codebook, n: nat): real
    requires vq.Valid() && n <= vq.k
  {
    if n == 0 then 0.0 else Mass(vec, weights, vq, n - 1) + Weight(vec, weights, vq, n - 1)
  }

  function Weight(vec: Spectrum, weights: Spectrum, vq: Codebook, i: nat): real
    requires vq.Valid() && i < vq.k
  {
    var bin := vq.offset + i;
    if vec[bin] == 0.0 then 0.0 else weights[bin]
  }

  /** A parabola by its value, slope and curvature at the point the distance d is taken from. */
  function Quadratic(e: real, r: real, m: real, d: real): real {
    e - 2.0 * d * r + d * d * m
  }

  lemma QuadraticSum(e: real, r: real, m: real, e': real, r': real, m': real, d: real)
    ensures Quadratic(e + e', r + r', m + m', d) == Quadratic(e, r, m, d) + Quadratic(e', r', m', d)
  {
    assert 2.0 * d * (r + r') == 2.0 * d * r + 2.0 * d * r';
    assert d * d * (m + m') == d * d * m + d * d * m';
  }

  lemma QuadraticTerm(w: real, x: real, g: real, d: real)
    ensures w * (x - (g + d)) * (x - (g + d)) == Quadratic(w * (x - g) * (x - g), w * (x - g), w, d)
  {
    var y := x - g;
    assert x - (g + d) == y - d;
    assert w * (y - d) * (y - d) == w * y * y - 2.0 * d * (w * y) + d * d * w;
  }

  /** The error as a function of the gain is a parabola. */
  lemma {:induction false} Parabola(vec: Spectrum, weights: Spectrum, vq: Codebook, j: nat, g: real, d: real, n: nat)
    requires vq.Valid() && j < vq.m && n <= vq.k
    ensures Error(vec, weights, vq, j, g + d, n)
            == Quadratic(Error(vec, weights, vq, j, g, n), Rest(vec, weights, vq, j, g, n),
                         Mass(vec, weights, vq, n), d)
  {
    if n != 0 {
      Parabola(vec, weights, vq, j, g, d, n - 1);
      TermParabola(vec, weights, vq, j, g, d, n - 1);
      hide Term, Quadratic, Pull, Weight;
      QuadraticSum(Error(vec, weights, vq, j, g, n - 1), Rest(vec, weights, vq, j, g, n - 1),
                   Mass(vec, weights, vq, n - 1),
                   Term(vec, weights, vq, j, g, n - 1), Pull(vec, weights, vq, j, g, n - 1),
                   Weight(vec, weights, vq, n - 1), d);
    }
  }

  lemma TermParabola(vec: Spectrum, weights: Spectrum, vq: Codebook, j: nat, g: real, d: real, i: nat)
    requires vq.Valid() && j < vq.m && i < vq.k
    ensures Term(vec, weights, vq, j, g + d, i)
            == Quadratic(Term(vec, weights, vq, j, g, i), Pull(vec, weights, vq, j, g, i),
                         Weight(vec, weights, vq, i), d)
  {
    var bin := vq.offset + i;
    if vec[bin] != 0.0 {
      hide Quadratic;
      QuadraticTerm(weights[bin], vec[bin] - vq.Entry(j, i), g, d);
    }
  }

  /** The gain the code computes: the mean of the differences between input and codeword. */
  function Optimum(vec: Spectrum, vq: Codebook, j: nat): real
    requires vq.Valid() && j < vq.m && Mass(vec, Ones(), vq, vq.k) != 0.0
  {
    Rest(vec, Ones(), vq, j, 0.0, vq.k) / Mass(vec, Ones(), vq, vq.k)
  }

  lemma {:induction false} RestShift(vec: Spectrum, weights: Spectrum, vq: Codebook, j: nat, g: real, n: nat)
    requires vq.Valid() && j < vq.m && n <= vq.k
    ensures Rest(vec, weights, vq, j, g, n) == Rest(vec, weights, vq, j, 0.0, n) - g * Mass(vec, weights, vq, n)
  {
    if n != 0 {
      RestShift(vec, weights, vq, j, g, n - 1);
    }
  }

  lemma {:induction false} MassOnes(vec: Spectrum, vq: Codebook, n: nat)
    requires vq.Valid() && n <= vq.k
    ensures Mass(vec, Ones(), vq, n) == NonZero(vec, vq.offset, vq.offset + n) as real
  {
    if n != 0 {
      MassOnes(vec, vq, n - 1);
    }
  }

  function Gap(n: nat, d: real): real {
    n as real * C.Square(d)
  }

  /** The error at any gain exceeds that at the computed gain by the number of bins times the squared distance. */
  lemma {:induction false} ErrorAround(vec: Spectrum, vq: Codebook, j: nat, g: real)
    requires vq.Valid() && j < vq.m && NonZero(vec, vq.offset, vq.offset + vq.k) > 0
    ensures Mass(vec, Ones(), vq, vq.k) > 0.0
    ensures var best := Optimum(vec, vq, j);
            Error(vec, Ones(), vq, j, g, vq.k)
            == Error(vec, Ones(), vq, j, best, vq.k) + Gap(NonZero(vec, vq.offset, vq.offset + vq.k), g - best)
  {
    OptimumRest(vec, vq, j);
    MassOnes(vec, vq, vq.k);
    hide *;
    var best, n := Optimum(vec, vq, j), NonZero(vec, vq.offset, vq.offset + vq.k);
    Parabola(vec, Ones(), vq, j, best, g - best, vq.k);
    assert best + (g - best) == g;
    Flat(Error(vec, Ones(), vq, j, best, vq.k), n, g - best);
  }

  /** Raised by the computed gain, a codeword leaves nothing over on average. */
  lemma {:induction false} OptimumRest(vec: Spectrum, vq: Codebook, j: nat)
    requires vq.Valid() && j < vq.m && NonZero(vec, vq.offset, vq.offset + vq.k) > 0
    ensures Mass(vec, Ones(), vq, vq.k) > 0.0
    ensures Rest(vec, Ones(), vq, j, Optimum(vec, vq, j), vq.k) == 0.0
  {
    MassOnes(vec, vq, vq.k);
    hide Error, Rest, Mass, NonZero, Ones;
    var best := Optimum(vec, vq, j);
    RestShift(vec, Ones(), vq, j, best, vq.k);
    NoRest(Rest(vec, Ones(), vq, j, 0.0, vq.k), Mass(vec, Ones(), vq, vq.k), best);
  }

  lemma NoRest(rest: real, mass: real, best: real)
    requires mass != 0.0 && best == rest / mass
    ensures rest - best * mass == 0.0
  {}

  lemma Flat(e: real, n: nat, d: real)
    ensures Quadratic(e, 0.0, n as real, d) == e + Gap(n, d)
  {}

  /** No gain gives a smaller unweighted error than the computed one, and no other gain gives the same. */
  lemma {:induction false} GainOptimal(vec: Spectrum, vq: Codebook, j: nat, g: real)
    requires vq.Valid() && j < vq.m && NonZero(vec, vq.offset, vq.offset + vq.k) > 0
    ensures Mass(vec, Ones(), vq, vq.k) > 0.0
    ensures var best := Optimum(vec, vq, j);
            g != best ==> Error(vec, Ones(), vq, j, best, vq.k) < Error(vec, Ones(), vq, j, g, vq.k)
  {
    MassOnes(vec, vq, vq.k);
    ErrorAround(vec, vq, j, g);
    var best, n := Optimum(vec, vq, j), NonZero(vec, vq.offset, vq.offset + vq.k);
    if g != best {
      GapPositive(n, g - best);
    }
    hide *;
  }

  lemma GapPositive(n: nat, d: real)
    requires n > 0 && d != 0.0
    ensures Gap(n, d) > 0.0
  {
    C.SquarePositive(d);
    hide C.Square;
    Positive(n as real, C.Square(d));
  }

  lemma Positive(a: real, b: real)
    requires a > 0.0 && b > 0.0
    ensures a * b > 0.0
  {}

  /**
   * The search however compares the weighted errors at the gains that suit the unweighted ones. Such a gain also
   * minimises the weighted error exactly when the weighted rest it leaves is zero.
   */
  lemma {:induction false} WeightedOptimal(vec: Spectrum, weights: Spectrum, vq: Codebook, j: nat, best: real)
    requires vq.Valid() && j < vq.m && Mass(vec, weights, vq, vq.k) > 0.0
    ensures (forall g :: Error(vec, weights, vq, j, best, vq.k) <= Error(vec, weights, vq, j, g, vq.k))
            <==> Rest(vec, weights, vq, j, best, vq.k) == 0.0
  {
    hide Error, Rest, Mass;
    var rest, mass := Rest(vec, weights, vq, j, best, vq.k), Mass(vec, weights, vq, vq.k);
    if rest == 0.0 {
      forall g ensures Error(vec, weights, vq, j, best, vq.k) <= Error(vec, weights, vq, j, g, vq.k) {
        Parabola(vec, weights, vq, j, best, g - best, vq.k);
        assert best + (g - best) == g;
        NotNegative(g - best, mass);
      }
    } else {
      var d := rest / mass;
      Parabola(vec, weights, vq, j, best, d, vq.k);
      Descent(Error(vec, weights, vq, j, best, vq.k), rest, mass);
      assert Error(vec, weights, vq, j, best + d, vq.k) < Error(vec, weights, vq, j, best, vq.k);
    }
  }

  /** The computed gain minimises the weighted error exactly when the weights do not move the mean difference. */
  lemma {:induction false} GainWeighted(vec: Spectrum, weights: Spectrum, vq: Codebook, j: nat)
    requires vq.Valid() && j < vq.m && Mass(vec, Ones(), vq, vq.k) > 0.0 && Mass(vec, weights, vq, vq.k) > 0.0
    ensures var gain := Optimum(vec, vq, j);
            (forall g :: Error(vec, weights, vq, j, gain, vq.k) <= Error(vec, weights, vq, j, g, vq.k))
            <==> Rest(vec, weights, vq, j, 0.0, vq.k) / Mass(vec, weights, vq, vq.k) == gain
  {
    hide Error, Rest, Mass, Optimum;
    var gain := Optimum(vec, vq, j);
    WeightedOptimal(vec, weights, vq, j, gain);
    RestShift(vec, weights, vq, j, gain, vq.k);
    MeanIs(Rest(vec, weights, vq, j, 0.0, vq.k), Mass(vec, weights, vq, vq.k), gain);
  }

  lemma MeanIs(rest: real, mass: real, gain: real)
    requires mass > 0.0
    ensures rest - gain * mass == 0.0 <==> rest / mass == gain
  {}

  lemma ErrorStep(vec: Spectrum, weights: Spectrum, vq: Codebook, gain: real, i: nat, x: real, w: real, e: real)
    requires vq.Valid() && i < vq.k && vq.Entry(0, i) == 0.0
    requires vec[vq.offset + i] == x != 0.0 && weights[vq.offset + i] == w && e == w * (x - gain) * (x - gain)
    ensures Error(vec, weights, vq, 0, gain, i + 1) == Error(vec, weights, vq, 0, gain, i) + e
  {}

  /** Two bins whose weights move the mean: the computed gain is 1.5, the weighted error is least at 1.75. */
  lemma {:induction false} GainNotWeighted()
    ensures var vq := Codebook(2, 1, 0, [0.0, 0.0]);
            var vec: Spectrum := Silence()[0 := 1.0][1 := 2.0];
            var weights: Spectrum := Silence()[0 := 1.0][1 := 3.0];
            && Mass(vec, Ones(), vq, 2) == 2.0 && Optimum(vec, vq, 0) == 1.5
            && Error(vec, weights, vq, 0, 1.75, 2) < Error(vec, weights, vq, 0, 1.5, 2)
  {
    var vq := Codebook(2, 1, 0, [0.0, 0.0]);
    var vec: Spectrum := Silence()[0 := 1.0][1 := 2.0];
    var weights: Spectrum := Silence()[0 := 1.0][1 := 3.0];
    assert vec[0] == 1.0 && vec[1] == 2.0 && weights[0] == 1.0 && weights[1] == 3.0;
    assert vq.Entry(0, 0) == 0.0 && vq.Entry(0, 1) == 0.0;
    assert Mass(vec, Ones(), vq, 1) == 1.0;
    assert Rest(vec, Ones(), vq, 0, 0.0, 1) == 1.0;
    ErrorStep(vec, weights, vq, 1.5, 0, 1.0, 1.0, 0.25);
    ErrorStep(vec, weights, vq, 1.5, 1, 2.0, 3.0, 0.75);
    ErrorStep(vec, weights, vq, 1.75, 0, 1.0, 1.0, 0.5625);
    ErrorStep(vec, weights, vq, 1.75, 1, 2.0, 3.0, 0.1875);
    hide Term;
    assert Error(vec, weights, vq, 0, 1.5, 0) == 0.0 == Error(vec, weights, vq, 0, 1.75, 0);
  }

  lemma NotNegative(d: real, m: real)
    requires m > 0.0
    ensures d * d * m >= 0.0
  {
    assert d * d >= 0.0;
  }

  lemma Descent(e: real, rest: real, mass: real)
    requires mass > 0.0 && rest != 0.0
    ensures Quadratic(e, rest, mass, rest / mass) < e
  {
    var d := rest / mass;
    NoRest(rest, mass, d);
    assert d * d * mass == d * rest == mass * C.Square(d);
    assert Quadratic(e, rest, mass, d) == e - mass * C.Square(d);
    C.SquarePositive(d);
    hide C.Square;
    Positive(mass, C.Square(d));
  }

  /** The gain handed back: untouched if no codeword is within the limit, 0/0 if there is no nonzero bin. */
  datatype Gain = Untouched | NotANumber | Gain(value: real)

  function GainOf(vec: Spectrum, vq: Codebook, j: nat): Gain
    requires vq.Valid() && j < vq.m
  {
    if Mass(vec, Ones(), vq, vq.k) == 0.0 then NotANumber else Gain(Optimum(vec, vq, j))
  }

  /** The weighted error of codeword j at its own gain; without a nonzero bin there is none. */
  function ShapeMetric(vec: Spectrum, weights: Spectrum, vq: Codebook, j: nat): real
    requires vq.Valid() && j < vq.m
  {
    match GainOf(vec, vq, j)
    case Gain(g) => Error(vec, weights, vq, j, g, vq.k)
    case _ => 0.0
  }

  /** A codeword raised by a gain. */
  function Raised(word: seq<real>, gain: real): (r: seq<real>)
    ensures |r| == |word| && forall i | 0 <= i < |word| :: r[i] == word[i] + gain
  {
    seq(|word|, i requires 0 <= i < |word| => word[i] + gain)
  }

  lemma {:induction false} ErrorIs(vec: Spectrum, weights: Spectrum, vq: Codebook, j: nat, gain: real, n: nat)
    requires vq.Valid() && j < vq.m && n <= vq.k
    ensures Error(vec, weights, vq, j, gain, n)
            == Distance(vq.Band(vec)[..n], vq.Band(weights)[..n], Raised(vq.Word(j), gain)[..n])
  {
    hide Codebook.Entry, Codebook.Word;
    if n != 0 {
      ErrorIs(vec, weights, vq, j, gain, n - 1);
      EntryIs(vq, j, n - 1);
      Prefix(vq.Band(vec), n);
      Prefix(vq.Band(weights), n);
      Prefix(Raised(vq.Word(j), gain), n);
      SameSquare(weights[vq.offset + n - 1], vec[vq.offset + n - 1], vq.Word(j)[n - 1], gain);
    }
  }

  lemma SameSquare(w: real, x: real, y: real, g: real)
    ensures w * (x - y - g) * (x - y - g) == w * (y + g - x) * (y + g - x)
  {
    var d := x - y - g;
    assert y + g - x == -d;
    assert w * -d * -d == w * d * d;
  }

  /** What is compared: the weighted distance of the codeword in the table, raised by its gain. */
  lemma {:induction false} ShapeIs(vec: Spectrum, weights: Spectrum, vq: Codebook, j: nat)
    requires vq.Valid() && j < vq.m
    ensures GainOf(vec, vq, j).Gain? <==> exists i | 0 <= i < vq.k :: vq.Band(vec)[i] != 0.0
    ensures GainOf(vec, vq, j).Gain? ==>
              ShapeMetric(vec, weights, vq, j)
              == Distance(vq.Band(vec), vq.Band(weights), Raised(vq.Word(j), GainOf(vec, vq, j).value))
    ensures !GainOf(vec, vq, j).Gain? ==> ShapeMetric(vec, weights, vq, j) == 0.0
  {
    hide Codebook.Word, Error, Optimum, Mass;
    MassOnes(vec, vq, vq.k);
    SomeNonZero(vec, vq, vq.k);
    if GainOf(vec, vq, j).Gain? {
      var word := Raised(vq.Word(j), GainOf(vec, vq, j).value);
      ErrorIs(vec, weights, vq, j, GainOf(vec, vq, j).value, vq.k);
      assert vq.Band(vec)[..vq.k] == vq.Band(vec) && vq.Band(weights)[..vq.k] == vq.Band(weights);
      assert word[..vq.k] == word;
    }
  }

  lemma {:induction false} SomeNonZero(vec: Spectrum, vq: Codebook, n: nat)
    requires vq.Valid() && n <= vq.k
    ensures NonZero(vec, vq.offset, vq.offset + n) > 0 <==> exists i | 0 <= i < n :: vq.Band(vec)[i] != 0.0
  {
    if n != 0 {
      SomeNonZero(vec, vq, n - 1);
      assert vq.Band(vec)[n - 1] == vec[vq.offset + n - 1];
    }
  }

  /** gain_shape_vq_amp: the first codeword with the smallest weighted error at its own gain, and that gain. */
  method GainShapeVqAmp(vec: array<real>, weights: array<real>, vq: Codebook, se: real)
    returns (besti: nat, bestGain: Gain, se': real)
    requires vec.Length == weights.Length == BINS && vq.Valid()
    ensures besti < vq.m
    ensures se' == se + if bestGain.Untouched? then LIMIT else ShapeMetric(vec[..], Ones(), vq, besti)
    ensures bestGain.Untouched? ==>
              besti == 0 && forall j | 0 <= j < vq.m :: ShapeMetric(vec[..], weights[..], vq, j) >= LIMIT
    ensures !bestGain.Untouched? ==>
              && ShapeMetric(vec[..], weights[..], vq, besti) < LIMIT
              && bestGain == GainOf(vec[..], vq, besti)
              && (forall j | 0 <= j < vq.m ::
                    ShapeMetric(vec[..], weights[..], vq, besti) <= ShapeMetric(vec[..], weights[..], vq, j))
              && (forall j | 0 <= j < besti ::
                    ShapeMetric(vec[..], weights[..], vq, besti) < ShapeMetric(vec[..], weights[..], vq, j))
  {
    hide ShapeMetric;
    ghost var v: Spectrum, w: Spectrum := vec[..], weights[..];
    besti, bestGain := 0, Untouched;
    var bestMetric, bestError := LIMIT, LIMIT;
    for j := 0 to vq.m
      invariant besti < vq.m && bestMetric <= LIMIT
      invariant forall i | 0 <= i < j :: bestMetric <= ShapeMetric(v, w, vq, i)
      invariant bestError == if bestGain.Untouched? then LIMIT else ShapeMetric(v, Ones(), vq, besti)
      invariant if bestGain.Untouched? then besti == 0 && bestMetric == LIMIT
                else && bestMetric == ShapeMetric(v, w, vq, besti) < LIMIT && bestGain == GainOf(v, vq, besti)
                     && forall i | 0 <= i < besti :: bestMetric < ShapeMetric(v, w, vq, i)
    {
      var gain, metric, error := AtOwnGain(vec, weights, vq, j);
      if metric < bestMetric {
        bestError, bestMetric, bestGain, besti := error, metric, gain, j;
      }
    }
    se' := se + bestError;
  }

  /** The body of the search: the gain of one codeword, then its error there. */
  method AtOwnGain(vec: array<real>, weights: array<real>, vq: Codebook, j: nat)
    returns (gain: Gain, metric: real, error: real)
    requires vec.Length == weights.Length == BINS && vq.Valid() && j < vq.m
    ensures gain == GainOf(vec[..], vq, j) && !gain.Untouched?
    ensures metric == ShapeMetric(vec[..], weights[..], vq, j) && error == ShapeMetric(vec[..], Ones(), vq, j)
  {
    hide Codebook.Entry;
    ghost var v: Spectrum, w: Spectrum := vec[..], weights[..];
    var sumAm, sumCb, m := 0.0, 0.0, 0;
    for i := 0 to vq.k
      invariant sumAm - sumCb == Rest(v, Ones(), vq, j, 0.0, i) && m as real == Mass(v, Ones(), vq, i)
    {
      if vec[vq.offset + i] != 0.0 {
        m := m + 1;
        sumAm := sumAm + vec[vq.offset + i];
        sumCb := sumCb + vq.Entry(j, i);
      }
    }
    gain := if m == 0 then NotANumber else Gain((sumAm - sumCb) / m as real);
    if m == 0 {
      return gain, 0.0, 0.0;
    }
    metric, error := ErrorAt(vec, weights, vq, j, gain.value);
  }

  lemma ErrorNone(vec: Spectrum, weights: Spectrum, vq: Codebook, j: nat, gain: real)
    requires vq.Valid() && j < vq.m
    ensures Error(vec, weights, vq, j, gain, 0) == 0.0
  {}

  lemma ErrorNext(vec: Spectrum, weights: Spectrum, vq: Codebook, j: nat, gain: real, i: nat)
    requires vq.Valid() && j < vq.m && i < vq.k
    ensures Error(vec, weights, vq, j, gain, i + 1)
            == Error(vec, weights, vq, j, gain, i) + Term(vec, weights, vq, j, gain, i)
  {}

  lemma One(bin: nat)
    requires bin < BINS
    ensures Ones()[bin] == 1.0
  {}

  /** The second loop: the error at a gain. */
  method ErrorAt(vec: array<real>, weights: array<real>, vq: Codebook, j: nat, gain: real)
    returns (metric: real, error: real)
    requires vec.Length == weights.Length == BINS && vq.Valid() && j < vq.m
    ensures metric == Error(vec[..], weights[..], vq, j, gain, vq.k)
    ensures error == Error(vec[..], Ones(), vq, j, gain, vq.k)
  {
    hide Codebook.Entry, Error, Ones;
    ghost var v: Spectrum, w: Spectrum := vec[..], weights[..];
    metric, error := 0.0, 0.0;
    ErrorNone(v, w, vq, j, gain);
    ErrorNone(v, Ones(), vq, j, gain);
    for i := 0 to vq.k
      invariant metric == Error(v, w, vq, j, gain, i) && error == Error(v, Ones(), vq, j, gain, i)
    {
      ErrorNext(v, w, vq, j, gain, i);
      ErrorNext(v, Ones(), vq, j, gain, i);
      One(vq.offset + i);
      if vec[vq.offset + i] != 0.0 {
        var diff := vec[vq.offset + i] - vq.Entry(j, i) - gain;
        error := error + diff * diff;
        metric := metric + weights[vq.offset + i] * diff * diff;
      }
    }
  }
}
