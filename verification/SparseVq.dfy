/**
 * The masked split vector quantiser of ampexp.c: vq_amp searches one codebook, split_vq applies it to one band
 * of a sparse spectrum in place, and five bands in a row make up the quantiser.
 */
module SparseVq {
  import opened Modular

  const BINS: nat := 80

  /** The metric every search starts from: 1E32. */
  const LIMIT: real := 100000000000000000000000000000000.0

  /** m codewords of dimension k, for the bins from offset on. */
  datatype Codebook = Codebook(k: nat, m: nat, offset: nat, cb: seq<real>) {
    predicate Valid() {
      |cb| == k * m && m > 0 && offset + k <= BINS
    }

    predicate Covers(bin: int) {
      offset <= bin < offset + k
    }

    function Entry(j: nat, i: nat): real
      requires Valid() && j < m && i < k
    {
      BlockBound(k, j, i, m);
      cb[k * j + i]
    }

    /** Codeword j is the j-th run of k numbers. */
    function Word(j: nat): (w: seq<real>)
      requires Valid() && j < m
      ensures |w| == k
    {
      MulMono(j + 1, m, k);
      cb[k * j..k * j + k]
    }

    /** The part of a spectrum the codewords are for. */
    function Band(s: Spectrum): (b: seq<real>)
      requires Valid()
      ensures |b| == k
    {
      s[offset..offset + k]
    }
  }

  type Spectrum = s: seq<real> | |s| == BINS witness seq(BINS, _ => 0.0)

  function Silence(): Spectrum {
    seq(BINS, _ => 0.0)
  }

  function Ones(): Spectrum {
    seq(BINS, _ => 1.0)
  }

  function Masked(x: real, weight: real, y: real): real {
    if x == 0.0 then 0.0 else weight * (y - x) * (y - x)
  }

  /** The weighted squared error of codeword j over the first n bins of the band; zero bins do not take part. */
  function Metric(vec: Spectrum, weights: Spectrum, vq: Codebook, j: nat, n: nat): real
    requires vq.Valid() && j < vq.m && n <= vq.k
  {
    if n == 0 then 0.0
    else
      var bin := vq.offset + n - 1;
      Metric(vec, weights, vq, j, n - 1) + Masked(vec[bin], weights[bin], vq.Entry(j, n - 1))
  }

  function BandMetric(vec: Spectrum, weights: Spectrum, vq: Codebook, j: nat): real
    requires vq.Valid() && j < vq.m
  {
    Metric(vec, weights, vq, j, vq.k)
  }

  datatype Pick = Pick(index: nat, metric: real)

  /** The state of the search after n codewords. */
  function Search(vec: Spectrum, weights: Spectrum, vq: Codebook, n: nat): (p: Pick)
    requires vq.Valid() && n <= vq.m
    ensures p.index < vq.m
  {
    if n == 0 then Pick(0, LIMIT)
    else
      var p, metric := Search(vec, weights, vq, n - 1), BandMetric(vec, weights, vq, n - 1);
      if metric < p.metric then Pick(n - 1, metric) else p
  }

  /** Some codeword of the band is closer than the starting metric. */
  ghost predicate Reachable(vec: Spectrum, weights: Spectrum, vq: Codebook)
    requires vq.Valid()
  {
    exists j | 0 <= j < vq.m :: BandMetric(vec, weights, vq, j) < LIMIT
  }

  /** The search returns the first of the best codewords, or codeword 0 when all are beyond the limit. */
  lemma {:induction false} SearchBest(vec: Spectrum, weights: Spectrum, vq: Codebook, n: nat)
    requires vq.Valid() && n <= vq.m
    ensures var p := Search(vec, weights, vq, n);
            && p.metric <= LIMIT
            && (forall j | 0 <= j < n :: p.metric <= BandMetric(vec, weights, vq, j))
            && (p.metric < LIMIT ==>
                  && p.index < n
                  && p.metric == BandMetric(vec, weights, vq, p.index)
                  && forall j | 0 <= j < p.index :: p.metric < BandMetric(vec, weights, vq, j))
            && (p.metric == LIMIT ==> p.index == 0)
  {
    if n != 0 {
      SearchBest(vec, weights, vq, n - 1);
    }
  }

  /** The weighted squared distance of y from x, where x is not zero. */
  function Distance(x: seq<real>, w: seq<real>, y: seq<real>): real
    requires |x| == |w| == |y|
  {
    if x == [] then 0.0
    else
      var n := |x| - 1;
      Distance(x[..n], w[..n], y[..n]) + if x[n] == 0.0 then 0.0 else w[n] * (y[n] - x[n]) * (y[n] - x[n])
  }

  lemma EntryIs(vq: Codebook, j: nat, i: nat)
    requires vq.Valid() && j < vq.m && i < vq.k
    ensures vq.k * j + vq.k <= |vq.cb| && vq.Entry(j, i) == vq.cb[vq.k * j..vq.k * j + vq.k][i] == vq.Word(j)[i]
  {
    MulMono(j + 1, vq.m, vq.k);
  }

  lemma {:induction false} MetricIs(vec: Spectrum, weights: Spectrum, vq: Codebook, j: nat, n: nat)
    requires vq.Valid() && j < vq.m && n <= vq.k
    ensures Metric(vec, weights, vq, j, n) == Distance(vq.Band(vec)[..n], vq.Band(weights)[..n], vq.Word(j)[..n])
  {
    hide Codebook.Entry, Codebook.Word;
    if n != 0 {
      MetricIs(vec, weights, vq, j, n - 1);
      EntryIs(vq, j, n - 1);
      Prefix(vq.Band(vec), n);
      Prefix(vq.Band(weights), n);
      Prefix(vq.Word(j), n);
    }
  }

  lemma Prefix(s: seq<real>, n: nat)
    requires 0 < n <= |s|
    ensures s[..n][..n - 1] == s[..n - 1] && s[..n][n - 1] == s[n - 1]
  {}

  /** What a codeword costs on its band. */
  function Cost(vec: Spectrum, weights: Spectrum, vq: Codebook, j: nat): real
    requires vq.Valid() && j < vq.m
  {
    Distance(vq.Band(vec), vq.Band(weights), vq.Word(j))
  }

  lemma {:induction false} CostIs(vec: Spectrum, weights: Spectrum, vq: Codebook, j: nat)
    requires vq.Valid() && j < vq.m
    ensures BandMetric(vec, weights, vq, j) == Cost(vec, weights, vq, j)
  {
    hide Metric, Codebook.Word, Codebook.Band;
    MetricIs(vec, weights, vq, j, vq.k);
    assert vq.Word(j)[..vq.k] == vq.Word(j);
    assert vq.Band(vec)[..vq.k] == vq.Band(vec) && vq.Band(weights)[..vq.k] == vq.Band(weights);
  }

  /** The first of the cheapest codewords, or codeword 0 when all cost more than the limit. */
  ghost predicate Cheapest(vec: Spectrum, weights: Spectrum, vq: Codebook, best: nat)
    requires vq.Valid()
  {
    && best < vq.m
    && (forall j | 0 <= j < vq.m :: Cost(vec, weights, vq, j) >= LIMIT || Cost(vec, weights, vq, best) < LIMIT)
    && (Cost(vec, weights, vq, best) < LIMIT ==>
          && (forall j | 0 <= j < vq.m :: Cost(vec, weights, vq, best) <= Cost(vec, weights, vq, j))
          && (forall j | 0 <= j < best :: Cost(vec, weights, vq, best) < Cost(vec, weights, vq, j)))
    && (Cost(vec, weights, vq, best) >= LIMIT ==> best == 0)
  }

  /** The search finds it, in terms of the numbers of the table. */
  lemma {:induction false} SearchCheapest(vec: Spectrum, weights: Spectrum, vq: Codebook)
    requires vq.Valid()
    ensures Cheapest(vec, weights, vq, Search(vec, weights, vq, vq.m).index)
    ensures Reachable(vec, weights, vq) <==> exists j | 0 <= j < vq.m :: Cost(vec, weights, vq, j) < LIMIT
  {
    hide BandMetric, Cost, Search;
    SearchBest(vec, weights, vq, vq.m);
    forall j | 0 <= j < vq.m ensures BandMetric(vec, weights, vq, j) == Cost(vec, weights, vq, j) {
      CostIs(vec, weights, vq, j);
    }
  }

  /** vq_amp; se collects the unweighted error of the codeword found. */
  method VqAmp(vec: array<real>, weights: array<real>, vq: Codebook, se: real) returns (besti: nat, se': real)
    requires vec.Length == weights.Length == BINS && vq.Valid()
    ensures besti == Search(vec[..], weights[..], vq, vq.m).index
    ensures Cheapest(vec[..], weights[..], vq, besti)
    ensures se' == se + if Cost(vec[..], weights[..], vq, besti) < LIMIT
                        then Cost(vec[..], Ones(), vq, besti) else LIMIT
  {
    ghost var v: Spectrum, w: Spectrum := vec[..], weights[..];
    besti := 0;
    var bestMetric, bestError := LIMIT, LIMIT;
    for j := 0 to vq.m
      invariant besti < vq.m && Pick(besti, bestMetric) == Search(v, w, vq, j) && bestMetric <= LIMIT
      invariant bestError == if bestMetric < LIMIT then Metric(v, Ones(), vq, besti, vq.k) else LIMIT
    {
      var metric, error := WordMetric(vec, weights, vq, j);
      if metric < bestMetric {
        bestError, bestMetric, besti := error, metric, j;
      }
    }
    SearchBest(v, w, vq, vq.m);
    SearchCheapest(v, w, vq);
    CostIs(v, w, vq, besti);
    CostIs(v, Ones(), vq, besti);
    se' := se + bestError;
  }

  /** The inner loop: the weighted and the plain error of one codeword. */
  method WordMetric(vec: array<real>, weights: array<real>, vq: Codebook, j: nat) returns (metric: real, error: real)
    requires vec.Length == weights.Length == BINS && vq.Valid() && j < vq.m
    ensures metric == BandMetric(vec[..], weights[..], vq, j) && error == Metric(vec[..], Ones(), vq, j, vq.k)
  {
    hide Codebook.Entry;
    metric, error := 0.0, 0.0;
    for i := 0 to vq.k
      invariant metric == Metric(vec[..], weights[..], vq, j, i) && error == Metric(vec[..], Ones(), vq, j, i)
    {
      if vec[vq.offset + i] != 0.0 {
        var diff := vq.Entry(j, i) - vec[vq.offset + i];
        error := error + diff * diff;
        metric := metric + weights[vq.offset + i] * diff * diff;
      }
    }
  }

  /** The band of a spectrum less a codeword, at the nonzero bins. */
  function Subtract(vec: Spectrum, vq: Codebook, j: nat): (r: Spectrum)
    requires vq.Valid() && j < vq.m
  {
    seq(BINS, bin requires 0 <= bin < BINS =>
      if vq.Covers(bin) && vec[bin] != 0.0 then vec[bin] - vq.Entry(j, bin - vq.offset) else vec[bin])
  }

  /** The output with the codeword added, where the input is nonzero. */
  function AddTo(out: Spectrum, vec: Spectrum, vq: Codebook, j: nat): (r: Spectrum)
    requires vq.Valid() && j < vq.m
  {
    seq(BINS, bin requires 0 <= bin < BINS =>
      if vq.Covers(bin) && vec[bin] != 0.0 then out[bin] + vq.Entry(j, bin - vq.offset) else out[bin])
  }

  /** The number of nonzero bins in lo..hi. */
  function NonZero(vec: Spectrum, lo: nat, hi: nat): nat
    requires lo <= hi <= BINS
    decreases hi
  {
    if lo == hi then 0 else NonZero(vec, lo, hi - 1) + if vec[hi - 1] != 0.0 then 1 else 0
  }

  lemma {:induction false} NonZeroIs(vec: Spectrum, lo: nat, hi: nat)
    requires lo <= hi <= BINS
    ensures NonZero(vec, lo, hi) == |set bin | lo <= bin < hi && vec[bin] != 0.0|
    decreases hi
  {
    var bins := set bin | lo <= bin < hi && vec[bin] != 0.0;
    if lo == hi {
      assert bins == {};
    } else {
      NonZeroIs(vec, lo, hi - 1);
      var before := set bin | lo <= bin < hi - 1 && vec[bin] != 0.0;
      assert bins == if vec[hi - 1] != 0.0 then before + {hi - 1} else before;
    }
  }

  /** split_vq; the number of nonzero bins is added to the statistics by the caller. */
  method SplitVq(out: array<real>, vq: Codebook, weights: array<real>, vec: array<real>)
    returns (ind: nat, nonZero: nat)
    requires out.Length == weights.Length == vec.Length == BINS && out != vec && weights != vec && weights != out
    requires vq.Valid()
    modifies out, vec
    ensures ind == Search(old(vec[..]), weights[..], vq, vq.m).index
    ensures vec[..] == Subtract(old(vec[..]), vq, ind)
    ensures out[..] == AddTo(old(out[..]), old(vec[..]), vq, ind)
    ensures nonZero == NonZero(old(vec[..]), vq.offset, vq.offset + vq.k)
  {
    hide Search, Cheapest, Cost, Codebook.Entry;
    var se: real := *;
    ind, se := VqAmp(vec, weights, vq, se);
    ghost var v: Spectrum, o: Spectrum := vec[..], out[..];
    nonZero := 0;
    for i := 0 to vq.k
      invariant forall bin | 0 <= bin < BINS ::
                  && vec[bin] == (if bin < vq.offset + i then Subtract(v, vq, ind)[bin] else v[bin])
                  && out[bin] == (if bin < vq.offset + i then AddTo(o, v, vq, ind)[bin] else o[bin])
      invariant nonZero == NonZero(v, vq.offset, vq.offset + i)
    {
      var bin := vq.offset + i;
      if vec[bin] != 0.0 {
        vec[bin] := vec[bin] - vq.Entry(ind, i);
        out[bin] := out[bin] + vq.Entry(ind, i);
        nonZero := nonZero + 1;
      }
    }
  }

  /** The spectrum still to quantise, the output, the indexes and the count after some of the bands. */
  datatype Stage = Stage(vec: Spectrum, out: Spectrum, indexes: seq<nat>, count: nat)

  ghost predicate Books(vqs: seq<Codebook>) {
    forall c | 0 <= c < |vqs| :: vqs[c].Valid()
  }

  ghost function NextStage(s: Stage, weights: Spectrum, vq: Codebook): (t: Stage)
    requires vq.Valid()
    ensures |t.indexes| == |s.indexes| + 1 && t.indexes[..|s.indexes|] == s.indexes && t.indexes[|s.indexes|] < vq.m
  {
    var j := Search(s.vec, weights, vq, vq.m).index;
    Stage(Subtract(s.vec, vq, j), AddTo(s.out, s.vec, vq, j), s.indexes + [j],
          s.count + NonZero(s.vec, vq.offset, vq.offset + vq.k))
  }

  ghost function Splits(vec: Spectrum, weights: Spectrum, vqs: seq<Codebook>, b: nat): (s: Stage)
    requires Books(vqs) && b <= |vqs|
    ensures |s.indexes| == b && forall c | 0 <= c < b :: s.indexes[c] < vqs[c].m
  {
    if b == 0 then Stage(vec, Silence(), [], 0)
    else NextStage(Splits(vec, weights, vqs, b - 1), weights, vqs[b - 1])
  }

  lemma SplitsStep(vec: Spectrum, weights: Spectrum, vqs: seq<Codebook>, b: nat)
    requires Books(vqs) && b < |vqs|
    ensures Splits(vec, weights, vqs, b + 1) == NextStage(Splits(vec, weights, vqs, b), weights, vqs[b])
  {}

  /** One of the calls, as a step of the whole. */
  method NextBand(out: array<real>, vqs: seq<Codebook>, weights: array<real>, vec: array<real>,
                  indexes: seq<nat>, count: nat, ghost v: Spectrum)
    returns (indexes': seq<nat>, count': nat)
    requires out.Length == weights.Length == vec.Length == BINS && out != vec && weights != vec && weights != out
    requires Books(vqs) && |indexes| < |vqs|
    requires Stage(vec[..], out[..], indexes, count) == Splits(v, weights[..], vqs, |indexes|)
    modifies out, vec
    ensures |indexes'| == |indexes| + 1
    ensures Stage(vec[..], out[..], indexes', count') == Splits(v, weights[..], vqs, |indexes'|)
  {
    hide Search, Subtract, AddTo, NonZero, Codebook.Valid, Splits;
    SplitsStep(v, weights[..], vqs, |indexes|);
    var ind, nonZero := SplitVq(out, vqs[|indexes|], weights, vec);
    indexes', count' := indexes + [ind], count + nonZero;
  }

  /** The five calls in sparse_vq_amp, each on what the calls before it left in the shared arrays. */
  method SplitFive(out: array<real>, vqs: seq<Codebook>, weights: array<real>, vec: array<real>)
    returns (indexes: seq<nat>, count: nat)
    requires out.Length == weights.Length == vec.Length == BINS && out != vec && weights != vec && weights != out
    requires |vqs| == 5 && Books(vqs)
    requires forall bin | 0 <= bin < BINS :: out[bin] == 0.0
    modifies out, vec
    ensures Stage(vec[..], out[..], indexes, count) == Splits(old(vec[..]), weights[..], vqs, 5)
  {
    ghost var v: Spectrum := vec[..];
    assert out[..] == Silence();
    indexes, count := [], 0;
    assert Stage(vec[..], out[..], indexes, count) == Splits(v, weights[..], vqs, 0);
    hide *;
    indexes, count := NextBand(out, vqs, weights, vec, indexes, count, v);
    indexes, count := NextBand(out, vqs, weights, vec, indexes, count, v);
    indexes, count := NextBand(out, vqs, weights, vec, indexes, count, v);
    indexes, count := NextBand(out, vqs, weights, vec, indexes, count, v);
    indexes, count := NextBand(out, vqs, weights, vec, indexes, count, v);
  }
}
