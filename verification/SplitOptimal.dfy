/** What the five band searches add up to: optimality over the product codebook, and conservation. */
module SplitOptimal {
  import opened SparseVq

  ghost predicate Disjoint(vqs: seq<Codebook>) {
    forall c, d, bin | 0 <= c < d < |vqs| && vqs[c].Covers(bin) :: !vqs[d].Covers(bin)
  }

  /** One index per band. */
  ghost predicate Tuple(vqs: seq<Codebook>, t: seq<nat>) {
    |t| == |vqs| && forall c | 0 <= c < |vqs| :: t[c] < vqs[c].m
  }

  /** The value the first b bands of a tuple of codewords put at a bin. */
  ghost function Decoded(vqs: seq<Codebook>, t: seq<nat>, b: nat, bin: nat): real
    requires Books(vqs) && Tuple(vqs, t) && b <= |vqs|
  {
    if b == 0 then 0.0
    else
      Decoded(vqs, t, b - 1, bin) +
      if vqs[b - 1].Covers(bin) then vqs[b - 1].Entry(t[b - 1], bin - vqs[b - 1].offset) else 0.0
  }

  /** The masked weighted squared error of a tuple of codewords over the first n bins of the whole spectrum. */
  ghost function Error(vec: Spectrum, weights: Spectrum, vqs: seq<Codebook>, t: seq<nat>, n: nat): real
    requires Books(vqs) && Tuple(vqs, t) && n <= BINS
  {
    if n == 0 then 0.0
    else
      Error(vec, weights, vqs, t, n - 1) +
      Masked(vec[n - 1], weights[n - 1], Decoded(vqs, t, |vqs|, n - 1))
  }

  /** In its own band a codeword is all there is. */
  lemma {:induction false} DecodedIn(vqs: seq<Codebook>, t: seq<nat>, b: nat, c: nat, bin: nat)
    requires Books(vqs) && Tuple(vqs, t) && Disjoint(vqs) && c < |vqs| && b <= |vqs| && vqs[c].Covers(bin)
    ensures Decoded(vqs, t, b, bin) == if c < b then vqs[c].Entry(t[c], bin - vqs[c].offset) else 0.0
  {
    if b != 0 {
      DecodedIn(vqs, t, b - 1, c, bin);
    }
  }

  /** The spectrum a tuple of codewords stands for. */
  ghost function Spread(vqs: seq<Codebook>, t: seq<nat>): (s: Spectrum)
    requires Books(vqs) && Tuple(vqs, t)
  {
    seq(BINS, bin requires 0 <= bin < BINS => Decoded(vqs, t, |vqs|, bin))
  }

  /** Its bands are the codewords, number by number as the tables have them. */
  lemma {:induction false} SpreadIs(vqs: seq<Codebook>, t: seq<nat>, c: nat)
    requires Books(vqs) && Tuple(vqs, t) && Disjoint(vqs) && c < |vqs|
    ensures vqs[c].Band(Spread(vqs, t)) == vqs[c].Word(t[c])
  {
    hide Codebook.Entry, Codebook.Word, Decoded;
    var vq := vqs[c];
    forall i | 0 <= i < vq.k ensures vq.Band(Spread(vqs, t))[i] == vq.Word(t[c])[i] {
      DecodedIn(vqs, t, |vqs|, c, vq.offset + i);
      EntryIs(vq, t[c], i);
    }
  }

  /** The error of a tuple is the weighted distance of that spectrum from the input. */
  lemma {:induction false} ErrorIs(vec: Spectrum, weights: Spectrum, vqs: seq<Codebook>, t: seq<nat>, n: nat)
    requires Books(vqs) && Tuple(vqs, t) && n <= BINS
    ensures Error(vec, weights, vqs, t, n) == Distance(vec[..n], weights[..n], Spread(vqs, t)[..n])
  {
    hide Decoded;
    if n != 0 {
      ErrorIs(vec, weights, vqs, t, n - 1);
      Prefix(vec, n);
      Prefix(weights, n);
      Prefix(Spread(vqs, t), n);
    }
  }

  lemma {:induction false} DecodedOut(vqs: seq<Codebook>, t: seq<nat>, b: nat, c: nat, j: nat, bin: nat)
    requires Books(vqs) && Tuple(vqs, t) && c < |vqs| && b <= |vqs| && j < vqs[c].m && !vqs[c].Covers(bin)
    ensures Decoded(vqs, t[c := j], b, bin) == Decoded(vqs, t, b, bin)
  {
    if b != 0 {
      DecodedOut(vqs, t, b - 1, c, j, bin);
    }
  }

  /** How much of band vq lies below bin n. */
  function Below(vq: Codebook, n: nat): nat {
    if n <= vq.offset then 0 else if n <= vq.offset + vq.k then n - vq.offset else vq.k
  }

  /** Exchanging the codeword of one band changes the whole error by as much as the metric of that band. */
  lemma {:induction false} Exchange(vec: Spectrum, weights: Spectrum, vqs: seq<Codebook>, t: seq<nat>, c: nat,
                                    j: nat, n: nat)
    requires Books(vqs) && Tuple(vqs, t) && Disjoint(vqs) && c < |vqs| && j < vqs[c].m && n <= BINS
    ensures Tuple(vqs, t[c := j])
    ensures Error(vec, weights, vqs, t[c := j], n) - Error(vec, weights, vqs, t, n)
            == Metric(vec, weights, vqs[c], j, Below(vqs[c], n)) - Metric(vec, weights, vqs[c], t[c], Below(vqs[c], n))
  {
    if n != 0 {
      hide Masked, Codebook.Entry;
      Exchange(vec, weights, vqs, t, c, j, n - 1);
      if vqs[c].Covers(n - 1) {
        DecodedIn(vqs, t, |vqs|, c, n - 1);
        DecodedIn(vqs, t[c := j], |vqs|, c, n - 1);
      } else {
        DecodedOut(vqs, t, |vqs|, c, j, n - 1);
      }
    }
  }

  /** The metric of a band looks at that band alone. */
  lemma {:induction false} MetricLocal(vec: Spectrum, vec': Spectrum, weights: Spectrum, weights': Spectrum,
                                       vq: Codebook, j: nat, n: nat)
    requires vq.Valid() && j < vq.m && n <= vq.k
    requires forall bin | 0 <= bin < BINS && vq.Covers(bin) ::
               vec[bin] == vec'[bin] && (vec[bin] != 0.0 ==> weights[bin] == weights'[bin])
    ensures Metric(vec, weights, vq, j, n) == Metric(vec', weights', vq, j, n)
  {
    if n != 0 {
      MetricLocal(vec, vec', weights, weights', vq, j, n - 1);
      assert vq.Covers(vq.offset + n - 1);
    }
  }

  lemma {:induction false} SearchLocal(vec: Spectrum, vec': Spectrum, weights: Spectrum, weights': Spectrum,
                                       vq: Codebook, n: nat)
    requires vq.Valid() && n <= vq.m
    requires forall bin | 0 <= bin < BINS && vq.Covers(bin) ::
               vec[bin] == vec'[bin] && (vec[bin] != 0.0 ==> weights[bin] == weights'[bin])
    ensures Search(vec, weights, vq, n) == Search(vec', weights', vq, n)
  {
    if n != 0 {
      SearchLocal(vec, vec', weights, weights', vq, n - 1);
      MetricLocal(vec, vec', weights, weights', vq, n - 1, vq.k);
    }
  }

  /** The bands still to come are as they were at the start. */
  lemma {:induction false} Untouched(vec: Spectrum, weights: Spectrum, vqs: seq<Codebook>, b: nat, bin: nat)
    requires Books(vqs) && b <= |vqs| && bin < BINS && forall c | 0 <= c < b :: !vqs[c].Covers(bin)
    ensures var s := Splits(vec, weights, vqs, b); s.vec[bin] == vec[bin] && s.out[bin] == 0.0
  {
    if b != 0 {
      Untouched(vec, weights, vqs, b - 1, bin);
    }
  }

  lemma {:induction false} BandUntouched(vec: Spectrum, weights: Spectrum, vqs: seq<Codebook>, c: nat)
    requires Books(vqs) && Disjoint(vqs) && c < |vqs|
    ensures forall bin | 0 <= bin < BINS && vqs[c].Covers(bin) :: Splits(vec, weights, vqs, c).vec[bin] == vec[bin]
  {
    forall bin | 0 <= bin < BINS && vqs[c].Covers(bin) ensures Splits(vec, weights, vqs, c).vec[bin] == vec[bin] {
      Untouched(vec, weights, vqs, c, bin);
    }
  }

  /** Although the bands share their arrays, every band searches the spectrum the quantiser was given. */
  lemma {:induction false} BandIndex(vec: Spectrum, weights: Spectrum, vqs: seq<Codebook>, b: nat, c: nat)
    requires Books(vqs) && Disjoint(vqs) && c < b <= |vqs|
    ensures Splits(vec, weights, vqs, b).indexes[c] == Search(vec, weights, vqs[c], vqs[c].m).index
  {
    SplitsStep(vec, weights, vqs, b - 1);
    hide Splits;
    if c < b - 1 {
      hide NextStage, Search;
      BandIndex(vec, weights, vqs, b - 1, c);
    } else {
      BandUntouched(vec, weights, vqs, c);
      hide Subtract, AddTo, NonZero, Search;
      var s := Splits(vec, weights, vqs, c);
      SearchLocal(vec, s.vec, weights, weights, vqs[c], vqs[c].m);
    }
  }

  /** No codeword of the band has a smaller metric than codeword i. */
  ghost predicate Closest(vec: Spectrum, weights: Spectrum, vq: Codebook, i: nat)
    requires vq.Valid() && i < vq.m
  {
    forall j | 0 <= j < vq.m :: BandMetric(vec, weights, vq, i) <= BandMetric(vec, weights, vq, j)
  }

  /** The tuple that takes its first c indexes from ix and the others from t. */
  function Blend(ix: seq<nat>, t: seq<nat>, c: nat): seq<nat>
    requires |ix| == |t| && c <= |t|
  {
    ix[..c] + t[c..]
  }

  lemma {:induction false} BlendImproves(vec: Spectrum, weights: Spectrum, vqs: seq<Codebook>, ix: seq<nat>,
                                         t: seq<nat>, c: nat)
    requires Books(vqs) && Tuple(vqs, t) && Tuple(vqs, ix) && Disjoint(vqs) && c <= |vqs|
    requires forall d | 0 <= d < |vqs| :: Closest(vec, weights, vqs[d], ix[d])
    ensures Tuple(vqs, Blend(ix, t, c))
    ensures Error(vec, weights, vqs, Blend(ix, t, c), BINS) <= Error(vec, weights, vqs, t, BINS)
  {
    if c == 0 {
      assert Blend(ix, t, 0) == t;
    } else {
      BlendImproves(vec, weights, vqs, ix, t, c - 1);
      var u := Blend(ix, t, c - 1);
      assert Blend(ix, t, c) == u[c - 1 := ix[c - 1]];
      Exchange(vec, weights, vqs, u, c - 1, ix[c - 1], BINS);
      var vq := vqs[c - 1];
      assert Below(vq, BINS) == vq.k;
      assert BandMetric(vec, weights, vq, ix[c - 1]) <= BandMetric(vec, weights, vq, u[c - 1]);
    }
  }

  /** No tuple of codewords has a smaller error over the whole spectrum. */
  ghost predicate Best(vec: Spectrum, weights: Spectrum, vqs: seq<Codebook>, ix: seq<nat>)
    requires Books(vqs) && Tuple(vqs, ix)
  {
    forall t | Tuple(vqs, t) :: Error(vec, weights, vqs, ix, BINS) <= Error(vec, weights, vqs, t, BINS)
  }

  /** A tuple is best for the whole spectrum exactly when each of its codewords is closest in its band. */
  lemma {:induction false} BestIs(vec: Spectrum, weights: Spectrum, vqs: seq<Codebook>, ix: seq<nat>)
    requires Books(vqs) && Disjoint(vqs) && Tuple(vqs, ix)
    ensures Best(vec, weights, vqs, ix) <==> forall d | 0 <= d < |vqs| :: Closest(vec, weights, vqs[d], ix[d])
  {
    if forall d | 0 <= d < |vqs| :: Closest(vec, weights, vqs[d], ix[d]) {
      forall t | Tuple(vqs, t) ensures Error(vec, weights, vqs, ix, BINS) <= Error(vec, weights, vqs, t, BINS) {
        BlendImproves(vec, weights, vqs, ix, t, |vqs|);
        assert Blend(ix, t, |vqs|) == ix;
      }
    }
    if Best(vec, weights, vqs, ix) {
      forall d | 0 <= d < |vqs| ensures Closest(vec, weights, vqs[d], ix[d]) {
        forall j | 0 <= j < vqs[d].m
          ensures BandMetric(vec, weights, vqs[d], ix[d]) <= BandMetric(vec, weights, vqs[d], j)
        {
          Exchange(vec, weights, vqs, ix, d, j, BINS);
          assert Below(vqs[d], BINS) == vqs[d].k;
        }
      }
    }
  }

  /** A band is searched with success: some codeword is within the limit, or codeword 0 is closest anyway. */
  ghost predicate Served(vec: Spectrum, weights: Spectrum, vq: Codebook)
    requires vq.Valid()
  {
    Reachable(vec, weights, vq) || Closest(vec, weights, vq, 0)
  }

  lemma {:induction false} ServedIs(vec: Spectrum, weights: Spectrum, vq: Codebook)
    requires vq.Valid()
    ensures Closest(vec, weights, vq, Search(vec, weights, vq, vq.m).index) <==> Served(vec, weights, vq)
  {
    SearchBest(vec, weights, vq, vq.m);
    hide Search;
  }

  /**
   * The indexes found band by band, in place, minimise the error of the whole spectrum over all tuples of codewords,
   * exactly when in every band some codeword is within the limit or codeword 0 is closest anyway.
   */
  lemma {:induction false} SplitOptimal(vec: Spectrum, weights: Spectrum, vqs: seq<Codebook>)
    requires Books(vqs) && Disjoint(vqs)
    ensures Best(vec, weights, vqs, Splits(vec, weights, vqs, |vqs|).indexes)
            <==> forall c | 0 <= c < |vqs| :: Served(vec, weights, vqs[c])
  {
    var ix := Splits(vec, weights, vqs, |vqs|).indexes;
    hide Splits, Best, Closest, Served, Search;
    BestIs(vec, weights, vqs, ix);
    forall d | 0 <= d < |vqs|
      ensures Closest(vec, weights, vqs[d], ix[d]) <==> Served(vec, weights, vqs[d])
    {
      BandIndex(vec, weights, vqs, |vqs|, d);
      ServedIs(vec, weights, vqs[d]);
    }
  }

  /** Nothing is lost: what leaves the input arrives in the output, even where bands overlap. */
  lemma {:induction false} Conserved(vec: Spectrum, weights: Spectrum, vqs: seq<Codebook>, b: nat, bin: nat)
    requires Books(vqs) && b <= |vqs| && bin < BINS
    ensures var s := Splits(vec, weights, vqs, b);
            s.vec[bin] + s.out[bin] == vec[bin] && (vec[bin] == 0.0 ==> s.vec[bin] == 0.0 == s.out[bin])
  {
    if b != 0 {
      hide Search, NonZero;
      Conserved(vec, weights, vqs, b - 1, bin);
    }
  }

  /** At every nonzero bin of a band the output is the entry of the codeword chosen for the band. */
  lemma {:induction false} OutputIs(vec: Spectrum, weights: Spectrum, vqs: seq<Codebook>, b: nat, c: nat, bin: nat)
    requires Books(vqs) && Disjoint(vqs) && c < b <= |vqs| && bin < BINS && vqs[c].Covers(bin) && vec[bin] != 0.0
    ensures var s := Splits(vec, weights, vqs, b);
            s.out[bin] == vqs[c].Entry(s.indexes[c], bin - vqs[c].offset)
  {
    hide NextStage, Codebook.Entry, Codebook.Valid;
    if c < b - 1 {
      OutputIs(vec, weights, vqs, b - 1, c, bin);
      OutputKept(Splits(vec, weights, vqs, b - 1), weights, vqs[b - 1], bin, c);
    } else {
      OutputFresh(vec, weights, vqs, c, bin);
    }
  }

  lemma {:induction false} OutputFresh(vec: Spectrum, weights: Spectrum, vqs: seq<Codebook>, c: nat, bin: nat)
    requires Books(vqs) && Disjoint(vqs) && c < |vqs| && bin < BINS && vqs[c].Covers(bin) && vec[bin] != 0.0
    ensures var s := Splits(vec, weights, vqs, c + 1);
            s.out[bin] == vqs[c].Entry(s.indexes[c], bin - vqs[c].offset)
  {
    hide NextStage, Codebook.Entry, Codebook.Valid;
    Untouched(vec, weights, vqs, c, bin);
    OutputNew(Splits(vec, weights, vqs, c), weights, vqs[c], bin);
  }

  lemma OutputKept(s: Stage, weights: Spectrum, vq: Codebook, bin: nat, i: nat)
    requires vq.Valid() && bin < BINS && !vq.Covers(bin) && i < |s.indexes|
    ensures var t := NextStage(s, weights, vq);
            t.out[bin] == s.out[bin] && t.indexes[i] == s.indexes[i]
  {}

  lemma OutputNew(s: Stage, weights: Spectrum, vq: Codebook, bin: nat)
    requires vq.Valid() && bin < BINS && vq.Covers(bin) && s.vec[bin] != 0.0 && s.out[bin] == 0.0
    ensures var t := NextStage(s, weights, vq);
            t.out[bin] == vq.Entry(t.indexes[|s.indexes|], bin - vq.offset)
  {}

  /** Each band starts where the one before it ends. */
  ghost predicate Tiled(vqs: seq<Codebook>) {
    && (|vqs| > 0 ==> vqs[0].offset == 0 && vqs[|vqs| - 1].offset + vqs[|vqs| - 1].k == BINS)
    && forall c | 0 < c < |vqs| :: vqs[c].offset == vqs[c - 1].offset + vqs[c - 1].k
  }

  lemma {:induction false} TiledOrder(vqs: seq<Codebook>, c: nat, d: nat)
    requires Tiled(vqs) && c < d < |vqs|
    ensures vqs[c].offset + vqs[c].k <= vqs[d].offset
  {
    if c < d - 1 {
      TiledOrder(vqs, c, d - 1);
    }
  }

  lemma {:induction false} TiledDisjoint(vqs: seq<Codebook>)
    requires Tiled(vqs)
    ensures Disjoint(vqs)
  {
    forall c, d, bin | 0 <= c < d < |vqs| && vqs[c].Covers(bin) ensures !vqs[d].Covers(bin) {
      TiledOrder(vqs, c, d);
    }
  }

  lemma {:induction false} NonZeroLocal(vec: Spectrum, vec': Spectrum, lo: nat, hi: nat)
    requires lo <= hi <= BINS && forall bin | lo <= bin < hi :: vec[bin] == vec'[bin]
    ensures NonZero(vec, lo, hi) == NonZero(vec', lo, hi)
  {
    if lo < hi {
      NonZeroLocal(vec, vec', lo, hi - 1);
    }
  }

  lemma {:induction false} NonZeroSplit(vec: Spectrum, lo: nat, mid: nat, hi: nat)
    requires lo <= mid <= hi <= BINS
    ensures NonZero(vec, lo, hi) == NonZero(vec, lo, mid) + NonZero(vec, mid, hi)
  {
    if mid < hi {
      NonZeroSplit(vec, lo, mid, hi - 1);
    }
  }

  /** The count grows by the number of nonzero bins the spectrum had, each counted once. */
  lemma {:induction false} CountIs(vec: Spectrum, weights: Spectrum, vqs: seq<Codebook>, b: nat)
    requires Books(vqs) && Tiled(vqs) && 0 < b <= |vqs|
    ensures vqs[b - 1].offset + vqs[b - 1].k <= BINS
    ensures Splits(vec, weights, vqs, b).count == NonZero(vec, 0, vqs[b - 1].offset + vqs[b - 1].k)
  {
    hide *;
    var vq := vqs[b - 1];
    BooksAt(vqs, b - 1);
    TiledAt(vqs, b - 1);
    NonZeroSplit(vec, 0, vq.offset, vq.offset + vq.k);
    BandCount(vec, weights, vqs, b - 1);
    if b > 1 {
      CountIs(vec, weights, vqs, b - 1);
    } else {
      CountNone(vec, weights, vqs);
    }
  }

  lemma {:induction false} BandCount(vec: Spectrum, weights: Spectrum, vqs: seq<Codebook>, c: nat)
    requires Books(vqs) && Tiled(vqs) && c < |vqs|
    ensures vqs[c].offset + vqs[c].k <= BINS
    ensures Splits(vec, weights, vqs, c + 1).count
            == Splits(vec, weights, vqs, c).count + NonZero(vec, vqs[c].offset, vqs[c].offset + vqs[c].k)
  {
    hide *;
    BooksAt(vqs, c);
    TiledDisjoint(vqs);
    var vq, s := vqs[c], Splits(vec, weights, vqs, c);
    BandUntouched(vec, weights, vqs, c);
    SplitsStep(vec, weights, vqs, c);
    StageCount(vec, s, weights, vq);
  }

  lemma {:induction false} StageCount(vec: Spectrum, s: Stage, weights: Spectrum, vq: Codebook)
    requires vq.Valid() && forall bin | 0 <= bin < BINS && vq.Covers(bin) :: s.vec[bin] == vec[bin]
    ensures NextStage(s, weights, vq).count == s.count + NonZero(vec, vq.offset, vq.offset + vq.k)
  {
    hide Search, Subtract, AddTo, NonZero;
    assert forall bin | vq.offset <= bin < vq.offset + vq.k :: vq.Covers(bin);
    NonZeroLocal(vec, s.vec, vq.offset, vq.offset + vq.k);
  }

  lemma CountNone(vec: Spectrum, weights: Spectrum, vqs: seq<Codebook>)
    requires Books(vqs)
    ensures Splits(vec, weights, vqs, 0).count == 0 == NonZero(vec, 0, 0)
  {}

  lemma TiledAt(vqs: seq<Codebook>, c: nat)
    requires Tiled(vqs) && c < |vqs|
    ensures vqs[c].offset == if c == 0 then 0 else vqs[c - 1].offset + vqs[c - 1].k
  {}

  lemma BooksAt(vqs: seq<Codebook>, c: nat)
    requires Books(vqs) && c < |vqs|
    ensures vqs[c].Valid() && vqs[c].offset + vqs[c].k <= BINS
  {}

  lemma {:induction false} NextStageLocal(s: Stage, weights: Spectrum, weights': Spectrum, vq: Codebook)
    requires vq.Valid() && forall bin | 0 <= bin < BINS && s.vec[bin] != 0.0 :: weights[bin] == weights'[bin]
    ensures NextStage(s, weights, vq) == NextStage(s, weights', vq)
  {
    SearchLocal(s.vec, s.vec, weights, weights', vq, vq.m);
    hide Subtract, AddTo, NonZero, Search;
  }

  /** Weights at zero bins have no influence: sparse_vq_amp leaves them uninitialised. */
  lemma {:induction false} WeightsIrrelevant(vec: Spectrum, weights: Spectrum, weights': Spectrum,
                                             vqs: seq<Codebook>, b: nat)
    requires Books(vqs) && b <= |vqs|
    requires forall bin | 0 <= bin < BINS && vec[bin] != 0.0 :: weights[bin] == weights'[bin]
    ensures Splits(vec, weights, vqs, b) == Splits(vec, weights', vqs, b)
  {
    hide *;
    if b == 0 {
      NoSplits(vec, weights, weights', vqs);
    } else {
      WeightsIrrelevant(vec, weights, weights', vqs, b - 1);
      SplitsStep(vec, weights, vqs, b - 1);
      SplitsStep(vec, weights', vqs, b - 1);
      BooksAt(vqs, b - 1);
      var s := Splits(vec, weights, vqs, b - 1);
      forall bin | 0 <= bin < BINS && s.vec[bin] != 0.0 ensures weights[bin] == weights'[bin] {
        Conserved(vec, weights, vqs, b - 1, bin);
      }
      NextStageLocal(s, weights, weights', vqs[b - 1]);
    }
  }

  lemma NoSplits(vec: Spectrum, weights: Spectrum, weights': Spectrum, vqs: seq<Codebook>)
    requires Books(vqs)
    ensures Splits(vec, weights, vqs, 0) == Splits(vec, weights', vqs, 0)
  {}
}
