/**
 * The frame pipeline of ampexp.c in its "vq" and "vqi" modes: quantise the amplitudes of each frame, delay the frames
 * by one and, with interpolation on, replace every other frame by one interpolated from its neighbours.
 */
module AmpExperiment {
  import opened SparseVq
  import opened SplitOptimal
  import opened Harmonics

  /** MODEL: pitch, number of harmonics, and the amplitude and phase of each harmonic from 1 on. */
  datatype Model = Model(wo: real, l: nat, a: seq<real>, phi: seq<real>, voiced: int) {
    ghost predicate Valid() {
      l <= BINS && |a| == |phi| == BINS + 1
    }

    /** The assertions on a frame hold: positive amplitudes, and a bin for every harmonic. */
    ghost predicate Analysable() {
      Valid() && InRange(wo, l) && forall m | 1 <= m <= l :: a[m] > 0.0
    }
  }

  /** The energy of the first n harmonics. */
  function Energy(a: seq<real>, n: nat): real
    requires n < |a|
  {
    if n == 0 then 0.0 else Energy(a, n - 1) + a[n] * a[n]
  }

  /**
   * The functions taken from the C library: 20*log10(x), pow(10,x/20), pow(x,0.8) and 10*log10(x). The level of a frame
   * is the last of its mean energy; for a frame without harmonics it is whatever the division by zero gives.
   */
  datatype Maths = Maths(db: real -> real, amp: real -> real, weight: real -> real, power: real -> real,
                         undefined: real) {
    ghost predicate Valid() {
      forall x :: amp(x) > 0.0
    }

    function Level(model: Model): real
      requires model.l < |model.a|
    {
      if model.l == 0 then undefined else power(Energy(model.a, model.l) / model.l as real)
    }
  }

  /** frame_energy, for the level it returns through its pointer. */
  method FrameEnergy(maths: Maths, model: Model) returns (level: real)
    requires model.Valid()
    ensures level == maths.Level(model)
    ensures model.l > 0 ==> level == maths.power(Energy(model.a, model.l) / model.l as real)
  {
    var e := 0.0;
    for m := 1 to model.l + 1
      invariant e == Energy(model.a, m - 1)
    {
      e := e + model.a[m] * model.a[m];
    }
    level := if model.l == 0 then maths.undefined else maths.power(e / model.l as real);
  }

  /** A frame after quantisation: the five indexes, the level, and the model with the quantised amplitudes. */
  datatype Quantised = Quantised(indexes: seq<nat>, mag: real, model: Model)

  ghost function Amplitudes(maths: Maths, model: Model, spectrum: Spectrum, mag: real): (a: seq<real>)
    requires model.Analysable()
    ensures |a| == BINS + 1
  {
    seq(BINS + 1, m requires 0 <= m <= BINS =>
      if 1 <= m <= model.l then maths.amp(spectrum[Index(model.wo, m)] + mag) else model.a[m])
  }

  /** A model whose harmonics get the amplitudes of given dB values at their bins. */
  ghost function Rebuilt(maths: Maths, model: Model, spectrum: Spectrum, mag: real): (r: Model)
    requires model.Analysable()
    ensures r.wo == model.wo && r.l == model.l && r.phi == model.phi && r.voiced == model.voiced && r.Valid()
  {
    model.(a := Amplitudes(maths, model, spectrum, mag))
  }

  ghost function Levels(maths: Maths, model: Model): (v: seq<real>)
    requires model.Valid()
    ensures |v| == BINS + 1
  {
    seq(BINS + 1, m requires 0 <= m <= BINS => maths.db(model.a[m]) - maths.Level(model))
  }

  ghost function Weights(maths: Maths, model: Model): (v: seq<real>)
    requires model.Valid()
    ensures |v| == BINS + 1
  {
    seq(BINS + 1, m requires 0 <= m <= BINS => maths.weight(model.a[m]))
  }

  /** The stage the five bands reach on a frame. */
  ghost function Coded(maths: Maths, vqs: seq<Codebook>, model: Model): (s: Stage)
    requires model.Analysable() && Books(vqs) && |vqs| == 5
    ensures Tuple(vqs, s.indexes)
  {
    Splits(Scatter(model.wo, Levels(maths, model), model.l, Silence()),
           Scatter(model.wo, Weights(maths, model), model.l, Silence()), vqs, 5)
  }

  ghost function Quantise(maths: Maths, vqs: seq<Codebook>, model: Model): (q: Quantised)
    requires model.Analysable() && Books(vqs) && |vqs| == 5
    ensures Tuple(vqs, q.indexes) && q.model.wo == model.wo && q.model.l == model.l && q.model.phi == model.phi
    ensures q.model.voiced == model.voiced
  {
    var s := Coded(maths, vqs, model);
    Quantised(s.indexes, maths.Level(model), Rebuilt(maths, model, s.out, maths.Level(model)))
  }

  lemma QuantiseAnalysable(maths: Maths, vqs: seq<Codebook>, model: Model)
    requires model.Analysable() && Books(vqs) && |vqs| == 5 && maths.Valid()
    ensures Quantise(maths, vqs, model).model.Analysable()
  {
    hide Index;
  }

  /** The dB value a quantised frame has at a bin: its level and the entry of the codeword for that bin. */
  ghost function Spectral(vqs: seq<Codebook>, q: Quantised, bin: nat): real
    requires Books(vqs) && Tuple(vqs, q.indexes)
  {
    q.mag + Decoded(vqs, q.indexes, |vqs|, bin)
  }

  /** The mean of the spectra of two frames, at the bins that are nonzero in `mid`. */
  ghost function Mean(vqs: seq<Codebook>, older: Quantised, newer: Quantised, mid: Spectrum): Spectrum
    requires Books(vqs) && Tuple(vqs, older.indexes) && Tuple(vqs, newer.indexes)
  {
    seq(BINS, bin requires 0 <= bin < BINS =>
      if mid[bin] != 0.0 then 0.5 * Spectral(vqs, older, bin) + 0.5 * Spectral(vqs, newer, bin) else 0.0)
  }

  ghost function Decibels(maths: Maths, model: Model): (v: seq<real>)
    requires model.Valid()
    ensures |v| == BINS + 1
  {
    seq(BINS + 1, m requires 0 <= m <= BINS => maths.db(model.a[m]))
  }

  /** A frame with its amplitudes interpolated between its neighbours. */
  ghost function Interpolated(maths: Maths, vqs: seq<Codebook>, older: Quantised, model: Model,
                              newer: Quantised): (r: Model)
    requires Books(vqs) && Tuple(vqs, older.indexes) && Tuple(vqs, newer.indexes) && model.Analysable()
    ensures r.wo == model.wo && r.l == model.l && r.phi == model.phi && r.voiced == model.voiced
  {
    Rebuilt(maths, model,
            Mean(vqs, older, newer, Scatter(model.wo, Decibels(maths, model), model.l, Silence())), 0.0)
  }

  /** The initial contents of the delay line: 100 Hz, 40 harmonics of amplitude 10; the rest was never set. */
  ghost predicate IsInitial(model: Model) {
    && |model.a| == |model.phi| == BINS + 1
    && model.wo == 6.283185307 * 100.0 / 8000.0
    && model.l == 40
    && forall m | 1 <= m <= BINS :: model.a[m] == 10.0
  }

  lemma InitialAnalysable(model: Model)
    requires IsInitial(model)
    ensures model.Analysable() && model.l == (PI / model.wo).Floor
  {
    InRangeIs(model.wo, 40);
  }

  /** The codebooks, the library functions and the initial model are as the experiment needs them. */
  datatype Setup = Setup(maths: Maths, vqs: seq<Codebook>, initial: Model) {
    ghost predicate Valid() {
      maths.Valid() && |vqs| == 5 && Books(vqs) && Tiled(vqs) && IsInitial(initial)
    }
  }

  ghost predicate Frames(inputs: seq<Model>) {
    forall i | 0 <= i < |inputs| :: inputs[i].Analysable()
  }

  /** The n-th frame quantised; before the first there are the initial contents. */
  ghost function Past(setup: Setup, inputs: seq<Model>, n: int): (q: Quantised)
    requires setup.Valid() && Frames(inputs) && n < |inputs|
    ensures Tuple(setup.vqs, q.indexes) && q.model.Analysable()
  {
    if n < 0 then
      InitialAnalysable(setup.initial);
      Quantised([0, 0, 0, 0, 0], 1.0, setup.initial)
    else
      QuantiseAnalysable(setup.maths, setup.vqs, inputs[n]);
      Quantise(setup.maths, setup.vqs, inputs[n])
  }

  lemma PastStable(setup: Setup, inputs: seq<Model>, model: Model, n: int)
    requires setup.Valid() && Frames(inputs) && model.Analysable() && n < |inputs|
    ensures Frames(inputs + [model])
    ensures Past(setup, inputs + [model], n) == Past(setup, inputs, n)
    ensures Past(setup, inputs + [model], |inputs|) == Quantise(setup.maths, setup.vqs, model)
  {}

  /** What the last call puts out, as a function of all the frames so far. */
  ghost function Output(setup: Setup, inputs: seq<Model>, on: bool): Model
    requires setup.Valid() && Frames(inputs) && |inputs| > 0
  {
    var n := |inputs| - 1;
    var previous := Past(setup, inputs, n - 1).model;
    if on && n % 2 == 0 then
      Interpolated(setup.maths, setup.vqs, Past(setup, inputs, n - 2), previous, Past(setup, inputs, n))
    else previous
  }

  /** Where the first b bands end. */
  ghost function End(vqs: seq<Codebook>, b: nat): nat
    requires b <= |vqs|
  {
    if b == 0 then 0 else vqs[b - 1].offset + vqs[b - 1].k
  }

  /** The mean spectrum as far as the first b bands have got. */
  ghost predicate MeanUpTo(vqs: seq<Codebook>, older: Quantised, newer: Quantised, mid: Spectrum, b: nat, out: Spectrum)
    requires Books(vqs) && Tuple(vqs, older.indexes) && Tuple(vqs, newer.indexes) && b <= |vqs|
  {
    forall bin | 0 <= bin < BINS ::
      out[bin] == if bin < End(vqs, b) then Mean(vqs, older, newer, mid)[bin] else 0.0
  }

  /** The value interp_split_vq computes is the mean of the two spectra. */
  lemma MeanIs(vqs: seq<Codebook>, older: Quantised, newer: Quantised, mid: Spectrum, c: nat, bin: nat)
    requires Books(vqs) && Tuple(vqs, older.indexes) && Tuple(vqs, newer.indexes) && Disjoint(vqs)
    requires c < |vqs| && bin < BINS && vqs[c].Covers(bin)
    ensures var vq, i := vqs[c], bin - vqs[c].offset;
            Mean(vqs, older, newer, mid)[bin] ==
            if mid[bin] != 0.0 then
              0.5 * (older.mag + vq.Entry(older.indexes[c], i)) + 0.5 * (newer.mag + vq.Entry(newer.indexes[c], i))
            else 0.0
  {
    DecodedIn(vqs, older.indexes, |vqs|, c, bin);
    DecodedIn(vqs, newer.indexes, |vqs|, c, bin);
  }

  /** interp_split_vq, for band b of a mean spectrum complete up to there. */
  method InterpSplitVq(out: array<real>, vqs: seq<Codebook>, b: nat, vec: array<real>, older: Quantised,
                       newer: Quantised)
    requires out.Length == vec.Length == BINS && out != vec
    requires Books(vqs) && Tiled(vqs) && b < |vqs| && Tuple(vqs, older.indexes) && Tuple(vqs, newer.indexes)
    requires MeanUpTo(vqs, older, newer, vec[..], b, out[..])
    modifies out
    ensures MeanUpTo(vqs, older, newer, vec[..], b + 1, out[..])
  {
    TiledDisjoint(vqs);
    var vq := vqs[b];
    hide Mean;
    for i := 0 to vq.k
      invariant forall bin | 0 <= bin < BINS ::
                  out[bin] == if bin < vq.offset + i then Mean(vqs, older, newer, vec[..])[bin] else 0.0
    {
      var bin := vq.offset + i;
      MeanIs(vqs, older, newer, vec[..], b, bin);
      if vec[bin] != 0.0 {
        var db := 0.5 * (older.mag + vq.Entry(older.indexes[b], i));
        db := db + 0.5 * (newer.mag + vq.Entry(newer.indexes[b], i));
        out[bin] := db;
      }
    }
  }

  /** The scatter loops: the array ends as the values scattered over whatever it held. */
  method ScatterInto(vec: array<real>, wo: real, values: seq<real>, l: nat)
    requires vec.Length == BINS && InRange(wo, l) && l < |values|
    modifies vec
    ensures vec[..] == Scatter(wo, values, l, old(vec[..]))
  {
    hide Index;
    ghost var base: Spectrum := vec[..];
    for m := 1 to l + 1
      invariant vec[..] == Scatter(wo, values, m - 1, base)
    {
      vec[Index(wo, m)] := values[m];
    }
  }

  /** The gather loops at the end of sparse_vq_amp and vq_interp. */
  method Rebuild(maths: Maths, model: Model, spectrum: array<real>, mag: real) returns (r: Model)
    requires model.Analysable() && spectrum.Length == BINS
    ensures r == Rebuilt(maths, model, spectrum[..], mag)
  {
    hide Index;
    var a := model.a;
    for m := 1 to model.l + 1
      invariant |a| == BINS + 1
      invariant forall i | 0 <= i <= BINS ::
                  a[i] == if i < m then Amplitudes(maths, model, spectrum[..], mag)[i] else model.a[i]
    {
      a := a[m := maths.amp(spectrum[Index(model.wo, m)] + mag)];
    }
    assert a == Amplitudes(maths, model, spectrum[..], mag);
    r := model.(a := a);
  }

  /** Weights left uninitialised at bins without a harmonic do not matter. */
  lemma {:induction false} AnyWeights(maths: Maths, vqs: seq<Codebook>, model: Model, junk: Spectrum)
    requires model.Analysable() && Books(vqs) && |vqs| == 5
    ensures Splits(Scatter(model.wo, Levels(maths, model), model.l, Silence()),
                   Scatter(model.wo, Weights(maths, model), model.l, junk), vqs, 5) == Coded(maths, vqs, model)
  {
    var vec := Scatter(model.wo, Levels(maths, model), model.l, Silence());
    var w := Scatter(model.wo, Weights(maths, model), model.l, junk);
    var w' := Scatter(model.wo, Weights(maths, model), model.l, Silence());
    forall bin | 0 <= bin < BINS && vec[bin] != 0.0 ensures w[bin] == w'[bin] {
      hide Index, Levels, Weights;
      if m :| 1 <= m <= model.l && Index(model.wo, m) == bin {
        ScatterOver(model.wo, Weights(maths, model), model.l, junk, Silence(), m);
      } else {
        ScatterElsewhere(model.wo, Levels(maths, model), model.l, Silence(), bin);
      }
    }
    hide *;
    WeightsIrrelevant(vec, w, w', vqs, 5);
    CodedIs(maths, vqs, model);
  }

  lemma CodedIs(maths: Maths, vqs: seq<Codebook>, model: Model)
    requires model.Analysable() && Books(vqs) && |vqs| == 5
    ensures Coded(maths, vqs, model) ==
            Splits(Scatter(model.wo, Levels(maths, model), model.l, Silence()),
                   Scatter(model.wo, Weights(maths, model), model.l, Silence()), vqs, 5)
  {}

  /** The even branch of vq_interp. The scratch array for the input is used as the stack left it. */
  method Interpolate(setup: Setup, older: Quantised, model: Model, newer: Quantised) returns (r: Model)
    requires setup.Valid() && Tuple(setup.vqs, older.indexes) && Tuple(setup.vqs, newer.indexes) && model.Analysable()
    ensures r == Interpolated(setup.maths, setup.vqs, older, model, newer)
  {
    var vqs := setup.vqs;
    var vec := new real[BINS];
    ghost var junk: Spectrum := vec[..];
    var values := seq(BINS + 1, m requires 0 <= m <= BINS => setup.maths.db(model.a[m]));
    ScatterInto(vec, model.wo, values, model.l);
    var out := new real[BINS](_ => 0.0);
    assert MeanUpTo(vqs, older, newer, vec[..], 0, out[..]);
    assert Books(vqs) && Tiled(vqs) && End(vqs, 5) == BINS;
    hide MeanUpTo, Books, Tiled, Index;
    InterpSplitVq(out, vqs, 0, vec, older, newer);
    InterpSplitVq(out, vqs, 1, vec, older, newer);
    InterpSplitVq(out, vqs, 2, vec, older, newer);
    InterpSplitVq(out, vqs, 3, vec, older, newer);
    InterpSplitVq(out, vqs, 4, vec, older, newer);
    r := Rebuild(setup.maths, model, out, 0.0);
    MeanComplete(vqs, older, newer, vec[..], out[..]);
    AnyScratch(setup.maths, vqs, older, model, newer, junk);
  }

  lemma MeanComplete(vqs: seq<Codebook>, older: Quantised, newer: Quantised, mid: Spectrum, out: Spectrum)
    requires Books(vqs) && Tuple(vqs, older.indexes) && Tuple(vqs, newer.indexes) && End(vqs, |vqs|) == BINS
    requires MeanUpTo(vqs, older, newer, mid, |vqs|, out)
    ensures out == Mean(vqs, older, newer, mid)
  {
    hide Mean;
  }

  /** The interpolated frame looks at the scratch array at the bins of its harmonics only, which were just written. */
  lemma {:induction false} AnyScratch(maths: Maths, vqs: seq<Codebook>, older: Quantised, model: Model,
                                      newer: Quantised, junk: Spectrum)
    requires Books(vqs) && Tuple(vqs, older.indexes) && Tuple(vqs, newer.indexes) && model.Analysable()
    ensures var mid := Scatter(model.wo, Decibels(maths, model), model.l, junk);
            Rebuilt(maths, model, Mean(vqs, older, newer, mid), 0.0) == Interpolated(maths, vqs, older, model, newer)
  {
    hide Index, Decibels;
    var mid := Scatter(model.wo, Decibels(maths, model), model.l, junk);
    var mid' := Scatter(model.wo, Decibels(maths, model), model.l, Silence());
    forall m | 1 <= m <= model.l
      ensures Mean(vqs, older, newer, mid)[Index(model.wo, m)] == Mean(vqs, older, newer, mid')[Index(model.wo, m)]
    {
      ScatterOver(model.wo, Decibels(maths, model), model.l, junk, Silence(), m);
    }
    hide Mean, Scatter;
    assert Amplitudes(maths, model, Mean(vqs, older, newer, mid), 0.0)
        == Amplitudes(maths, model, Mean(vqs, older, newer, mid'), 0.0);
  }

  /** The sparse spectrum of a frame, and its weights over what the stack held. */
  method Prepare(maths: Maths, model: Model, level: real)
    returns (vec: array<real>, weights: array<real>, ghost junk: Spectrum)
    requires model.Analysable() && level == maths.Level(model)
    ensures fresh(vec) && fresh(weights) && vec != weights && vec.Length == weights.Length == BINS
    ensures vec[..] == Scatter(model.wo, Levels(maths, model), model.l, Silence())
    ensures weights[..] == Scatter(model.wo, Weights(maths, model), model.l, junk)
  {
    vec := new real[BINS](_ => 0.0);
    weights := new real[BINS];
    junk := weights[..];
    assert vec[..] == Silence();
    var levels := seq(BINS + 1, m requires 0 <= m <= BINS => maths.db(model.a[m]) - level);
    var factors := seq(BINS + 1, m requires 0 <= m <= BINS => maths.weight(model.a[m]));
    assert levels == Levels(maths, model) && factors == Weights(maths, model);
    hide Index, Scatter, Levels, Weights, Silence;
    ScatterInto(vec, model.wo, levels, model.l);
    ScatterInto(weights, model.wo, factors, model.l);
  }

  /** The five band searches of a frame. */
  method Code(setup: Setup, model: Model, level: real) returns (indexes: seq<nat>, count: nat, out: array<real>)
    requires setup.Valid() && model.Analysable() && level == setup.maths.Level(model)
    ensures fresh(out) && out.Length == BINS
    ensures var s := Coded(setup.maths, setup.vqs, model);
            out[..] == s.out && indexes == s.indexes && count == s.count
  {
    assert Books(setup.vqs) && |setup.vqs| == 5;
    hide *;
    var vec, weights, junk := Prepare(setup.maths, model, level);
    out := new real[BINS](_ => 0.0);
    AnyWeights(setup.maths, setup.vqs, model, junk);
    indexes, count := SplitFive(out, setup.vqs, weights, vec);
  }

  /** A delay line of three with its first i places moved down. */
  function Moved<T>(s: seq<T>, i: nat): (r: seq<T>)
    requires |s| == 3 && i <= 2
    ensures |r| == 3
  {
    s[1..i + 1] + s[i..]
  }

  lemma MovedStep<T>(s: seq<T>, i: nat)
    requires |s| == 3 && i < 2
    ensures Moved(s, i)[i := Moved(s, i)[i + 1]] == Moved(s, i + 1)
  {}

  lemma MovedEnds<T>(s: seq<T>)
    requires |s| == 3
    ensures Moved(s, 0) == s && Moved(s, 2) == [s[1], s[2], s[2]]
  {}

  class Aexp {
    const setup: Setup
    /** The delay line: slot 2 is the frame of the call, slots 1 and 0 those of the two calls before. */
    var models: seq<Model>
    var indexes: seq<seq<nat>>
    var mags: seq<real>
    var unquantised: seq<Model>
    var frames: nat
    var count: nat
    ghost var inputs: seq<Model>

    ghost predicate Shape()
      reads this
    {
      |models| == |indexes| == |mags| == |unquantised| == 3 && setup.Valid()
    }

    ghost function Slot(i: nat): Quantised
      reads this
      requires Shape() && i < 3
    {
      Quantised(indexes[i], mags[i], models[i])
    }

    ghost predicate Valid()
      reads this
    {
      && Shape()
      && Frames(inputs)
      && frames == |inputs|
      && Slot(0) == Past(setup, inputs, frames - 2)
      && Slot(1) == Past(setup, inputs, frames - 1)
      && unquantised[1].l == models[1].l
    }

    /** amp_experiment_create */
    constructor (setup: Setup)
      requires setup.Valid()
      ensures Valid() && inputs == [] && count == 0 && this.setup == setup
    {
      this.setup := setup;
      var initial := setup.initial;
      models, unquantised := [initial, initial, initial], [initial, initial, initial];
      indexes := [[0, 0, 0, 0, 0], [0, 0, 0, 0, 0], [0, 0, 0, 0, 0]];
      mags := [1.0, 1.0, 1.0];
      frames, count, inputs := 0, 0, [];
    }

    /** sparse_vq_amp */
    method SparseVqAmp(model: Model) returns (coded: Model)
      requires Shape() && model.Analysable()
      modifies this`indexes, this`mags, this`count
      ensures Shape()
      ensures var q := Quantise(setup.maths, setup.vqs, model);
              coded == q.model && indexes == old(indexes)[2 := q.indexes] && mags == old(mags)[2 := q.mag]
      ensures count == old(count) + Coded(setup.maths, setup.vqs, model).count
    {
      hide Coded, Rebuilt, Index;
      var level := FrameEnergy(setup.maths, model);
      mags := mags[2 := level];
      var found, nonZero, out := Code(setup, model, level);
      indexes := indexes[2 := found];
      count := count + nonZero;
      coded := Rebuild(setup.maths, model, out, level);
    }

    /** vq_interp: the frame of the call before comes out, and the delay line moves on. */
    method VqInterp(model: Model, on: bool) returns (r: Model)
      requires Shape() && models[1].Analysable()
      requires Tuple(setup.vqs, indexes[0]) && Tuple(setup.vqs, indexes[2])
      modifies this`models, this`indexes, this`mags
      ensures r == if on && frames % 2 == 0 then
                     Interpolated(setup.maths, setup.vqs, old(Slot(0)), old(models[1]),
                                  Quantised(old(indexes[2]), old(mags[2]), model))
                   else old(models[1])
      ensures models == [old(models[1]), model, model]
      ensures indexes == [old(indexes[1]), old(indexes[2]), old(indexes[2])]
      ensures mags == [old(mags[1]), old(mags[2]), old(mags[2])]
    {
      hide Interpolated, Setup.Valid, Moved;
      models := models[2 := model];
      ghost var ms, ixs, gs := models, indexes, mags;
      if on && frames % 2 == 0 {
        r := Interpolate(setup, Quantised(indexes[0], mags[0], models[0]), models[1],
                         Quantised(indexes[2], mags[2], models[2]));
      } else {
        r := models[1];
      }
      MovedEnds(ms);
      MovedEnds(ixs);
      MovedEnds(gs);
      for i := 0 to 2
        invariant models == Moved(ms, i) && indexes == Moved(ixs, i) && mags == Moved(gs, i)
      {
        MovedStep(ms, i);
        MovedStep(ixs, i);
        MovedStep(gs, i);
        models := models[i := models[i + 1]];
        indexes := indexes[i := indexes[i + 1]];
        mags := mags[i := mags[i + 1]];
      }
    }

    /** amp_experiment with "vqi" (on) or "vq"; the lengths update_snr_calc asserts equal are equal. */
    method Experiment(model: Model, on: bool) returns (r: Model)
      requires Valid() && model.Analysable()
      modifies this
      ensures Valid() && inputs == old(inputs) + [model]
      ensures r == Output(setup, inputs, on)
      ensures r.l == old(unquantised[1].l)
    {
      hide Quantise, Interpolated, Coded, Setup.Valid, Model.Analysable;
      unquantised := unquantised[2 := model];
      ghost var now := inputs + [model];
      PastStable(setup, inputs, model, frames - 2);
      PastStable(setup, inputs, model, frames - 1);
      var coded := SparseVqAmp(model);
      r := VqInterp(coded, on);
      frames := frames + 1;
      inputs := now;
      unquantised := [unquantised[1], unquantised[2], unquantised[2]];
    }
  }

  /**
   * A quantised frame has at every harmonic the dB value of its codewords. A bin exactly at the mean level looks
   * empty and gets the mean level. A bin with several harmonics has the level of the last of them.
   */
  lemma {:induction false} QuantisedAmplitude(setup: Setup, model: Model, m: nat)
    requires setup.Valid() && model.Analysable() && 1 <= m <= model.l
    ensures 0 <= Index(model.wo, m) < BINS
    ensures var q, bin := Quantise(setup.maths, setup.vqs, model), Index(model.wo, m);
            q.model.a[m] == setup.maths.amp(
              if Scatter(model.wo, Levels(setup.maths, model), model.l, Silence())[bin] != 0.0
              then Spectral(setup.vqs, q, bin) else q.mag)
  {
    hide Scatter, Index, Splits, Levels, Weights, Rebuilt, Silence, Decoded;
    var maths, vqs := setup.maths, setup.vqs;
    var vec := Scatter(model.wo, Levels(maths, model), model.l, Silence());
    var w := Scatter(model.wo, Weights(maths, model), model.l, Silence());
    var bin := Index(model.wo, m);
    RebuiltAt(maths, model, Splits(vec, w, vqs, 5).out, maths.Level(model), m);
    Conserved(vec, w, vqs, 5, bin);
    if vec[bin] != 0.0 {
      OutputSpectral(vqs, vec, w, bin);
    }
  }

  lemma RebuiltAt(maths: Maths, model: Model, spectrum: Spectrum, mag: real, m: nat)
    requires model.Analysable() && 1 <= m <= model.l
    ensures Rebuilt(maths, model, spectrum, mag).a[m] == maths.amp(spectrum[Index(model.wo, m)] + mag)
  {
    hide Index;
  }

  lemma {:induction false} OutputSpectral(vqs: seq<Codebook>, vec: Spectrum, w: Spectrum, bin: nat)
    requires Books(vqs) && Tiled(vqs) && 0 < |vqs| && bin < BINS && vec[bin] != 0.0
    ensures var s := Splits(vec, w, vqs, |vqs|);
            Tuple(vqs, s.indexes) && s.out[bin] == Decoded(vqs, s.indexes, |vqs|, bin)
  {
    TiledDisjoint(vqs);
    var c := FindBand(vqs, bin, |vqs|);
    var s := Splits(vec, w, vqs, |vqs|);
    hide Splits;
    OutputIs(vec, w, vqs, |vqs|, c, bin);
    DecodedIn(vqs, s.indexes, |vqs|, c, bin);
  }

  /** Every bin has a band. */
  lemma {:induction false} FindBand(vqs: seq<Codebook>, bin: nat, b: nat) returns (c: nat)
    requires Books(vqs) && Tiled(vqs) && 0 < b <= |vqs| && bin < End(vqs, b)
    ensures c < b && vqs[c].Covers(bin)
  {
    if bin >= vqs[b - 1].offset {
      c := b - 1;
    } else {
      c := FindBand(vqs, bin, b - 1);
    }
  }

  /**
   * With interpolation on, an even frame is the frame before with its own pitch, harmonics and phases, and at every
   * bin of nonzero dB value the mean of the quantised spectra of the frames on both sides. A bin with several
   * harmonics has the dB value of the last of them.
   */
  lemma {:induction false} EvenFrame(setup: Setup, inputs: seq<Model>, m: nat)
    requires setup.Valid() && Frames(inputs) && |inputs| > 0 && (|inputs| - 1) % 2 == 0
    requires 1 <= m <= Past(setup, inputs, |inputs| - 2).model.l
    ensures var n, vqs := |inputs| - 1, setup.vqs;
            var previous, r := Past(setup, inputs, n - 1).model, Output(setup, inputs, true);
            var bin := Index(previous.wo, m);
            && 0 <= bin < BINS
            && r.wo == previous.wo && r.l == previous.l && r.phi == previous.phi && r.voiced == previous.voiced
            && r.a[m] == setup.maths.amp(
                 if Scatter(previous.wo, Decibels(setup.maths, previous), previous.l, Silence())[bin] != 0.0 then
                   0.5 * Spectral(vqs, Past(setup, inputs, n - 2), bin)
                     + 0.5 * Spectral(vqs, Past(setup, inputs, n), bin)
                 else 0.0)
  {
    hide Past, Scatter, Index, Spectral, Decibels;
  }

  /** The first call puts out the initial frame, or one interpolated from codewords 0 at level 1 and the input. */
  lemma {:induction false} FirstFrame(setup: Setup, input: Model, m: nat)
    requires setup.Valid() && input.Analysable() && 1 <= m <= 40
    ensures Output(setup, [input], false) == setup.initial
    ensures setup.initial.wo == TWO_PI * 100.0 / 8000.0 && setup.initial.l == 40 && setup.initial.a[m] == 10.0
    ensures var initial, vqs, r := setup.initial, setup.vqs, Output(setup, [input], true);
            var bin := Index(initial.wo, m);
            && 0 <= bin < BINS && r.wo == initial.wo && r.l == 40 && r.phi == initial.phi
            && r.a[m] == setup.maths.amp(
                 if Scatter(initial.wo, Decibels(setup.maths, initial), 40, Silence())[bin] != 0.0 then
                   0.5 * (1.0 + Decoded(vqs, [0, 0, 0, 0, 0], 5, bin))
                     + 0.5 * Spectral(vqs, Quantise(setup.maths, vqs, input), bin)
                 else 0.0)
  {
    hide Scatter, Index, Decoded, Decibels, Quantise;
    EvenFrame(setup, [input], m);
  }

  /**
   * An odd frame, and every frame with interpolation off, is the quantised frame before: its pitch, harmonics and
   * phases as they came in, and at every harmonic the dB value of its own codewords.
   */
  lemma {:induction false} OddFrame(setup: Setup, inputs: seq<Model>, on: bool, m: nat)
    requires setup.Valid() && Frames(inputs) && |inputs| > 1 && (on ==> (|inputs| - 1) % 2 == 1)
    requires 1 <= m <= inputs[|inputs| - 2].l
    ensures var input, r := inputs[|inputs| - 2], Output(setup, inputs, on);
            var q, bin := Quantise(setup.maths, setup.vqs, input), Index(input.wo, m);
            && 0 <= bin < BINS
            && r.wo == input.wo && r.l == input.l && r.phi == input.phi && r.voiced == input.voiced
            && r.a[m] == setup.maths.amp(
                 if Scatter(input.wo, Levels(setup.maths, input), input.l, Silence())[bin] != 0.0
                 then Spectral(setup.vqs, q, bin) else q.mag)
  {
    var input := inputs[|inputs| - 2];
    assert Output(setup, inputs, on) == Quantise(setup.maths, setup.vqs, input).model;
    hide Output, Scatter, Index, Spectral, Levels;
    QuantisedAmplitude(setup, input, m);
  }

  /** Harmonics that are separate have a bin each, and so the level and the dB value that decide are their own. */
  lemma {:induction false} OwnBin(setup: Setup, model: Model, m: nat)
    requires setup.Valid() && model.Analysable() && Separate(model.wo, model.l) && 1 <= m <= model.l
    ensures var bin := Index(model.wo, m);
            && Scatter(model.wo, Levels(setup.maths, model), model.l, Silence())[bin]
               == setup.maths.db(model.a[m]) - setup.maths.Level(model)
            && Scatter(model.wo, Weights(setup.maths, model), model.l, Silence())[bin] == setup.maths.weight(model.a[m])
            && Scatter(model.wo, Decibels(setup.maths, model), model.l, Silence())[bin] == setup.maths.db(model.a[m])
  {
    GatherScatter(model.wo, Levels(setup.maths, model), model.l, Silence(), model.l, m);
    GatherScatter(model.wo, Weights(setup.maths, model), model.l, Silence(), model.l, m);
    GatherScatter(model.wo, Decibels(setup.maths, model), model.l, Silence(), model.l, m);
    hide Scatter, Index, Separate;
  }

  /** The indexes of a frame are the best five for its spectrum, when no band is out of reach. */
  lemma {:induction false} FrameOptimal(setup: Setup, model: Model)
    requires setup.Valid() && model.Analysable()
    ensures var vec := Scatter(model.wo, Levels(setup.maths, model), model.l, Silence());
            var w := Scatter(model.wo, Weights(setup.maths, model), model.l, Silence());
            Best(vec, w, setup.vqs, Quantise(setup.maths, setup.vqs, model).indexes)
            <==> forall c | 0 <= c < 5 :: Served(vec, w, setup.vqs[c])
  {
    hide Best, Served, Splits, Scatter, Levels, Weights;
    TiledDisjoint(setup.vqs);
    SplitOptimal.SplitOptimal(Scatter(model.wo, Levels(setup.maths, model), model.l, Silence()),
                              Scatter(model.wo, Weights(setup.maths, model), model.l, Silence()), setup.vqs);
  }

  /** The statistics count every nonzero bin of the frame once. */
  lemma {:induction false} FrameCount(setup: Setup, model: Model)
    requires setup.Valid() && model.Analysable()
    ensures Coded(setup.maths, setup.vqs, model).count ==
            NonZero(Scatter(model.wo, Levels(setup.maths, model), model.l, Silence()), 0, BINS)
  {
    hide Splits, Scatter, Levels, Weights, NonZero;
    CountIs(Scatter(model.wo, Levels(setup.maths, model), model.l, Silence()),
            Scatter(model.wo, Weights(setup.maths, model), model.l, Silence()), setup.vqs, 5);
  }
}
