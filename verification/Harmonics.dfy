/** The map from harmonics to bins of the sparse spectrum in ampexp.c, and moving values along it. */
module Harmonics {
  import opened SparseVq

  const PI: real := 3.141592654

  const TWO_PI: real := 6.283185307

  /** MAX_AMP*m*Wo/PI */
  function Position(wo: real, m: nat): real {
    80.0 * m as real * wo / PI
  }

  /** The bin of harmonic m: its position, cut off to an integer. */
  function Index(wo: real, m: nat): int {
    Position(wo, m).Floor
  }

  /** No harmonic from 1 to l trips the assertion on its bin. */
  ghost predicate InRange(wo: real, l: nat) {
    forall m | 1 <= m <= l :: 0 <= Index(wo, m) < BINS
  }

  lemma {:induction false} IndexBelow(wo: real, m: nat)
    requires wo >= 0.0
    ensures 0 <= Index(wo, m)
    ensures Index(wo, m) < BINS <==> m as real * wo < PI
  {
    var x := m as real * wo;
    assert x >= 0.0;
    assert 80.0 * m as real * wo / PI == 80.0 * x / PI;
  }

  /** The assertion holds for all harmonics exactly when the last one lies below half the sampling frequency. */
  lemma {:induction false} InRangeIs(wo: real, l: nat)
    requires wo >= 0.0
    ensures InRange(wo, l) <==> l == 0 || l as real * wo < PI
  {
    hide Index;
    if l > 0 {
      IndexBelow(wo, l);
      if l as real * wo < PI {
        forall m | 1 <= m <= l ensures 0 <= Index(wo, m) < BINS {
          IndexBelow(wo, m);
          assert m as real * wo <= l as real * wo;
        }
      }
    }
  }

  /** The last of l harmonics is not more than one bin behind its number. */
  predicate Separate(wo: real, l: nat) {
    Position(wo, l) >= l as real - 1.0
  }

  /** No two of the first l harmonics share a bin. */
  ghost predicate OwnBins(wo: real, l: nat) {
    forall m, n | 1 <= m < n <= l :: Index(wo, m) != Index(wo, n)
  }

  lemma PositionSum(wo: real, m: nat, n: nat)
    ensures Position(wo, m + n) == Position(wo, m) + Position(wo, n)
  {}

  lemma PositionBound(wo: real, m: nat)
    ensures Position(wo, 1) >= 1.0 ==> Position(wo, m) >= m as real
    ensures Position(wo, 1) < 1.0 ==> Position(wo, m) <= m as real && (m > 0 ==> Position(wo, m) < m as real)
  {
    var r := Position(wo, 1);
    assert Position(wo, m) == m as real * r;
    assert r >= 1.0 ==> m as real * r >= m as real;
    assert r < 1.0 && m > 0 ==> m as real * r < m as real;
  }

  /** Harmonics that are separate have bins of their own, in order. */
  lemma {:induction false} Increasing(wo: real, l: nat, m: nat, n: nat)
    requires Separate(wo, l) && 1 <= m < n <= l
    ensures Index(wo, m) < Index(wo, n)
  {
    hide Position;
    PositionBound(wo, m);
    if Position(wo, 1) >= 1.0 {
      PositionSum(wo, m, n - m);
      PositionBound(wo, n - m);
      FloorApart(Position(wo, m), Position(wo, n), Position(wo, m).Floor + 1);
    } else {
      PositionSum(wo, n, l - n);
      PositionBound(wo, l - n);
      assert (l - n) as real == l as real - n as real;
      FloorApart(Position(wo, m), Position(wo, n), n - 1);
    }
  }

  lemma FloorApart(x: real, y: real, k: int)
    requires x < k as real <= y
    ensures x.Floor < y.Floor
  {
    var i, j := x.Floor, y.Floor;
    assert i as real <= x && y < j as real + 1.0;
    assert i < k by {
      assert i as real < k as real;
    }
    assert k < j + 1 by {
      assert k as real < (j + 1) as real;
    }
  }

  /** Harmonics less than a bin apart that share no bin fill the bins one after the other. */
  lemma {:induction false} Dense(wo: real, l: nat, m: nat)
    requires wo >= 0.0 && Position(wo, 1) < 1.0 && OwnBins(wo, l) && 1 <= m <= l
    ensures Index(wo, m) == m - 1
  {
    PositionSum(wo, m - 1, 1);
    assert Position(wo, 1) >= 0.0;
    hide Position;
    if m > 1 {
      Dense(wo, l, m - 1);
      assert Index(wo, m - 1) != Index(wo, m);
    }
  }

  /** The exact condition: no bin is shared precisely when the last harmonic keeps up. */
  lemma {:induction false} OwnBinsIs(wo: real, l: nat)
    requires wo >= 0.0
    ensures OwnBins(wo, l) <==> Separate(wo, l)
  {
    if Separate(wo, l) {
      forall m, n | 1 <= m < n <= l ensures Index(wo, m) != Index(wo, n) {
        Increasing(wo, l, m, n);
      }
    } else {
      PositionBound(wo, l);
      assert Position(wo, 1) < 1.0 && l >= 1;
      if OwnBins(wo, l) {
        Dense(wo, l, l);
      }
    }
  }

  /** The lowest pitch the codec allows, with the constants it uses: separate, although less than a bin apart. */
  lemma {:induction false} LowestPitch()
    ensures var wo := TWO_PI / 160.0;
            80.0 * wo < PI && InRange(wo, 80) && Separate(wo, 80) && forall m | 1 <= m <= 80 :: Index(wo, m) == m - 1
  {
    var wo := TWO_PI / 160.0;
    InRangeIs(wo, 80);
    assert Separate(wo, 80);
    OwnBinsIs(wo, 80);
    assert wo >= 0.0 && Position(wo, 1) < 1.0;
    forall m | 1 <= m <= 80 ensures Index(wo, m) == m - 1 {
      Dense(wo, 80, m);
    }
  }

  /** Per harmonic values put into an array that held `base`, in the order of the harmonics. */
  function Scatter(wo: real, values: seq<real>, n: nat, base: Spectrum): (s: Spectrum)
    requires InRange(wo, n) && n < |values|
  {
    if n == 0 then base else Scatter(wo, values, n - 1, base)[Index(wo, n) := values[n]]
  }

  /** Bins without a harmonic keep what they held. */
  lemma {:induction false} ScatterElsewhere(wo: real, values: seq<real>, n: nat, base: Spectrum, bin: nat)
    requires InRange(wo, n) && n < |values| && bin < BINS && forall m | 1 <= m <= n :: Index(wo, m) != bin
    ensures Scatter(wo, values, n, base)[bin] == base[bin]
  {
    if n != 0 {
      ScatterElsewhere(wo, values, n - 1, base, bin);
    }
  }

  /** At the bins of harmonics nothing is left of what the array held. */
  lemma {:induction false} ScatterOver(wo: real, values: seq<real>, n: nat, base: Spectrum, base': Spectrum, m: nat)
    requires InRange(wo, n) && n < |values| && 1 <= m <= n
    ensures Scatter(wo, values, n, base)[Index(wo, m)] == Scatter(wo, values, n, base')[Index(wo, m)]
  {
    hide Index;
    if m < n {
      ScatterOver(wo, values, n - 1, base, base', m);
    }
  }

  /** Gathering what was scattered gives every harmonic its value back. */
  lemma {:induction false} GatherScatter(wo: real, values: seq<real>, n: nat, base: Spectrum, l: nat, m: nat)
    requires Separate(wo, l) && n <= l && InRange(wo, n) && n < |values| && 1 <= m <= n
    ensures Scatter(wo, values, n, base)[Index(wo, m)] == values[m]
  {
    hide Separate, Index;
    if m < n {
      GatherScatter(wo, values, n - 1, base, l, m);
      Increasing(wo, l, m, n);
    }
  }

  /** A bin shared with a later harmonic does not keep the value of an earlier one. */
  lemma {:induction false} Overwritten(wo: real, l: nat, m: nat, n: nat, values: seq<real>)
    requires InRange(wo, l) && 1 <= m < n <= l < |values| && Index(wo, m) == Index(wo, n)
    requires forall i | 0 <= i < |values| :: values[i] == if i <= m then 0.0 else 1.0
    ensures Scatter(wo, values, l, Silence())[Index(wo, m)] == 1.0
  {
    hide Index;
    if n < l {
      Overwritten(wo, l - 1, m, n, values);
    }
  }

  /** Whatever the values, every harmonic finds its own again. */
  ghost predicate Lossless(wo: real, l: nat)
    requires InRange(wo, l)
  {
    forall values: seq<real>, base: Spectrum, m: nat | |values| > l && 1 <= m <= l ::
      Scatter(wo, values, l, base)[Index(wo, m)] == values[m]
  }

  lemma NotSeparate(wo: real, l: nat)
    requires InRange(wo, l) && !Separate(wo, l)
    ensures wo >= 0.0
  {
    if l == 0 {
      assert false;
    } else {
      assert Index(wo, 1) >= 0;
      assert Position(wo, 1) >= 0.0;
    }
  }

  /** Gathering undoes scattering exactly when the harmonics are separate. */
  lemma {:induction false} LosslessIs(wo: real, l: nat)
    requires InRange(wo, l)
    ensures Lossless(wo, l) <==> Separate(wo, l)
  {
    if Separate(wo, l) {
      forall values: seq<real>, base: Spectrum, m: nat | |values| > l && 1 <= m <= l
        ensures Scatter(wo, values, l, base)[Index(wo, m)] == values[m]
      {
        GatherScatter(wo, values, l, base, l, m);
      }
    } else {
      NotSeparate(wo, l);
      OwnBinsIs(wo, l);
      hide Separate, Index;
      var m, n :| 1 <= m < n <= l && Index(wo, m) == Index(wo, n);
      var values := seq(l + 1, i => if i <= m then 0.0 else 1.0);
      Overwritten(wo, l, m, n, values);
      assert values[m] == 0.0;
    }
  }

  /** Two harmonics that are not separate: the second takes the bin from the first. */
  lemma {:induction false} Collision()
    ensures InRange(0.01, 2) && !Separate(0.01, 2) && Index(0.01, 1) == Index(0.01, 2)
    ensures Scatter(0.01, [0.0, 1.0, 2.0], 2, Silence())[Index(0.01, 1)] == 2.0
  {
    InRangeIs(0.01, 2);
    assert Index(0.01, 1) == 0 == Index(0.01, 2);
  }
}
