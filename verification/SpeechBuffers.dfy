/** The sample buffers of codec2.c: the sliding window of the analysis, and the limiter before the output. */
module SpeechBuffers {

  const M: nat := 320
  const N: nat := 80

  class Analysis {
    const sn: array<real>
    ghost var heard: seq<real>

    /** The window holds the last 320 samples of 320 ones followed by all the speech so far. */
    ghost predicate Valid()
      reads this, sn
    {
      sn.Length == M && sn[..] == Window(heard)
    }

    constructor ()
      ensures Valid() && heard == [] && fresh(sn)
    {
      sn := new real[M](_ => 1.0);
      heard := [];
    }

    /** The first two loops of analyse_one_frame: a shift within the window, and the new samples behind it. */
    method Shift(speech: seq<real>)
      requires Valid() && |speech| == N
      modifies sn, this`heard
      ensures Valid() && heard == old(heard) + speech
      ensures forall i | 0 <= i < 320 :: sn[i] == if |heard| + i < 320 then 1.0 else heard[|heard| + i - 320]
    {
      ghost var s := sn[..];
      MoveDown(sn);
      CopyIn(sn, speech);
      WindowNext(s, heard, speech);
      heard := heard + speech;
    }
  }

  /** The samples of a window move N places towards its start, one by one. */
  method MoveDown(sn: array<real>)
    requires sn.Length == M
    modifies sn
    ensures sn[..M - N] == old(sn[N..])
  {
    for i := 0 to M - N
      invariant forall k | 0 <= k < i :: sn[k] == old(sn[k + N])
      invariant forall k | i <= k < M :: sn[k] == old(sn[k])
    {
      sn[i] := sn[i + N];
    }
  }

  /** New samples go to the end of a window. */
  method CopyIn(sn: array<real>, speech: seq<real>)
    requires sn.Length == M && |speech| == N
    modifies sn
    ensures sn[..] == old(sn[..M - N]) + speech
  {
    for i := 0 to N
      invariant forall k | 0 <= k < M - N :: sn[k] == old(sn[k])
      invariant sn[M - N..M - N + i] == speech[..i]
    {
      sn[i + M - N] := speech[i];
    }
    assert speech[..N] == speech && sn[..] == sn[..M - N] + sn[M - N..M];
  }

  /** The window over all speech so far, as a function of it. */
  ghost function Window(heard: seq<real>): seq<real> {
    (seq(M, _ => 1.0) + heard)[|heard|..]
  }

  lemma WindowNext(s: seq<real>, heard: seq<real>, speech: seq<real>)
    requires |speech| == N && s == Window(heard)
    ensures s[N..] + speech == Window(heard + speech)
  {
    var ones := seq(M, _ => 1.0);
    assert (ones + heard) + speech == ones + (heard + speech);
  }

  /** The largest of the first n samples, and at least zero. */
  function Peak(s: seq<real>, n: nat): (p: real)
    requires n <= |s|
    ensures p >= 0.0 && (forall i | 0 <= i < n :: s[i] <= p) && (p > 0.0 ==> exists i | 0 <= i < n :: s[i] == p)
  {
    if n == 0 then 0.0
    else
      var p := Peak(s, n - 1);
      if s[n - 1] > p then s[n - 1] else p
  }

  /** The gain of ear_protection: as far below the set point as the peak is above it, in dB. */
  function Gain(peak: real): (g: real) {
    var over := peak / 30000.0;
    if over > 1.0 then 1.0 / (over * over) else 1.0
  }

  lemma {:induction false} GainIs(peak: real)
    requires peak >= 0.0
    ensures 0.0 < Gain(peak) <= 1.0
    ensures peak > 30000.0 ==> peak * Gain(peak) == 30000.0 * 30000.0 / peak < 30000.0
    ensures peak <= 30000.0 ==> Gain(peak) == 1.0
  {
    if peak > 30000.0 {
      var over := peak / 30000.0;
      assert over > 1.0;
      assert over * over > 1.0;
      Inverse(over * over);
      Cancel(peak, over);
    }
  }

  lemma Inverse(x: real)
    requires x > 1.0
    ensures 0.0 < 1.0 / x < 1.0
  {}

  lemma Cancel(peak: real, over: real)
    requires peak > 30000.0 && over == peak / 30000.0 && over > 1.0
    ensures peak * (1.0 / (over * over)) == 30000.0 * 30000.0 / peak < 30000.0
  {
    var g := 1.0 / (over * over);
    assert peak == 30000.0 * over;
    assert g * (over * over) == 1.0;
    assert peak * g * over == 30000.0 * (g * (over * over)) == 30000.0;
    assert peak * g * peak == 30000.0 * (peak * g * over) == 30000.0 * 30000.0;
  }

  function Scaled(x: real, g: real): real {
    x * g
  }

  lemma ScaledDown(x: real, peak: real, g: real)
    requires x <= peak && g > 0.0
    ensures Scaled(x, g) <= Scaled(peak, g)
  {}

  lemma ScaledOne(x: real)
    ensures Scaled(x, 1.0) == x
  {}

  /** ear_protection: one gain for the whole frame, between 0 and 1, that leaves no sample above 30000. */
  method EarProtection(s: array<real>)
    modifies s
    ensures forall i | 0 <= i < s.Length :: s[i] == Limited(old(s[..]), i) && s[i] <= 30000.0
  {
    hide Gain, Peak, Scaled;
    var peak := FindPeak(s);
    GainIs(peak);
    GainLimits(peak);
    if peak / 30000.0 > 1.0 {
      ScaleAll(s, Gain(peak), peak);
    } else {
      forall i | 0 <= i < s.Length ensures s[i] == Limited(s[..], i) {
        ScaledOne(s[i]);
      }
    }
  }

  lemma GainLimits(peak: real)
    requires peak >= 0.0
    ensures Scaled(peak, Gain(peak)) <= 30000.0
  {
    GainIs(peak);
  }

  method FindPeak(s: array<real>) returns (peak: real)
    ensures peak == Peak(s[..], s.Length)
  {
    peak := 0.0;
    for i := 0 to s.Length
      invariant peak == Peak(s[..], i)
    {
      if s[i] > peak {
        peak := s[i];
      }
    }
  }

  method ScaleAll(s: array<real>, gain: real, peak: real)
    requires gain > 0.0 && forall i | 0 <= i < s.Length :: s[i] <= peak
    modifies s
    ensures forall i | 0 <= i < s.Length :: s[i] == Scaled(old(s[i]), gain) && s[i] <= Scaled(peak, gain)
  {
    for i := 0 to s.Length
      invariant forall k | i <= k < s.Length :: s[k] == old(s[k])
      invariant forall k | 0 <= k < i :: s[k] == Scaled(old(s[k]), gain) && s[k] <= Scaled(peak, gain)
    {
      ScaledDown(s[i], peak, gain);
      s[i] := s[i] * gain;
    }
  }

  /** y is x without its fraction: the next whole number towards zero. */
  ghost predicate TowardsZero(x: real, y: int) {
    if x >= 0.0 then x - 1.0 < y as real <= x else x <= y as real < x + 1.0
  }

  lemma TruncateIs(x: real)
    ensures TowardsZero(x, Truncate(x))
  {}

  /** The conversion to short. */
  function Truncate(x: real): int {
    if x >= 0.0 then x.Floor else -((-x).Floor)
  }

  /**
   * The end of synthesise_one_frame. The limiter makes the upper clip superfluous; the lower one is needed, since
   * the limiter looks at the positive peak only.
   */
  method Synthesised(s: array<real>) returns (speech: seq<int>)
    modifies s
    ensures |speech| == s.Length
    ensures forall i | 0 <= i < |speech| ::
              var x := Limited(old(s[..]), i);
              && (x < -32767.0 ==> speech[i] == -32767)
              && (x >= -32767.0 ==> TowardsZero(x, speech[i]))
              && -32767 <= speech[i] <= 30000
  {
    hide Gain, Peak;
    EarProtection(s);
    speech := [];
    for i := 0 to s.Length
      modifies {}
      invariant |speech| == i
      invariant forall k | 0 <= k < i ::
                  && (s[k] < -32767.0 ==> speech[k] == -32767)
                  && (s[k] >= -32767.0 ==> TowardsZero(s[k], speech[k]))
                  && -32767 <= speech[k] <= 30000
    {
      var x: int;
      if s[i] > 32767.0 {
        x := 32767;
      } else if s[i] < -32767.0 {
        x := -32767;
      } else {
        TruncateIs(s[i]);
        x := Truncate(s[i]);
      }
      speech := speech + [x];
    }
  }

  /** Sample i after the limiter. */
  function Limited(s: seq<real>, i: nat): real
    requires i < |s|
  {
    Scaled(s[i], Gain(Peak(s, |s|)))
  }

  /** The lower clip acts on a frame exactly when a negative excursion outweighs what the positive peak calls for. */
  lemma {:induction false} LowerClip(s: seq<real>, i: nat)
    requires i < |s|
    ensures var over := Peak(s, |s|) / 30000.0;
            Limited(s, i) < -32767.0 <==> s[i] < -32767.0 * (if over > 1.0 then over * over else 1.0)
  {
    var over := Peak(s, |s|) / 30000.0;
    hide Peak;
    if over > 1.0 {
      assert over * over > 1.0;
      Undo(s[i], over * over);
    } else {
      ScaledOne(s[i]);
    }
  }

  lemma Undo(x: real, y: real)
    requires y > 1.0
    ensures Scaled(x, 1.0 / y) < -32767.0 <==> x < -32767.0 * y
  {
    var z := Scaled(x, 1.0 / y);
    assert x == z * y;
    hide Scaled;
    Less(z, -32767.0, y);
  }

  lemma Less(a: real, b: real, y: real)
    requires y > 0.0
    ensures a < b <==> a * y < b * y
  {
    assert a < b ==> a * y < b * y;
    assert a > b ==> a * y > b * y;
  }

  lemma ClippedFrame()
    ensures Limited([-40000.0, 10.0], 0) < -32767.0
  {
    LowerClip([-40000.0, 10.0], 0);
    assert Peak([-40000.0, 10.0], 2) == 10.0 by {
      assert Peak([-40000.0, 10.0], 1) == 0.0;
    }
  }
}
