/**
 * The symbol layer of the FDMDV modem, fdmdv.c: bits are sent as phase steps from one symbol to the next, one carrier
 * for every two bits and a pilot carrier whose steps alternate, and read back from the phase differences.
 */
module Dqpsk {
  import opened Complex

  const J := Cpx(0.0, 1.0)

  /** The legacy mapping of version 0.91, or the current one. */
  datatype Mapping = Current | Legacy

  /** The phase step for two bits; the legacy mapping exchanges the two steps with the first bit set. */
  function Step(msb: bool, lsb: bool, mapping: Mapping): Cpx {
    if !msb then (if lsb then J else ONE)
    else if lsb == mapping.Legacy? then Neg(J) else Neg(ONE)
  }

  /** bits_to_dqpsk_symbols; the last carrier is the pilot, and its bit is turned over for the next call. */
  method BitsToSymbols(nc: nat, previous: array<Cpx>, bits: seq<bool>, pilot: bool, mapping: Mapping)
    returns (symbols: array<Cpx>, pilot': bool)
    requires previous.Length == nc + 1 && |bits| == 2 * nc
    ensures fresh(symbols) && symbols.Length == nc + 1 && pilot' == !pilot
    ensures forall c | 0 <= c < nc :: symbols[c] == Mul(Step(bits[2 * c], bits[2 * c + 1], mapping), previous[c])
    ensures symbols[nc] == Mul(if pilot then Neg(ONE) else ONE, previous[nc])
  {
    symbols := new Cpx[nc + 1];
    for c := 0 to nc
      invariant forall i | 0 <= i < c :: symbols[i] == Mul(Step(bits[2 * i], bits[2 * i + 1], mapping), previous[i])
    {
      var msb, lsb, p := bits[2 * c], bits[2 * c + 1], previous[c];
      if !msb && !lsb {
        symbols[c] := p;
      }
      if !msb && lsb {
        symbols[c] := Mul(J, p);
      }
      if msb && !lsb {
        symbols[c] := if mapping.Legacy? then Neg(p) else Mul(Neg(J), p);
      }
      if msb && lsb {
        symbols[c] := if mapping.Legacy? then Mul(Neg(J), p) else Neg(p);
      }
      StepMul(msb, lsb, mapping, p);
    }
    symbols[nc] := if pilot then Neg(previous[nc]) else previous[nc];
    pilot' := !pilot;
  }

  lemma StepMul(msb: bool, lsb: bool, mapping: Mapping, p: Cpx)
    ensures Mul(Step(msb, lsb, mapping), p) ==
            if !msb && !lsb then p else if !msb then Mul(J, p)
            else if lsb == mapping.Legacy? then Mul(Neg(J), p) else Neg(p)
  {}

  /** The phase steps as turns: none, a quarter forward, half, and a quarter back. */
  lemma StepIs(mapping: Mapping, p: Cpx)
    ensures Mul(Step(false, false, mapping), p) == p
    ensures Mul(Step(false, true, mapping), p) == Cpx(-p.i, p.r)
    ensures Mul(Step(true, mapping == Current, mapping), p) == Cpx(-p.r, -p.i)
    ensures Mul(Step(true, mapping != Current, mapping), p) == Cpx(p.i, -p.r)
  {}

  /** The two bits of a phase difference turned by 45 degrees, read from the signs of its parts. */
  function Decide(d: Cpx, mapping: Mapping): (bool, bool) {
    if d.r >= 0.0 && d.i >= 0.0 then (false, false)
    else if d.r < 0.0 && d.i >= 0.0 then (false, true)
    else if d.r < 0.0 then (true, !mapping.Legacy?)
    else (true, mapping.Legacy?)
  }

  /** What the receiver takes from the C library: cabsolute(), and cos(PI/4), which is also sin(PI/4). */
  datatype Maths = Maths(abs: Cpx -> real, cos45: real) {
    ghost predicate Valid() {
      cos45 > 0.0 && forall c :: abs(c) >= 0.0
    }
  }

  function Difference(maths: Maths, rx: Cpx, previous: Cpx): Cpx
    requires maths.abs(previous) >= 0.0
  {
    var norm := 1.0 / (maths.abs(previous) + 0.000001);
    Mul(rx, Scale(Conj(previous), norm))
  }

  function Turned(maths: Maths, rx: Cpx, previous: Cpx): Cpx
    requires maths.abs(previous) >= 0.0
  {
    Mul(Difference(maths, rx, previous), Cpx(maths.cos45, maths.cos45))
  }

  /** qpsk_to_bits, without the frequency estimate. */
  method SymbolsToBits(maths: Maths, nc: nat, rx: array<Cpx>, previous: array<Cpx>, mapping: Mapping)
    returns (bits: seq<bool>, syncBit: bool)
    requires maths.Valid() && rx.Length == previous.Length == nc + 1
    ensures |bits| == 2 * nc
    ensures forall c | 0 <= c < nc ::
            (bits[2 * c], bits[2 * c + 1]) == Decide(Turned(maths, rx[c], previous[c]), mapping)
    ensures syncBit == (Difference(maths, rx[nc], previous[nc]).r < 0.0)
    ensures forall c | 0 <= c < nc ::
              var z := Mul(rx[c], Conj(previous[c]));
              bits[2 * c] == (z.r + z.i < 0.0) && bits[2 * c + 1] == LowBit(z, mapping)
    ensures syncBit == (Mul(rx[nc], Conj(previous[nc])).r < 0.0)
  {
    hide Turned, Difference;
    bits := [];
    for c := 0 to nc
      invariant |bits| == 2 * c
      invariant forall i | 0 <= i < c ::
                  (bits[2 * i], bits[2 * i + 1]) == Decide(Turned(maths, rx[i], previous[i]), mapping)
    {
      var d := Turned(maths, rx[c], previous[c]);
      var msb, lsb := false, false;
      if d.r >= 0.0 && d.i >= 0.0 {
        msb, lsb := false, false;
      }
      if d.r < 0.0 && d.i >= 0.0 {
        msb, lsb := false, true;
      }
      if d.r < 0.0 && d.i < 0.0 {
        msb, lsb := true, !mapping.Legacy?;
      }
      if d.r >= 0.0 && d.i < 0.0 {
        msb, lsb := true, mapping.Legacy?;
      }
      bits := bits + [msb, lsb];
    }
    syncBit := Difference(maths, rx[nc], previous[nc]).r < 0.0;
    hide Mul, Decide, Conj;
    forall c | 0 <= c < nc
      ensures var z := Mul(rx[c], Conj(previous[c]));
              bits[2 * c] == (z.r + z.i < 0.0) && bits[2 * c + 1] == LowBit(z, mapping)
    {
      Sectors(maths, rx[c], previous[c], mapping);
    }
    Sectors(maths, rx[nc], previous[nc], mapping);
  }

  /** The second bit of a phase difference that is not yet turned. */
  predicate LowBit(z: Cpx, mapping: Mapping) {
    if mapping == Current || z.r + z.i >= 0.0 then z.r < z.i else z.r >= z.i
  }

  /** What the receiver decides depends on the sector the phase difference lies in, not on amplitudes. */
  lemma {:induction false} Sectors(maths: Maths, rx: Cpx, previous: Cpx, mapping: Mapping)
    requires maths.Valid()
    ensures var z := Mul(rx, Conj(previous));
            && Decide(Turned(maths, rx, previous), mapping) == (z.r + z.i < 0.0, LowBit(z, mapping))
            && (Difference(maths, rx, previous).r < 0.0 <==> z.r < 0.0)
  {
    var norm, z, p := 1.0 / (maths.abs(previous) + 0.000001), Mul(rx, Conj(previous)), Conj(previous);
    assert norm > 0.0;
    MulCommutes(rx, Scale(p, norm));
    ScaleOut(norm, p, rx);
    MulCommutes(p, rx);
    assert Difference(maths, rx, previous) == Scale(z, norm);
    SignScale(norm, z.r);
    QuarterTurn(Scale(z, norm), maths.cos45);
    hide Mul, Scale, Conj;
    SumScale(z, norm, maths.cos45);
  }

  lemma QuarterTurn(z: Cpx, c: real)
    ensures Mul(z, Cpx(c, c)) == Cpx((z.r - z.i) * c, (z.r + z.i) * c)
  {}

  lemma SumScale(z: Cpx, k: real, c: real)
    requires k > 0.0 && c > 0.0
    ensures var s := Scale(z, k);
            && ((s.r - s.i) * c >= 0.0 <==> z.r - z.i >= 0.0) && ((s.r + s.i) * c >= 0.0 <==> z.r + z.i >= 0.0)
  {
    var s := Scale(z, k);
    assert s.r - s.i == k * (z.r - z.i) && s.r + s.i == k * (z.r + z.i);
    hide Scale;
    SignScale(c, s.r - s.i);
    SignScale(c, s.r + s.i);
    SignScale(k, z.r - z.i);
    SignScale(k, z.r + z.i);
  }

  // The algebra of a phase difference.

  lemma Interchange(x: Cpx, y: Cpx, z: Cpx, w: Cpx)
    ensures Mul(Mul(x, y), Mul(z, w)) == Mul(Mul(x, z), Mul(y, w))
  {
    hide Mul;
    MulAssoc(x, y, Mul(z, w));
    MulAssoc(y, z, w);
    MulCommutes(y, z);
    MulAssoc(z, y, w);
    MulAssoc(x, z, Mul(y, w));
  }

  lemma ScaleMul(k: real, a: Cpx)
    ensures Scale(a, k) == Mul(Cpx(k, 0.0), a)
  {}

  lemma MulConj(a: Cpx)
    ensures Mul(a, Conj(a)) == Cpx(Norm2(a), 0.0)
  {}

  /** Through gains h and then g, the step s arrives as itself times the drift g*conj(h), up to a positive factor. */
  lemma {:induction false} DifferenceIs(s: Cpx, a: Cpx, g: Cpx, h: Cpx, norm: real)
    ensures Mul(Mul(g, Mul(s, a)), Scale(Conj(Mul(h, a)), norm))
            == Scale(Mul(s, Mul(g, Conj(h))), norm * Norm2(a))
  {
    var n, hc, ac, drift := Cpx(norm, 0.0), Conj(h), Conj(a), Mul(g, Conj(h));
    ConjMul(h, a);
    ScaleMul(norm, Mul(hc, ac));
    MulConj(a);
    ScaleMul(norm * Norm2(a), Mul(s, drift));
    assert Mul(n, Cpx(Norm2(a), 0.0)) == Cpx(norm * Norm2(a), 0.0);
    hide Mul, Conj, Scale, Norm2;
    calc {
      Mul(Mul(g, Mul(s, a)), Mul(n, Mul(hc, ac)));
      { MulAssoc(g, s, a); MulAssoc(n, hc, ac); }
      Mul(Mul(Mul(g, s), a), Mul(Mul(n, hc), ac));
      { Interchange(Mul(g, s), a, Mul(n, hc), ac); }
      Mul(Mul(Mul(g, s), Mul(n, hc)), Mul(a, ac));
      { MulCommutes(g, s); Interchange(s, g, n, hc); }
      Mul(Mul(Mul(s, n), drift), Mul(a, ac));
      { MulCommutes(s, n); MulAssoc(n, s, drift); }
      Mul(Mul(n, Mul(s, drift)), Mul(a, ac));
      { MulAssoc(n, Mul(s, drift), Mul(a, ac)); MulCommutes(Mul(s, drift), Mul(a, ac));
        MulAssoc(n, Mul(a, ac), Mul(s, drift)); }
      Mul(Mul(n, Mul(a, ac)), Mul(s, drift));
    }
  }

  lemma ScaleOut(k: real, z: Cpx, w: Cpx)
    ensures Mul(Scale(z, k), w) == Scale(Mul(z, w), k)
  {
    ScaleMul(k, z);
    ScaleMul(k, Mul(z, w));
    hide Mul;
    MulAssoc(Cpx(k, 0.0), z, w);
  }

  lemma SignScale(k: real, x: real)
    requires k > 0.0
    ensures k * x >= 0.0 <==> x >= 0.0
  {}

  lemma DecideScale(k: real, z: Cpx, mapping: Mapping)
    requires k > 0.0
    ensures Decide(Scale(z, k), mapping) == Decide(z, mapping)
  {
    SignScale(k, z.r);
    SignScale(k, z.i);
  }

  /** The factor the amplitudes contribute. */
  lemma FactorPositive(maths: Maths, previous: Cpx, a: Cpx)
    requires maths.abs(previous) >= 0.0 && a != ZERO
    ensures 1.0 / (maths.abs(previous) + 0.000001) * Norm2(a) > 0.0
  {
    if Norm2(a) == 0.0 {
      NormZero(a);
    }
    hide Square;
    SquarePositive(a.r);
    SquarePositive(a.i);
    var norm := 1.0 / (maths.abs(previous) + 0.000001);
    assert norm > 0.0;
    hide Norm2;
    Product(norm, Norm2(a));
  }

  lemma Product(x: real, y: real)
    requires x > 0.0 && y > 0.0
    ensures x * y > 0.0
  {}

  /** The received pair of bits depends on the step and the drift only. */
  lemma {:induction false} Received(maths: Maths, s: Cpx, a: Cpx, g: Cpx, h: Cpx, mapping: Mapping)
    requires maths.Valid() && a != ZERO
    ensures Decide(Turned(maths, Mul(g, Mul(s, a)), Mul(h, a)), mapping)
            == Decide(Mul(Mul(s, Mul(g, Conj(h))), Cpx(1.0, 1.0)), mapping)
  {
    var previous, z := Mul(h, a), Mul(s, Mul(g, Conj(h)));
    var norm, c := 1.0 / (maths.abs(previous) + 0.000001), maths.cos45;
    var k := norm * Norm2(a);
    FactorPositive(maths, previous, a);
    DifferenceIs(s, a, g, h, norm);
    assert Cpx(c, c) == Scale(Cpx(1.0, 1.0), c);
    hide Mul, Norm2, Conj;
    ScaleOut(k, z, Cpx(c, c));
    MulCommutes(z, Scale(Cpx(1.0, 1.0), c));
    ScaleOut(c, Cpx(1.0, 1.0), z);
    MulCommutes(z, Cpx(1.0, 1.0));
    hide Scale, Decide;
    DecideScale(c, Mul(z, Cpx(1.0, 1.0)), mapping);
    DecideScale(k, Mul(z, Cpx(c, c)), mapping);
  }

  /** The carrier turns by less than 45 degrees from one symbol to the next. */
  predicate Steady(drift: Cpx) {
    drift.r > drift.i && drift.r > -drift.i
  }

  lemma StepDecided(msb: bool, lsb: bool, drift: Cpx, mapping: Mapping)
    requires Steady(drift)
    ensures Decide(Mul(Mul(Step(msb, lsb, mapping), drift), Cpx(1.0, 1.0)), mapping) == (msb, lsb)
  {}

  lemma BackSteps(drift: Cpx, mapping: Mapping)
    ensures Step(true, mapping.Legacy?, mapping) == Neg(J) && Step(true, !mapping.Legacy?, mapping) == Neg(ONE)
    ensures Mul(Mul(Neg(J), drift), Cpx(1.0, 1.0)) == Cpx(drift.r + drift.i, drift.i - drift.r)
    ensures Mul(Mul(Neg(ONE), drift), Cpx(1.0, 1.0)) == Cpx(drift.i - drift.r, -drift.r - drift.i)
  {}

  lemma BackDecided(drift: Cpx, mapping: Mapping)
    requires Decide(Cpx(drift.r + drift.i, drift.i - drift.r), mapping) == (true, mapping.Legacy?)
    requires Decide(Cpx(drift.i - drift.r, -drift.r - drift.i), mapping) == (true, !mapping.Legacy?)
    ensures Steady(drift)
  {}

  /** Every pair of bits is received as sent, under either mapping, exactly when the carrier is steady. */
  lemma {:induction false} PairsReceived(maths: Maths, a: Cpx, g: Cpx, h: Cpx, mapping: Mapping)
    requires maths.Valid() && a != ZERO
    ensures (forall msb, lsb ::
               Decide(Turned(maths, Mul(g, Mul(Step(msb, lsb, mapping), a)), Mul(h, a)), mapping) == (msb, lsb))
            <==> Steady(Mul(g, Conj(h)))
  {
    hide Mul, Turned, Decide, Conj, Step, Steady;
    var drift := Mul(g, Conj(h));
    forall msb, lsb
      ensures Decide(Turned(maths, Mul(g, Mul(Step(msb, lsb, mapping), a)), Mul(h, a)), mapping)
              == Decide(Mul(Mul(Step(msb, lsb, mapping), drift), Cpx(1.0, 1.0)), mapping)
    {
      Received(maths, Step(msb, lsb, mapping), a, g, h, mapping);
    }
    if Steady(drift) {
      forall msb, lsb
        ensures Decide(Turned(maths, Mul(g, Mul(Step(msb, lsb, mapping), a)), Mul(h, a)), mapping) == (msb, lsb)
      {
        StepDecided(msb, lsb, drift, mapping);
      }
    } else if forall msb, lsb ::
               Decide(Turned(maths, Mul(g, Mul(Step(msb, lsb, mapping), a)), Mul(h, a)), mapping) == (msb, lsb) {
      BackSteps(drift, mapping);
      BackDecided(drift, mapping);
    }
  }

  /** What the receiver takes for the pilot's bit. */
  function PilotHeard(maths: Maths, pilot: bool, a: Cpx, g: Cpx, h: Cpx): bool
    requires maths.abs(Mul(h, a)) >= 0.0
  {
    Difference(maths, Mul(g, Mul(if pilot then Neg(ONE) else ONE, a)), Mul(h, a)).r < 0.0
  }

  lemma {:induction false} PilotIs(maths: Maths, pilot: bool, a: Cpx, g: Cpx, h: Cpx)
    requires maths.Valid() && a != ZERO
    ensures var u := Mul(g, Conj(h)).r;
            PilotHeard(maths, pilot, a, g, h) == if pilot then u > 0.0 else u < 0.0
  {
    var s, drift := if pilot then Neg(ONE) else ONE, Mul(g, Conj(h));
    var norm := 1.0 / (maths.abs(Mul(h, a)) + 0.000001);
    FactorPositive(maths, Mul(h, a), a);
    DifferenceIs(s, a, g, h, norm);
    assert Mul(s, drift).r == if pilot then -drift.r else drift.r;
    hide Mul, Norm2;
    SignScale(norm * Norm2(a), Mul(s, drift).r);
  }

  /** Both values of the pilot's bit are received as sent exactly when it turns by less than a right angle. */
  lemma {:induction false} PilotReceived(maths: Maths, a: Cpx, g: Cpx, h: Cpx)
    requires maths.Valid() && a != ZERO
    ensures (forall pilot :: PilotHeard(maths, pilot, a, g, h) == pilot) <==> Mul(g, Conj(h)).r > 0.0
  {
    hide Mul, PilotHeard;
    PilotIs(maths, true, a, g, h);
    PilotIs(maths, false, a, g, h);
    assert PilotHeard(maths, true, a, g, h) || !PilotHeard(maths, true, a, g, h);
  }
}
