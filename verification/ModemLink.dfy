/**
 * The modem tools from end to end: fdmdv_mod.c splits codec frames into modem frames, the symbol layer carries them,
 * and the pilot, the sync marks and the reassembly of fdmdv_demod.c put them together again.
 */
module ModemLink {
  import opened BitPack
  import opened Complex
  import opened Dqpsk
  import opened ModemSync
  import Reassembly

  /** Codec frames of 4*nc bits, that is, of two modem frames of two bits per carrier. */
  ghost predicate Frames(nc: nat, frames: seq<seq<Byte>>) {
    forall k | 0 <= k < |frames| :: 8 * |frames[k]| == 4 * nc
  }

  /** The bits of modem frame t: fdmdv_mod.c sends the first half of a codec frame and then the second. */
  function Half(nc: nat, frames: seq<seq<Byte>>, t: nat): (bits: seq<bool>)
    requires t < 2 * |frames| && 8 * |frames[t / 2]| == 4 * nc
    ensures |bits| == 2 * nc
  {
    if t % 2 == 0 then Bits(frames[t / 2])[..2 * nc] else Bits(frames[t / 2])[2 * nc..]
  }

  /** fdmdv_mod.c on one codec frame: unpack it and send the halves. */
  method Modulate(nc: nat, packed: array<Byte>) returns (even: seq<bool>, odd: seq<bool>)
    requires 8 * packed.Length == 4 * nc
    ensures |even| == |odd| == 2 * nc && even + odd == Bits(packed[..])
  {
    var bits := Unpack(packed, 4 * nc);
    even, odd := bits[..2 * nc], bits[2 * nc..];
  }

  /** The symbol of carrier c sent with frame t - 1; the last carrier is the pilot, and 1 comes before the first. */
  ghost function Sent(nc: nat, frames: seq<seq<Byte>>, mapping: Mapping, c: nat, t: nat): Cpx
    requires Frames(nc, frames) && c <= nc && t <= 2 * |frames|
  {
    if t == 0 then ONE
    else Mul(SentStep(nc, frames, mapping, c, t - 1), Sent(nc, frames, mapping, c, t - 1))
  }

  /** The phase step of carrier c in frame t. The pilot bit is 0 in first halves and 1 in second halves. */
  ghost function SentStep(nc: nat, frames: seq<seq<Byte>>, mapping: Mapping, c: nat, t: nat): Cpx
    requires Frames(nc, frames) && c <= nc && t < 2 * |frames|
  {
    if c == nc then (if t % 2 == 1 then Neg(ONE) else ONE)
    else Step(Half(nc, frames, t)[2 * c], Half(nc, frames, t)[2 * c + 1], mapping)
  }

  lemma {:induction false} SentNonZero(nc: nat, frames: seq<seq<Byte>>, mapping: Mapping, c: nat, t: nat)
    requires Frames(nc, frames) && c <= nc && t <= 2 * |frames|
    ensures Sent(nc, frames, mapping, c, t) != ZERO
  {
    hide Mul, SentStep, Half, Frames;
    if t != 0 {
      SentNonZero(nc, frames, mapping, c, t - 1);
      StepNonZero(nc, frames, mapping, c, t - 1);
      SentIs(nc, frames, mapping, c, t - 1);
      var s, a := SentStep(nc, frames, mapping, c, t - 1), Sent(nc, frames, mapping, c, t - 1);
      if Mul(s, a) == ZERO {
        NoZeroDivisors(s, a);
      }
    }
  }

  lemma StepNonZero(nc: nat, frames: seq<seq<Byte>>, mapping: Mapping, c: nat, t: nat)
    requires Frames(nc, frames) && c <= nc && t < 2 * |frames|
    ensures SentStep(nc, frames, mapping, c, t) != ZERO
  {
    hide Half;
  }

  /** What qpsk_to_bits gets for a carrier in frame t: the symbols of frames t and t - 1 with their channel gains. */
  ghost predicate Arrives(maths: Maths, nc: nat, frames: seq<seq<Byte>>, mapping: Mapping, gain: (nat, nat) -> Cpx,
                          t: nat, bits: seq<bool>, syncBit: bool)
    requires maths.Valid() && Frames(nc, frames) && 1 <= t < 2 * |frames|
  {
    && |bits| == 2 * nc
    && (forall c | 0 <= c < nc ::
          (bits[2 * c], bits[2 * c + 1]) == Decide(Turned(maths, Heard(nc, frames, mapping, gain, c, t),
                                                          Heard(nc, frames, mapping, gain, c, t - 1)), mapping))
    && syncBit == (Difference(maths, Heard(nc, frames, mapping, gain, nc, t),
                              Heard(nc, frames, mapping, gain, nc, t - 1)).r < 0.0)
  }

  /** The symbol of frame t after the channel. */
  ghost function Heard(nc: nat, frames: seq<seq<Byte>>, mapping: Mapping, gain: (nat, nat) -> Cpx, c: nat, t: nat): Cpx
    requires Frames(nc, frames) && c <= nc && t < 2 * |frames|
  {
    Mul(gain(t, c), Sent(nc, frames, mapping, c, t + 1))
  }

  /** No carrier turns by 45 degrees or more between frames t - 1 and t. */
  ghost predicate SteadyAt(nc: nat, gain: (nat, nat) -> Cpx, t: nat) {
    t >= 1 && forall c | 0 <= c <= nc :: Steady(Mul(gain(t, c), Conj(gain(t - 1, c))))
  }

  /** Over steady carriers of any amplitude and phase, a frame and its pilot bit arrive as sent. */
  lemma {:induction false} FrameArrives(maths: Maths, nc: nat, frames: seq<seq<Byte>>, mapping: Mapping,
                                        gain: (nat, nat) -> Cpx, t: nat, bits: seq<bool>, syncBit: bool)
    requires maths.Valid() && Frames(nc, frames) && 1 <= t < 2 * |frames| && SteadyAt(nc, gain, t)
    requires Arrives(maths, nc, frames, mapping, gain, t, bits, syncBit)
    ensures bits == Half(nc, frames, t) && syncBit == (t % 2 == 1)
  {
    hide Turned, Difference, Decide, Mul, Steady, Half, Conj;
    var sent := Half(nc, frames, t);
    forall c | 0 <= c < nc ensures bits[2 * c] == sent[2 * c] && bits[2 * c + 1] == sent[2 * c + 1] {
      var a := Sent(nc, frames, mapping, c, t);
      SentNonZero(nc, frames, mapping, c, t);
      PairsReceived(maths, a, gain(t, c), gain(t - 1, c), mapping);
      SentIs(nc, frames, mapping, c, t);
    }
    AllPairs(bits, sent, nc);
    SentNonZero(nc, frames, mapping, nc, t);
    SentIs(nc, frames, mapping, nc, t);
    SteadyPilot(Mul(gain(t, nc), Conj(gain(t - 1, nc))));
    PilotReceived(maths, Sent(nc, frames, mapping, nc, t), gain(t, nc), gain(t - 1, nc));
    assert PilotHeard(maths, t % 2 == 1, Sent(nc, frames, mapping, nc, t), gain(t, nc), gain(t - 1, nc)) == syncBit;
  }

  lemma SteadyPilot(drift: Cpx)
    requires Steady(drift)
    ensures drift.r > 0.0
  {}

  lemma SentIs(nc: nat, frames: seq<seq<Byte>>, mapping: Mapping, c: nat, t: nat)
    requires Frames(nc, frames) && c <= nc && t < 2 * |frames|
    ensures Sent(nc, frames, mapping, c, t + 1)
            == Mul(SentStep(nc, frames, mapping, c, t), Sent(nc, frames, mapping, c, t))
  {}

  lemma AllPairs(a: seq<bool>, b: seq<bool>, nc: nat)
    requires |a| == |b| == 2 * nc
    requires forall c | 0 <= c < nc :: a[2 * c] == b[2 * c] && a[2 * c + 1] == b[2 * c + 1]
    ensures a == b
  {
    forall i | 0 <= i < |a| ensures a[i] == b[i] {
      var c := i / 2;
      assert i == 2 * c || i == 2 * c + 1;
    }
  }

  /** The marks freq_state gives for a run of pilot bits. */
  function Marks(bits: seq<bool>): (marks: seq<bool>)
    ensures |marks| == |bits|
  {
    seq(|bits|, t requires 0 <= t < |bits| => Mark(bits[..t + 1]))
  }

  lemma {:induction false} HalvesTogether(nc: nat, frames: seq<seq<Byte>>, k: nat)
    requires Frames(nc, frames) && k < |frames|
    ensures Half(nc, frames, 2 * k) + Half(nc, frames, 2 * k + 1) == Bits(frames[k])
  {
    assert (2 * k + 1) / 2 == k && (2 * k) / 2 == k;
  }

  /**
   * End to end. Over a channel that turns no carrier by 45 degrees or more from one frame to the next, whatever its
   * gains, whatever the first frame was taken for and whatever the reassembly found in its memory, every codec frame
   * from the fifth on comes out, as sent and once.
   */
  lemma {:induction false} Delivered(maths: Maths, nc: nat, frames: seq<seq<Byte>>, mapping: Mapping,
                                     gain: (nat, nat) -> Cpx, rx: seq<seq<bool>>, pilots: seq<bool>,
                                     s: Reassembly.Assembly, k: nat)
    requires maths.Valid() && Frames(nc, frames) && |rx| == |pilots| == 2 * |frames|
    requires forall t | 1 <= t < 2 * |frames| ::
               SteadyAt(nc, gain, t) && Arrives(maths, nc, frames, mapping, gain, t, rx[t], pilots[t])
    requires 4 <= k < |frames|
    ensures Reassembly.Emitted(s, rx, Marks(pilots), 2 * k) == Reassembly.None
    ensures Reassembly.Emitted(s, rx, Marks(pilots), 2 * k + 1) == Reassembly.Some(Bits(frames[k]))
  {
    forall t | 1 <= t < 2 * |frames| ensures rx[t] == Half(nc, frames, t) && pilots[t] == (t % 2 == 1) {
      FrameArrives(maths, nc, frames, mapping, gain, t, rx[t], pilots[t]);
    }
    hide *;
    Reassembled(nc, frames, rx, pilots, s, k);
  }

  lemma {:induction false} Reassembled(nc: nat, frames: seq<seq<Byte>>, rx: seq<seq<bool>>, pilots: seq<bool>,
                                       s: Reassembly.Assembly, k: nat)
    requires Frames(nc, frames) && |rx| == |pilots| == 2 * |frames| && 4 <= k < |frames|
    requires forall t | 1 <= t < 2 * |frames| :: rx[t] == Half(nc, frames, t) && pilots[t] == (t % 2 == 1)
    ensures Reassembly.Emitted(s, rx, Marks(pilots), 2 * k) == Reassembly.None
    ensures Reassembly.Emitted(s, rx, Marks(pilots), 2 * k + 1) == Reassembly.Some(Bits(frames[k]))
  {
    MarksAtSeven(pilots);
    assert rx[2 * k] == Half(nc, frames, 2 * k) && rx[2 * k + 1] == Half(nc, frames, 2 * k + 1);
    hide *;
    PairEmitted(nc, frames, rx, Marks(pilots), s, k);
  }

  lemma {:induction false} PairEmitted(nc: nat, frames: seq<seq<Byte>>, rx: seq<seq<bool>>, marks: seq<bool>,
                                       s: Reassembly.Assembly, k: nat)
    requires Frames(nc, frames) && |rx| == |marks| == 2 * |frames| && 4 <= k < |frames|
    requires rx[2 * k] == Half(nc, frames, 2 * k) && rx[2 * k + 1] == Half(nc, frames, 2 * k + 1)
    requires marks[7] && Reassembly.OneParity(marks, 7)
    ensures Reassembly.Emitted(s, rx, marks, 2 * k) == Reassembly.None
    ensures Reassembly.Emitted(s, rx, marks, 2 * k + 1) == Reassembly.Some(Bits(frames[k]))
  {
    HalvesTogether(nc, frames, k);
    hide Half, Reassembly.Emitted, Reassembly.OneParity;
    Reassembly.AfterMark(s, rx, marks, 7, 2 * k);
    Reassembly.AfterMark(s, rx, marks, 7, 2 * k + 1);
  }

  lemma {:induction false} MarksAtSeven(pilots: seq<bool>)
    requires |pilots| > 7 && forall t | 1 <= t < |pilots| :: pilots[t] == (t % 2 == 1)
    ensures |Marks(pilots)| == |pilots| && Marks(pilots)[7] && Reassembly.OneParity(Marks(pilots), 7)
  {
    hide Mark;
    forall t | 0 <= t < |pilots| && Marks(pilots)[t] ensures t % 2 == 7 % 2 {
      MarksAlternate(pilots, t);
    }
    MarksAlternate(pilots, 7);
  }
}
