/**
 * fdmdv_demod.c: two modem frames make up one codec frame. A flag says which half comes next; it has no initial
 * value, and sync marks, which belong to second halves, put it right.
 */
module Reassembly {
  import opened BitPack

  datatype Option<T> = None | Some(value: T)

  /** The flag, and the first half of the codec frame being put together. */
  datatype Assembly = Assembly(sync: int, first: seq<bool>)

  /** The state after one modem frame, and the bits of the codec frame written, if any. */
  function Next(s: Assembly, rx: seq<bool>, mark: bool): (Assembly, Option<seq<bool>>) {
    var sync := if mark then 1 else s.sync;
    if sync == 0 then (Assembly(1, rx), None)
    else (Assembly(0, s.first), Some(s.first + rx))
  }

  class Demod {
    const half: nat
    var sync: int
    const codecBits: array<bool>
    const packed: array<Byte>

    ghost predicate Valid()
      reads this
    {
      codecBits.Length == 2 * half == 8 * packed.Length
    }

    ghost function State(): Assembly
      reads this, codecBits
      requires Valid()
    {
      Assembly(sync, codecBits[..half])
    }

    /** Nothing is initialised but the sizes; the number of bits has to fill bytes. */
    constructor (half: nat, sync: int)
      requires half % 4 == 0
      ensures Valid() && this.half == half && this.sync == sync && fresh(codecBits) && fresh(packed)
    {
      this.half, this.sync := half, sync;
      codecBits := new bool[2 * half];
      packed := new Byte[half / 4];
    }

    /** The part of the main loop after fdmdv_demod(). */
    method Frame(rx: seq<bool>, mark: bool) returns (out: Option<seq<Byte>>)
      requires Valid() && |rx| == half
      modifies this`sync, codecBits, packed
      ensures Valid()
      ensures State() == Next(old(State()), rx, mark).0
      ensures match Next(old(State()), rx, mark).1
              case None => out == None
              case Some(bits) => out.Some? && Bits(out.value) == bits
    {
      if mark {
        sync := 1;
      }
      hide Bits;
      if sync == 0 {
        CopyTo(codecBits, 0, rx);
        sync := 1;
        out := None;
      } else {
        CopyTo(codecBits, half, rx);
        assert codecBits[..] == codecBits[..half] + rx;
        Pack(codecBits[..], packed);
        out := Some(packed[..]);
        sync := 0;
      }
    }
  }

  /** memcpy of one modem frame into the codec frame. */
  method CopyTo(to: array<bool>, at: nat, from: seq<bool>)
    requires at + |from| <= to.Length
    modifies to
    ensures to[at..at + |from|] == from
    ensures forall i | 0 <= i < to.Length && !(at <= i < at + |from|) :: to[i] == old(to[i])
  {
    for i := 0 to |from|
      invariant forall j | 0 <= j < to.Length ::
                  to[j] == if at <= j < at + i then from[j - at] else old(to[j])
    {
      to[at + i] := from[i];
    }
  }

  /** The state before modem frame t of a run from any initial state. */
  function Before(s: Assembly, rx: seq<seq<bool>>, marks: seq<bool>, t: nat): Assembly
    requires |rx| == |marks| && t <= |rx|
  {
    if t == 0 then s else Next(Before(s, rx, marks, t - 1), rx[t - 1], marks[t - 1]).0
  }

  /** What modem frame t makes the demodulator write. */
  function Emitted(s: Assembly, rx: seq<seq<bool>>, marks: seq<bool>, t: nat): Option<seq<bool>>
    requires |rx| == |marks| && t < |rx|
  {
    Next(Before(s, rx, marks, t), rx[t], marks[t]).1
  }

  /** All marks fall on frames of the parity of frame m. */
  ghost predicate OneParity(marks: seq<bool>, m: nat) {
    forall t | 0 <= t < |marks| && marks[t] :: t % 2 == m % 2
  }

  /** After a mark the flag is in step with the marks. */
  lemma {:induction false} InStep(s: Assembly, rx: seq<seq<bool>>, marks: seq<bool>, m: nat, t: nat)
    requires |rx| == |marks| && m < t <= |rx| && marks[m] && OneParity(marks, m)
    ensures var a := Before(s, rx, marks, t);
            if t % 2 == m % 2 then a == Assembly(1, rx[t - 1]) else a.sync == 0
  {
    if t > m + 1 {
      InStep(s, rx, marks, m, t - 1);
    }
  }

  /**
   * Whatever the flag was at the start: after the first mark a codec frame is written at every second modem frame and
   * at no other, and it is the two modem frames up to there, in order.
   */
  lemma {:induction false} AfterMark(s: Assembly, rx: seq<seq<bool>>, marks: seq<bool>, m: nat, t: nat)
    requires |rx| == |marks| && m < t < |rx| && marks[m] && OneParity(marks, m)
    ensures Emitted(s, rx, marks, t) == if t % 2 == m % 2 then Some(rx[t - 1] + rx[t]) else None
  {
    InStep(s, rx, marks, m, t);
  }

  lemma {:induction false} BeforeMark(s: Assembly, rx: seq<seq<bool>>, marks: seq<bool>, t: nat)
    requires |rx| == |marks| && t <= |rx| && forall i | 0 <= i < t :: !marks[i]
    ensures var a := Before(s, rx, marks, t);
            && (a.sync == 0 <==> ((s.sync == 0) == (t % 2 == 0)))
            && (t > 0 && a.sync != 0 ==> a.first == rx[t - 1])
            && (t > 0 && a.sync == 0 ==> a.first == if t == 1 then s.first else rx[t - 2])
  {
    if t > 0 {
      BeforeMark(s, rx, marks, t - 1);
    }
  }

  /**
   * At the first mark itself a codec frame is always written. Its halves are the two last modem frames if the flag
   * happened to be right; otherwise its first half is an older frame, or what the memory held.
   */
  lemma {:induction false} AtFirstMark(s: Assembly, rx: seq<seq<bool>>, marks: seq<bool>, m: nat)
    requires |rx| == |marks| && m < |rx| && marks[m] && forall i | 0 <= i < m :: !marks[i]
    ensures Emitted(s, rx, marks, m) == Some(
              (if m == 0 then s.first
               else if (s.sync == 0) == (m % 2 == 1) then rx[m - 1]
               else if m == 1 then s.first else rx[m - 2]) + rx[m])
  {
    BeforeMark(s, rx, marks, m);
  }
}
