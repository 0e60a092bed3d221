/** The channel simulator of c2dec.c: bit errors at random, over part of a frame or in bursts. */
module ChannelErrors {
  import opened BitPack
  import opened Modular

  /** The number of positions below n at which two rows of bytes differ. */
  function Distance(p: seq<Byte>, q: seq<Byte>, n: nat): nat
    requires |p| == |q| && n <= 8 * |p|
  {
    if n == 0 then 0 else Distance(p, q, n - 1) + if BitAt(p, n - 1) != BitAt(q, n - 1) then 1 else 0
  }

  function Count(flips: seq<bool>): nat {
    if flips == [] then 0 else Count(flips[..|flips| - 1]) + if flips[|flips| - 1] then 1 else 0
  }

  /** All errors drawn fall on bits of the n bytes there are. */
  ghost predicate Inside(n: nat, start: nat, draws: seq<bool>) {
    forall i | 0 <= i < |draws| && draws[i] :: start + i < 8 * n
  }

  /** q is p with some bits from start on turned over. */
  ghost predicate Flipped(p: seq<Byte>, q: seq<Byte>, start: nat, flips: seq<bool>) {
    && |p| == |q| && Inside(|p|, start, flips)
    && forall k | 0 <= k < 8 * |p| :: BitAt(q, k) == (BitAt(p, k) != (start <= k < start + |flips| && flips[k - start]))
  }

  /** The errors among the positions below n. */
  function ErrorsBelow(start: nat, flips: seq<bool>, n: nat): nat {
    Count(if n <= start then [] else if n <= start + |flips| then flips[..n - start] else flips)
  }

  lemma {:induction false} DistanceIs(p: seq<Byte>, q: seq<Byte>, start: nat, flips: seq<bool>, n: nat)
    requires Flipped(p, q, start, flips) && n <= 8 * |p|
    ensures Distance(p, q, n) == ErrorsBelow(start, flips, n)
  {
    hide BitAt;
    if n != 0 {
      DistanceIs(p, q, start, flips, n - 1);
      if start < n <= start + |flips| {
        var now := flips[..n - start];
        assert now[..|now| - 1] == flips[..n - 1 - start];
      } else if n == start + |flips| + 1 {
        assert flips[..|flips|] == flips;
      }
    }
  }

  lemma {:induction false} CountRest(flips: seq<bool>, n: nat)
    requires n <= |flips| && forall i | n <= i < |flips| :: !flips[i]
    ensures Count(flips[..n]) == Count(flips)
    decreases |flips|
  {
    if n == |flips| {
      assert flips[..n] == flips;
    } else {
      var shorter := flips[..|flips| - 1];
      CountRest(shorter, n);
      assert shorter[..n] == flips[..n];
    }
  }

  /** The Hamming distance to the frame received is the number of errors put in. */
  lemma {:induction false} ErrorsCounted(p: seq<Byte>, q: seq<Byte>, start: nat, flips: seq<bool>)
    requires Flipped(p, q, start, flips)
    ensures Distance(p, q, 8 * |p|) == Count(flips)
  {
    var n := 8 * |p|;
    DistanceIs(p, q, start, flips, n);
    hide Distance;
    if n <= start {
      CountRest(flips, 0);
      assert flips[..0] == [];
    } else if n <= start + |flips| {
      CountRest(flips, n - start);
    }
  }

  lemma XorAnd(b: Byte, m: Byte, n: Byte)
    ensures m & n == 0 ==> (b ^ m) & n == b & n
    ensures (b ^ m) & m == m & !b
  {}

  lemma OneBit(b: Byte, k: nat)
    requires k < 8
    ensures b & Mask(k) == 0 || b & Mask(k) == Mask(k)
    ensures (Mask(k) & !b != 0) == (b & Mask(k) == 0)
  {
    MaskIs();
    hide Mask;
  }

  /** The exclusive-or with a mask turns over one bit. */
  lemma {:induction false} FlipBit(b: Byte, k: nat, j: nat)
    requires k < 8 && j < 8
    ensures TestBit(b ^ Mask(k), j) == (TestBit(b, j) != (j == k))
  {
    XorAnd(b, Mask(k), Mask(j));
    if j != k {
      MasksApart(k, j);
    } else {
      OneBit(b, k);
    }
  }

  /** Bit i turned over, or not. */
  function FlipIf(q: seq<Byte>, i: nat, x: bool): (r: seq<Byte>)
    ensures |r| == |q|
  {
    if x && i < 8 * |q| then q[i / 8 := q[i / 8] ^ Mask(7 - i % 8)] else q
  }

  lemma FlipAt(q: seq<Byte>, i: nat, x: bool, k: nat)
    requires k < 8 * |q|
    ensures BitAt(FlipIf(q, i, x), k) == (BitAt(q, k) != (x && k == i))
  {
    hide TestBit, Mask;
    if x && k / 8 == i / 8 {
      FlipBit(q[i / 8], 7 - i % 8, 7 - k % 8);
    }
  }

  lemma {:induction false} FlippedNext(p: seq<Byte>, q: seq<Byte>, start: nat, flips: seq<bool>, x: bool)
    requires Flipped(p, q, start, flips) && (x ==> start + |flips| < 8 * |p|)
    ensures Flipped(p, FlipIf(q, start + |flips|, x), start, flips + [x])
  {
    var i := start + |flips|;
    hide BitAt, FlipIf;
    forall k | 0 <= k < 8 * |p|
      ensures BitAt(FlipIf(q, i, x), k) ==
              (BitAt(p, k) != (start <= k < start + |flips + [x]| && (flips + [x])[k - start]))
    {
      assert BitAt(q, k) == (BitAt(p, k) != (start <= k < start + |flips| && flips[k - start]));
      FlipAt(q, i, x, k);
    }
  }

  /** One position: an error or none. */
  method Draw(bits: array<Byte>, i: nat, error: bool)
    requires error ==> i < 8 * bits.Length
    modifies bits
    ensures bits[..] == FlipIf(old(bits[..]), i, error)
  {
    if error {
      var byte := i / 8;
      bits[byte] := bits[byte] ^ Mask(7 - i + byte * 8);
    }
  }

  /**
   * The error loop: position i is turned over when the i-th draw says so. An error beyond the bytes of the frame is
   * written to memory the frame does not own, and nothing more is said.
   */
  method Inject(bits: array<Byte>, start: nat, draws: seq<bool>) returns (inside: bool, errors: nat, visited: nat)
    modifies bits
    ensures inside <==> Inside(bits.Length, start, draws)
    ensures inside ==> Flipped(old(bits[..]), bits[..], start, draws)
    ensures inside ==> errors == Distance(old(bits[..]), bits[..], 8 * bits.Length) && visited == |draws|
  {
    hide Flipped, Count, FlipIf, Distance;
    ghost var p := bits[..];
    errors, visited := 0, 0;
    FlippedStart(p, start);
    assert draws[..0] == [];
    EmptyCount(draws[..0]);
    for n := 0 to |draws|
      invariant Flipped(p, bits[..], start, draws[..n])
      invariant errors == Count(draws[..n]) && visited == n
    {
      if draws[n] && start + n >= 8 * bits.Length {
        return false, errors, visited;
      }
      NextDraw(draws, n);
      FlippedNext(p, bits[..], start, draws[..n], draws[n]);
      Draw(bits, start + n, draws[n]);
      errors := errors + if draws[n] then 1 else 0;
      visited := visited + 1;
    }
    assert draws[..|draws|] == draws;
    FlippedInside(p, bits[..], start, draws);
    ErrorsCounted(p, bits[..], start, draws);
    inside := true;
  }

  lemma FlippedInside(p: seq<Byte>, q: seq<Byte>, start: nat, flips: seq<bool>)
    requires Flipped(p, q, start, flips)
    ensures Inside(|p|, start, flips)
  {}

  /** No draws for positions up to nend lead outside n bytes. */
  ghost predicate AlwaysInside(n: nat, nend: nat) {
    forall start: nat, draws: seq<bool> | start + |draws| == nend + 1 :: Inside(n, start, draws)
  }

  /**
   * The positions up to nend of a frame of nbit bits, for nend as far as the source's assertion lets it go: no draws
   * can lead outside exactly when nend is a bit of the frame, or the last byte has room for one more.
   */
  lemma {:induction false} PositionsInside(nbit: nat, nend: nat)
    requires nend <= nbit
    ensures AlwaysInside((nbit + 7) / 8, nend) <==> nend < nbit || nbit % 8 != 0
  {
    if nend == nbit && nbit % 8 == 0 {
      var draws := seq(nend + 1, _ => true);
      assert draws[nend] && 0 + nend >= 8 * ((nbit + 7) / 8);
      assert !Inside((nbit + 7) / 8, 0, draws);
    }
  }

  /** In the modes of 64 bits the last position the assertion admits is outside the frame's eight bytes. */
  lemma {:induction false} OneTooFar()
    ensures !Inside(8, 64, [true]) && Inside(8, 63, [true])
  {
    assert [true][0];
  }

  lemma NextDraw(draws: seq<bool>, n: nat)
    requires n < |draws|
    ensures draws[..n] + [draws[n]] == draws[..n + 1]
    ensures Count(draws[..n + 1]) == Count(draws[..n]) + if draws[n] then 1 else 0
  {
    assert draws[..n + 1][..n] == draws[..n];
  }

  lemma FlippedStart(p: seq<Byte>, start: nat)
    ensures Flipped(p, p, start, [])
  {}

  lemma EmptyCount(draws: seq<bool>)
    ensures draws == [] ==> Count(draws) == 0
  {}

  // Bursts.

  /** The burst machine: state 0 is the clear channel, state 1 the burst; the timer counts seconds. */
  datatype Burst = Burst(state: nat, timer: real)

  /** One frame of dt seconds. */
  function Next(b: Burst, dt: real, length: real, period: real): Burst {
    var timer := b.timer + dt;
    if b.state == 0 then Burst(if timer > period - length then 1 else 0, timer)
    else if timer > period then Burst(0, 0.0) else Burst(b.state, timer)
  }

  /** The state before frame f. */
  function Before(dt: real, length: real, period: real, f: nat): Burst {
    if f == 0 then Burst(0, 0.0) else Next(Before(dt, length, period, f - 1), dt, length, period)
  }

  class Simulator {
    var bitErrors: nat
    var bitsProc: nat
    var burst: Burst
    /** The Hamming distances of all frames so far, and the number of frames. */
    ghost var distance: nat
    ghost var frames: nat
    const dt: real
    const length: real
    const period: real

    ghost predicate Valid()
      reads this
    {
      bitErrors == distance && burst == Before(dt, length, period, frames)
    }

    constructor (dt: real, length: real, period: real)
      ensures Valid() && bitErrors == bitsProc == frames == 0 && this.dt == dt && this.length == length
              && this.period == period
    {
      this.dt, this.length, this.period := dt, length, period;
      bitErrors, bitsProc, distance, frames, burst := 0, 0, 0, 0, Burst(0, 0.0);
    }

    /** A frame in one of the uniform modes. */
    method Uniform(bits: array<Byte>, start: nat, draws: seq<bool>) returns (inside: bool)
      requires Valid()
      modifies bits, this`bitErrors, this`bitsProc, this`distance
      ensures inside <==> Inside(bits.Length, start, draws)
      ensures inside ==> Valid() && Flipped(old(bits[..]), bits[..], start, draws)
      ensures inside ==> distance == old(distance) + Distance(old(bits[..]), bits[..], 8 * bits.Length)
      ensures inside ==> bitErrors == distance
      ensures inside ==> bitsProc == old(bitsProc) + |draws|
    {
      hide Distance, Flipped, Inside;
      var errors, visited;
      inside, errors, visited := Inject(bits, start, draws);
      bitErrors := bitErrors + errors;
      bitsProc := bitsProc + visited;
      distance := distance + errors;
    }

    /** A frame in the two-state mode: errors in a burst, none outside. */
    method TwoState(bits: array<Byte>, start: nat, draws: seq<bool>) returns (inside: bool)
      requires Valid()
      modifies bits, this`bitErrors, this`bitsProc, this`distance, this`burst, this`frames
      ensures inside <==> old(burst.state) == 0 || Inside(bits.Length, start, draws)
      ensures inside ==> Valid() && frames == old(frames) + 1
      ensures inside ==> Flipped(old(bits[..]), bits[..], start, if old(burst.state) == 0 then [] else draws)
      ensures inside ==> distance == old(distance) + Distance(old(bits[..]), bits[..], 8 * bits.Length)
      ensures inside ==> bitErrors == distance && burst == Before(dt, length, period, frames)
      ensures inside ==> bitsProc == old(bitsProc) + if old(burst.state) == 0 then 0 else |draws|
    {
      hide Distance, Flipped, Inside;
      ghost var p := bits[..];
      var timer := burst.timer + dt;
      var state := burst.state;
      inside := true;
      if state == 0 {
        FlippedStart(p, start);
        ErrorsCounted(p, p, start, []);
        EmptyCount([]);
        if timer > period - length {
          state := 1;
        }
      } else {
        inside := Uniform(bits, start, draws);
        if timer > period {
          timer, state := 0.0, 0;
        }
      }
      burst := Burst(state, timer);
      frames := frames + 1;
    }
  }

  /** The time n frames take. */
  function Span(n: nat, dt: real): real {
    n as real * dt
  }

  lemma SpanNext(n: nat, dt: real)
    ensures Span(n + 1, dt) == Span(n, dt) + dt
  {}

  lemma SpanMono(m: nat, n: nat, dt: real)
    requires dt > 0.0 && m <= n
    ensures Span(m, dt) <= Span(n, dt)
  {}

  lemma SpanMinus(m: nat, n: nat, dt: real)
    requires m <= n
    ensures Span(n - m, dt) == Span(n, dt) - Span(m, dt)
  {}

  /** n frames are the first that last longer than x. */
  predicate FirstAbove(n: nat, dt: real, x: real) {
    n >= 1 && Span(n, dt) > x && Span(n - 1, dt) <= x
  }

  lemma FirstAboveIs(dt: real, x: real) returns (n: nat)
    requires dt > 0.0 && x >= 0.0
    ensures FirstAbove(n, dt, x) && n == (x / dt).Floor + 1
  {
    var f := (x / dt).Floor;
    assert f as real <= x / dt < (f + 1) as real;
    assert f as real * dt <= x / dt * dt < (f + 1) as real * dt;
    n := f + 1;
  }

  /** One cycle: c clear frames, and burst frames up to frame t. */
  ghost predicate Cycle(dt: real, length: real, period: real, c: nat, t: nat) {
    && FirstAbove(c, dt, period - length)
    && t >= c + 1 && Span(t, dt) > period && (t == c + 1 || Span(t - 1, dt) <= period)
  }

  lemma {:induction false} CycleIs(dt: real, length: real, period: real) returns (c: nat, t: nat)
    requires dt > 0.0 && 0.0 <= length <= period
    ensures Cycle(dt, length, period, c, t)
    ensures c == ((period - length) / dt).Floor + 1
    ensures t == if (period / dt).Floor + 1 > c then (period / dt).Floor + 1 else c + 1
  {
    c := FirstAboveIs(dt, period - length);
    var n := FirstAboveIs(dt, period);
    t := if n > c then n else c + 1;
    hide Span;
    SpanMono(n, t, dt);
  }

  /**
   * The whole run in closed form: the machine repeats every t frames, of which the first c are clear and the others
   * are a burst; its timer shows the time since the cycle began.
   */
  lemma {:induction false} BurstPattern(dt: real, length: real, period: real, c: nat, t: nat, f: nat)
    requires dt > 0.0 && 0.0 <= length <= period && Cycle(dt, length, period, c, t)
    ensures Before(dt, length, period, f) == Burst(if f % t >= c then 1 else 0, Span(f % t, dt))
  {
    if f != 0 {
      BurstPattern(dt, length, period, c, t, f - 1);
      ModNext(f - 1, t);
      hide Span;
      var k := (f - 1) % t;
      SpanNext(k, dt);
      if k + 1 < c {
        SpanMono(k + 1, c - 1, dt);
      } else if c <= k && k + 1 < t {
        SpanMono(k + 1, t - 1, dt);
      }
    }
  }

  /** A burst lasts at most length/dt + 1 frames, and the timer never shows more than period + 2*dt. */
  lemma {:induction false} BurstBounds(dt: real, length: real, period: real, c: nat, t: nat, f: nat)
    requires dt > 0.0 && 0.0 <= length <= period && Cycle(dt, length, period, c, t)
    ensures Span(t - c, dt) <= length + dt
    ensures Before(dt, length, period, f).timer + dt <= period + 2.0 * dt
  {
    BurstPattern(dt, length, period, c, t, f);
    var k := f % t;
    hide Span, Before;
    SpanMono(k + 1, t, dt);
    SpanNext(k, dt);
    SpanNext(t - 1, dt);
    SpanNext(c - 1, dt);
    SpanMinus(c, t, dt);
    SpanNext(c, dt);
  }
}
