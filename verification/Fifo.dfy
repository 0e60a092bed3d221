/**
 * fifo.c: a ring buffer between one writing and one reading thread, without locks.
 *
 * The class `Fifo` is the data structure as one thread sees it. The state machine below it splits every
 * call into the steps at which the other thread may intervene: looking at the other side's pointer,
 * copying one sample, publishing the own pointer.
 */
module Fifo {
  import opened Modular

  type Sample = int

  /** The place of the k-th sample of the stream in a buffer of n places. */
  function Place(k: nat, n: nat): (p: nat)
    ensures n > 0 ==> p < n
  {
    if n == 0 then 0 else k % n
  }

  /** One step of a pointer, back to the start at the end of the buffer. */
  function Step(p: nat, n: nat): nat {
    if p + 1 == n then 0 else p + 1
  }

  lemma {:induction false} StepPlace(k: nat, n: nat)
    requires n > 0
    ensures Step(Place(k, n), n) == Place(k + 1, n)
  {
    ModNext(k, n);
  }

  /** Samples less than one buffer apart have different places. */
  lemma {:induction false} PlacesDiffer(j: nat, k: nat, n: nat)
    requires j < k < j + n
    ensures Place(j, n) != Place(k, n)
  {
    PlaceAhead(j, k - j, n);
  }

  /** fifo_used: computed from the two pointers alone. */
  function Used(pin: nat, pout: nat, n: nat): int {
    if pin >= pout then pin - pout else n + pin - pout
  }

  /** The two pointers tell the number of samples in between, as long as it stays below the buffer size. */
  lemma {:induction false} UsedIs(r: nat, s: nat, n: nat)
    requires r <= s && (s - r < n || s == 0)
    ensures Used(Place(s, n), Place(r, n), n) == s - r
  {
    if n > 0 {
      PlaceAhead(r, s - r, n);
      hide Place;
    }
  }

  lemma {:induction false} PlaceAhead(r: nat, d: nat, n: nat)
    requires d < n
    ensures Place(r + d, n) == if Place(r, n) + d < n then Place(r, n) + d else Place(r, n) + d - n
  {
    var q, p := r / n, r % n;
    assert r == n * q + p;
    if p + d < n {
      DivModUnique(r + d, n, q, p + d);
    } else {
      assert n * (q + 1) == n * q + n;
      DivModUnique(r + d, n, q + 1, p + d - n);
    }
  }

  /** The places hold the samples of `stream` from the r-th on. */
  ghost predicate Holds(buf: seq<Sample>, stream: seq<Sample>, r: nat) {
    forall k | r <= k < |stream| :: Place(k, |buf|) < |buf| && buf[Place(k, |buf|)] == stream[k]
  }

  lemma HeldAt(buf: seq<Sample>, stream: seq<Sample>, r: nat, k: nat)
    requires Holds(buf, stream, r) && r <= k < |stream|
    ensures Place(k, |buf|) < |buf| && buf[Place(k, |buf|)] == stream[k]
  {}

  lemma HoldsLess(buf: seq<Sample>, stream: seq<Sample>, r: nat, r': nat)
    requires Holds(buf, stream, r) && r <= r'
    ensures Holds(buf, stream, r')
  {}

  /** Storing one more sample leaves the others in place, if one place was free. */
  lemma {:induction false} HoldsMore(buf: seq<Sample>, stream: seq<Sample>, r: nat, x: Sample)
    requires r <= |stream| && |stream| - r < |buf| && Holds(buf, stream, r)
    ensures Holds(buf[Place(|stream|, |buf|) := x], stream + [x], r)
  {
    hide Place;
    var n, buf' := |buf|, buf[Place(|stream|, |buf|) := x];
    forall k | r <= k < |stream| + 1
      ensures Place(k, n) < n && buf'[Place(k, n)] == (stream + [x])[k]
    {
      if k < |stream| {
        PlacesDiffer(k, |stream|, n);
      }
    }
  }

  class Fifo {
    const buf: array<Sample>
    var pin: nat
    var pout: nat
    /** Everything ever written and the number of samples read, for the specification. */
    ghost var written: seq<Sample>
    ghost var read: nat

    ghost predicate Valid()
      reads this, buf
    {
      && read <= |written|
      && (|written| - read < buf.Length || |written| == 0)
      && pin == Place(|written|, buf.Length)
      && pout == Place(read, buf.Length)
      && Holds(buf[..], written, read)
    }

    ghost function Contents(): seq<Sample>
      reads this, buf
      requires Valid()
    {
      written[read..]
    }

    /** fifo_create */
    constructor (nshort: nat)
      ensures Valid() && Contents() == [] && buf.Length == nshort && fresh(buf)
    {
      buf := new Sample[nshort];
      pin, pout, written, read := 0, 0, [], 0;
    }

    /** fifo_write: all of the data or, when one place would not stay free, none of it. */
    method Write(data: seq<Sample>) returns (ok: bool)
      requires Valid()
      modifies this`pin, this`written, buf
      ensures Valid()
      ensures ok <==> |data| + |old(Contents())| < buf.Length
      ensures Contents() == if ok then old(Contents()) + data else old(Contents())
    {
      hide Place, Step, Holds;
      UsedIs(read, |written|, buf.Length);
      var free := buf.Length - Used(pin, pout, buf.Length) - 1;
      if |data| > free {
        return false;
      }
      var p := pin;
      assert written + data[..0] == written;
      for i := 0 to |data|
        invariant written == old(written) && p == Place(|written| + i, buf.Length)
        invariant Holds(buf[..], written + data[..i], read)
      {
        ghost var stream := written + data[..i];
        HoldsMore(buf[..], stream, read, data[i]);
        buf[p] := data[i];
        StepPlace(|stream|, buf.Length);
        p := Step(p, buf.Length);
        assert written + data[..i + 1] == stream + [data[i]];
      }
      assert data[..|data|] == data;
      pin, written := p, written + data;
      return true;
    }

    /** fifo_read: the n oldest samples or, when there are fewer, none. */
    method Read(n: nat) returns (ok: bool, data: seq<Sample>)
      requires Valid()
      modifies this`pout, this`read
      ensures Valid()
      ensures ok <==> n <= |old(Contents())|
      ensures |data| == if ok then n else 0
      ensures old(Contents()) == data + Contents()
    {
      hide Place, Step, Holds, Used;
      data := [];
      UsedIs(read, |written|, buf.Length);
      if n > Used(pin, pout, buf.Length) {
        return false, data;
      }
      var p := pout;
      for i := 0 to n
        modifies {}
        invariant p == Place(read + i, buf.Length)
        invariant data == written[read..read + i]
      {
        HeldAt(buf[..], written, read, read + i);
        data := data + [buf[p]];
        StepPlace(read + i, buf.Length);
        p := Step(p, buf.Length);
      }
      HoldsLess(buf[..], written, read, read + n);
      pout, read := p, read + n;
      return true, data;
    }
  }

  // Two threads.

  datatype Writer = WriterIdle | Writing(data: seq<Sample>) | Storing(data: seq<Sample>, i: nat, at: nat)
  datatype Reader = ReaderIdle | Reading(n: nat) | Fetching(n: nat, got: seq<Sample>, at: nat)

  /** The shared memory, the local variables of the two calls, and the data of the calls that returned 0. */
  datatype State = State(buf: seq<Sample>, pin: nat, pout: nat, writer: Writer, reader: Reader,
                         sent: seq<Sample>, received: seq<Sample>)

  /** A call, or the next step of the call a thread is in. */
  datatype Event = WriteCall(data: seq<Sample>) | WriterStep | ReadCall(n: nat) | ReaderStep

  function WriterNext(s: State): State {
    match s.writer
    case WriterIdle => s
    case Writing(data) =>
      if |data| > |s.buf| - Used(s.pin, s.pout, |s.buf|) - 1 then s.(writer := WriterIdle)
      else s.(writer := Storing(data, 0, s.pin))
    case Storing(data, i, at) =>
      if i < |data| then
        if at < |s.buf| then s.(buf := s.buf[at := data[i]], writer := Storing(data, i + 1, Step(at, |s.buf|))) else s
      else s.(pin := at, writer := WriterIdle, sent := s.sent + data)
  }

  function ReaderNext(s: State): State {
    match s.reader
    case ReaderIdle => s
    case Reading(n) =>
      if n > Used(s.pin, s.pout, |s.buf|) then s.(reader := ReaderIdle)
      else s.(reader := Fetching(n, [], s.pout))
    case Fetching(n, got, at) =>
      if |got| < n then
        if at < |s.buf| then s.(reader := Fetching(n, got + [s.buf[at]], Step(at, |s.buf|))) else s
      else s.(pout := at, reader := ReaderIdle, received := s.received + got)
  }

  function Next(s: State, e: Event): State {
    match e
    case WriteCall(data) => if s.writer.WriterIdle? then s.(writer := Writing(data)) else s
    case WriterStep => WriterNext(s)
    case ReadCall(n) => if s.reader.ReaderIdle? then s.(reader := Reading(n)) else s
    case ReaderStep => ReaderNext(s)
  }

  /** A new buffer, with arbitrary contents. */
  function Start(buf: seq<Sample>): State {
    State(buf, 0, 0, WriterIdle, ReaderIdle, [], [])
  }

  /** Any interleaving of calls and steps. */
  function Run(s: State, events: seq<Event>): State {
    if events == [] then s else Next(Run(s, events[..|events| - 1]), events[|events| - 1])
  }

  /** The samples sent, followed by those a write in progress has stored. */
  function Stream(s: State): seq<Sample> {
    if s.writer.Storing? && s.writer.i <= |s.writer.data| then s.sent + s.writer.data[..s.writer.i] else s.sent
  }

  ghost predicate WriterInv(s: State) {
    s.writer.Storing? ==>
      && s.writer.i <= |s.writer.data|
      && |s.sent| + |s.writer.data| - |s.received| < |s.buf|
      && s.writer.at == Place(|Stream(s)|, |s.buf|)
  }

  ghost predicate ReaderInv(s: State) {
    s.reader.Fetching? ==>
      && |s.reader.got| <= s.reader.n
      && |s.received| + s.reader.n <= |s.sent|
      && s.reader.got == s.sent[|s.received|..|s.received| + |s.reader.got|]
      && s.reader.at == Place(|s.received| + |s.reader.got|, |s.buf|)
  }

  ghost predicate Inv(s: State) {
    && s.received <= s.sent
    && (|s.sent| - |s.received| < |s.buf| || |s.sent| == 0)
    && s.pin == Place(|s.sent|, |s.buf|)
    && s.pout == Place(|s.received|, |s.buf|)
    && Holds(s.buf, Stream(s), |s.received|)
    && WriterInv(s)
    && ReaderInv(s)
  }

  lemma {:induction false} WriterKeeps(s: State)
    requires Inv(s)
    ensures Inv(WriterNext(s))
  {
    match s.writer {
      case WriterIdle =>
      case Writing(_) => WriterLooks(s);
      case Storing(data, i, at) =>
        if i < |data| {
          WriterStores(s);
        } else {
          WriterPublishes(s);
        }
    }
  }

  lemma {:induction false} WriterLooks(s: State)
    requires Inv(s) && s.writer.Writing?
    ensures Inv(WriterNext(s))
  {
    hide Place, Step, Holds;
    UsedIs(|s.received|, |s.sent|, |s.buf|);
    assert Stream(WriterNext(s)) == Stream(s);
  }

  lemma {:induction false} WriterStores(s: State)
    requires Inv(s) && s.writer.Storing? && s.writer.i < |s.writer.data|
    ensures Inv(WriterNext(s))
  {
    hide Place, Step, Holds;
    var x := s.writer.data[s.writer.i];
    HoldsMore(s.buf, Stream(s), |s.received|, x);
    StepPlace(|Stream(s)|, |s.buf|);
    assert Stream(WriterNext(s)) == Stream(s) + [x];
  }

  lemma {:induction false} WriterPublishes(s: State)
    requires Inv(s) && s.writer.Storing? && s.writer.i == |s.writer.data|
    ensures Inv(WriterNext(s))
  {
    hide Place, Step, Holds;
    assert s.writer.data[..s.writer.i] == s.writer.data;
    assert Stream(WriterNext(s)) == Stream(s);
  }

  lemma {:induction false} ReaderKeeps(s: State)
    requires Inv(s)
    ensures Inv(ReaderNext(s))
  {
    hide Place, Step, Holds;
    UsedIs(|s.received|, |s.sent|, |s.buf|);
    if s.reader.Fetching? {
      var k := |s.received| + |s.reader.got|;
      if |s.reader.got| < s.reader.n {
        assert Stream(s)[k] == s.sent[k];
        HeldAt(s.buf, Stream(s), |s.received|, k);
        StepPlace(k, |s.buf|);
      } else {
        HoldsLess(s.buf, Stream(s), |s.received|, k);
      }
    }
  }

  lemma {:induction false} InvKept(s: State, events: seq<Event>)
    requires Inv(s)
    ensures Inv(Run(s, events)) && |Run(s, events).buf| == |s.buf|
  {
    if events != [] {
      InvKept(s, events[..|events| - 1]);
      var t := Run(s, events[..|events| - 1]);
      hide Inv;
      match events[|events| - 1] {
        case WriteCall(data) => WriteCallKeeps(t, data);
        case WriterStep => WriterKeeps(t);
        case ReadCall(n) => ReadCallKeeps(t, n);
        case ReaderStep => ReaderKeeps(t);
      }
    }
  }

  lemma InvHolds(buf: seq<Sample>, events: seq<Event>)
    ensures Inv(Run(Start(buf), events)) && |Run(Start(buf), events).buf| == |buf|
  {
    InvKept(Start(buf), events);
  }

  lemma WriteCallKeeps(s: State, data: seq<Sample>)
    requires Inv(s)
    ensures Inv(Next(s, WriteCall(data)))
  {
    if s.writer.WriterIdle? {
      assert Stream(Next(s, WriteCall(data))) == Stream(s);
    }
  }

  lemma ReadCallKeeps(s: State, n: nat)
    requires Inv(s)
    ensures Inv(Next(s, ReadCall(n)))
  {}

  /** Whatever the interleaving, the samples delivered are the first samples accepted, in order and unaltered. */
  lemma {:induction false} ThreadSafe(buf: seq<Sample>, events: seq<Event>)
    ensures var s := Run(Start(buf), events);
            && s.received <= s.sent
            && (|s.sent| - |s.received| < |buf| || |s.sent| == 0)
  {
    InvHolds(buf, events);
  }

  /** A write is turned away exactly when the samples sent and not yet received leave too little room. */
  lemma {:induction false} WriteAccepted(buf: seq<Sample>, events: seq<Event>)
    requires Run(Start(buf), events).writer.Writing?
    ensures var s := Run(Start(buf), events);
            WriterNext(s).writer.Storing? <==> |s.writer.data| + |s.sent| - |s.received| < |buf|
  {
    InvHolds(buf, events);
    var s := Run(Start(buf), events);
    UsedIs(|s.received|, |s.sent|, |buf|);
  }

  /** A read is turned away exactly when fewer samples than it wants are sent and not yet received. */
  lemma {:induction false} ReadAccepted(buf: seq<Sample>, events: seq<Event>)
    requires Run(Start(buf), events).reader.Reading?
    ensures var s := Run(Start(buf), events);
            ReaderNext(s).reader.Fetching? <==> s.reader.n <= |s.sent| - |s.received|
  {
    InvHolds(buf, events);
    var s := Run(Start(buf), events);
    UsedIs(|s.received|, |s.sent|, |buf|);
  }

  function Count(events: seq<Event>, e: Event): nat {
    if events == [] then 0
    else Count(events[..|events| - 1], e) + if events[|events| - 1] == e then 1 else 0
  }

  ghost predicate WriteProgress(s: State, t: State, steps: nat)
    requires s.writer.Storing?
  {
    if steps <= |s.writer.data| then
      t.sent == s.sent && t.writer.Storing? && t.writer.data == s.writer.data && t.writer.i == steps
    else
      t.sent == s.sent + s.writer.data && (t.writer.WriterIdle? || t.writer.Writing?)
  }

  /** A write that was not turned away sends all its data, in its own steps alone, whatever the reader does. */
  lemma {:induction false} WriteCompletes(s: State, events: seq<Event>)
    requires Inv(s) && s.writer.Storing? && s.writer.i == 0 && Count(events, WriterStep) <= |s.writer.data| + 1
    ensures WriteProgress(s, Run(s, events), Count(events, WriterStep))
  {
    if events != [] {
      hide Place, Holds, Step, Used;
      var before, e := events[..|events| - 1], events[|events| - 1];
      WriteCompletes(s, before);
      InvKept(s, before);
    }
  }

  ghost predicate ReadProgress(s: State, t: State, steps: nat)
    requires s.reader.Fetching? && |s.received| + s.reader.n <= |s.sent|
  {
    if steps <= s.reader.n then
      t.received == s.received && t.reader.Fetching? && t.reader.n == s.reader.n && |t.reader.got| == steps
    else
      t.received == s.sent[..|s.received| + s.reader.n] && (t.reader.ReaderIdle? || t.reader.Reading?)
  }

  lemma {:induction false} ReadProgressStep(s: State, t: State, steps: nat, e: Event)
    requires Inv(s) && Inv(t) && s.reader.Fetching? && s.sent <= t.sent && ReadProgress(s, t, steps)
    requires steps + (if e == ReaderStep then 1 else 0) <= s.reader.n + 1
    ensures ReadProgress(s, Next(t, e), steps + if e == ReaderStep then 1 else 0)
  {
    hide Place, Holds, Step, Used;
    if e == ReaderStep && steps == s.reader.n {
      assert t.received + t.reader.got == s.sent[..|s.received| + s.reader.n];
    }
  }

  /** A read that was not turned away delivers the samples it asked for, in its own steps alone. */
  lemma {:induction false} ReadCompletes(s: State, events: seq<Event>)
    requires Inv(s) && s.reader.Fetching? && s.reader.got == [] && Count(events, ReaderStep) <= s.reader.n + 1
    ensures ReadProgress(s, Run(s, events), Count(events, ReaderStep))
  {
    if events != [] {
      hide Place, Holds, Step, Used, Next;
      var before, e := events[..|events| - 1], events[|events| - 1];
      ReadCompletes(s, before);
      InvKept(s, before);
      SentGrows(s, before);
      hide Inv, ReadProgress;
      ReadProgressStep(s, Run(s, before), Count(before, ReaderStep), e);
    }
  }

  lemma {:induction false} SentGrows(s: State, events: seq<Event>)
    ensures s.sent <= Run(s, events).sent
  {
    if events != [] {
      SentGrows(s, events[..|events| - 1]);
    }
  }
}
