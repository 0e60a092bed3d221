/**
 * fec_enc.c and fec_dec.c: the sensitive bits of a codec frame are protected by one or two Golay codewords whose
 * parity bits are sent after the frame.
 */
module FecFrames {
  import opened BitWords
  import opened GolayCode
  import opened Golay

  datatype Mode = Fec2000 | Fec1850 | Fec1600

  /** A codeword: the places of its twelve data bits in the frame, and of the first of its eleven parity bits. */
  datatype Guard = Guard(data: seq<nat>, parity: nat)

  /** Bits of the codec frame, and of the frame for the modem. */
  function CodecBits(mode: Mode): nat {
    if mode == Fec2000 then 56 else 52
  }

  function ModemBits(mode: Mode): nat {
    if mode == Fec1600 then 64 else 80
  }

  /** Twelve bits in a row. */
  function Row(from: nat): seq<nat> {
    seq(12, i requires i >= 0 => from + i)
  }

  /** Bits 0 to 7 and 11 to 14: the voicing bits and the most significant bits of pitch and energy. */
  function Excitation(): seq<nat> {
    seq(12, i requires i >= 0 => if i < 8 then i else i + 3)
  }

  function Guards(mode: Mode): seq<Guard> {
    var n := CodecBits(mode);
    match mode
    case Fec2000 => [Guard(Row(0), n), Guard(Row(12), n + 11)]
    case Fec1850 => [Guard(Excitation(), n), Guard(Row(16), n + 11)]
    case Fec1600 => [Guard(Excitation(), n)]
  }

  /** Twelve data bits at different places of the frame; the parity bits follow the frame. */
  ghost predicate Proper(g: Guard, n: nat, size: nat) {
    && |g.data| == 12 && n <= g.parity && g.parity + 11 <= size
    && (forall i | 0 <= i < 12 :: g.data[i] < n)
    && forall i, j | 0 <= i < j < 12 :: g.data[i] < g.data[j]
  }

  /** No bit is protected twice. */
  ghost predicate Apart(g: Guard, h: Guard) {
    && (forall i, j | 0 <= i < |g.data| && 0 <= j < |h.data| :: g.data[i] != h.data[j])
    && g.parity + 11 <= h.parity
  }

  ghost predicate Layout(guards: seq<Guard>, n: nat, size: nat) {
    && (forall k | 0 <= k < |guards| :: Proper(guards[k], n, size))
    && forall k, l | 0 <= k < l < |guards| :: Apart(guards[k], guards[l])
  }

  lemma GuardsLayout(mode: Mode)
    ensures Layout(Guards(mode), CodecBits(mode), ModemBits(mode))
  {
    var guards, n, size := Guards(mode), CodecBits(mode), ModemBits(mode);
    assert Proper(guards[0], n, size);
    if mode != Fec1600 {
      assert Proper(guards[1], n, size);
      assert Apart(guards[0], guards[1]);
    }
  }

  /** The bits a mode protects. */
  ghost predicate Sensitive(mode: Mode, p: nat) {
    match mode
    case Fec2000 => p < 24
    case Fec1850 => p < 8 || 11 <= p < 15 || 16 <= p < 28
    case Fec1600 => p < 8 || 11 <= p < 15
  }

  lemma {:induction false} GuardedIs(mode: Mode, p: nat)
    ensures Guarded(Guards(mode), |Guards(mode)|, p) <==> Sensitive(mode, p)
  {
    RowHas(0, p);
    RowHas(12, p);
    RowHas(16, p);
    ExcitationHas(p);
    hide Row, Excitation;
    var guards := Guards(mode);
    assert Guarded(guards, |guards|, p) <==> p in guards[0].data || (|guards| == 2 && p in guards[1].data);
  }

  lemma RowHas(from: nat, p: nat)
    ensures p in Row(from) <==> from <= p < from + 12
  {
    if from <= p < from + 12 {
      assert Row(from)[p - from] == p;
    }
  }

  lemma ExcitationHas(p: nat)
    ensures p in Excitation() <==> p < 8 || 11 <= p < 15
  {
    if p < 8 {
      assert Excitation()[p] == p;
    } else if 11 <= p < 15 {
      assert Excitation()[p - 3] == p;
    }
  }

  /** The codewords of a frame, bit by bit. */
  ghost function CodewordBits(mode: Mode, frame: Bits): seq<Bits>
    requires |frame| == ModemBits(mode)
  {
    match mode
    case Fec2000 => [frame[..12] + frame[56..67], frame[12..24] + frame[67..78]]
    case Fec1850 => [frame[..8] + frame[11..15] + frame[52..63], frame[16..28] + frame[63..74]]
    case Fec1600 => [frame[..8] + frame[11..15] + frame[52..63]]
  }

  lemma {:induction false} CodewordBitsIs(mode: Mode, frame: Bits)
    requires |frame| == ModemBits(mode)
    ensures |CodewordBits(mode, frame)| == |Guards(mode)|
    ensures forall k | 0 <= k < |Guards(mode)| ::
              InFrame(Guards(mode)[k], |frame|) && Word(frame, Guards(mode)[k]) == CodewordBits(mode, frame)[k]
  {
    match mode {
      case Fec2000 =>
        assert Word(frame, Guards(mode)[0]) == CodewordBits(mode, frame)[0];
        assert Word(frame, Guards(mode)[1]) == CodewordBits(mode, frame)[1];
      case Fec1850 =>
        assert Word(frame, Guards(mode)[0]) == CodewordBits(mode, frame)[0];
        assert Word(frame, Guards(mode)[1]) == CodewordBits(mode, frame)[1];
      case Fec1600 =>
        assert Word(frame, Guards(mode)[0]) == CodewordBits(mode, frame)[0];
    }
  }

  /** Frame and parity bits make up codewords. */
  ghost predicate Codewords(mode: Mode, out: Bits) {
    |out| == ModemBits(mode) &&
    forall k | 0 <= k < |CodewordBits(mode, out)| :: IsCodeword(CodewordBits(mode, out)[k])
  }

  function Gathered(bits: Bits, places: seq<nat>): (r: Bits)
    requires forall i | 0 <= i < |places| :: places[i] < |bits|
    ensures |r| == |places| && forall i | 0 <= i < |places| :: r[i] == bits[places[i]]
  {
    seq(|places|, i requires 0 <= i < |places| => bits[places[i]])
  }

  /** The 23 bits of a codeword in a frame. */
  function Word(bits: Bits, g: Guard): (w: Bits)
    requires InFrame(g, |bits|)
    ensures |w| == 23
  {
    Gathered(bits, g.data) + bits[g.parity..g.parity + 11]
  }

  /** The loops that shift bits into a word. */
  method Gather(bits: Bits, places: seq<nat>) returns (r: Bits)
    requires forall i | 0 <= i < |places| :: places[i] < |bits|
    ensures r == Gathered(bits, places)
  {
    r := [];
    for i := 0 to |places|
      invariant |r| == i && forall j | 0 <= j < i :: r[j] == bits[places[j]]
    {
      r := r + [bits[places[i]]];
    }
  }

  /** The first k codewords of a frame are codewords. */
  ghost predicate Coded(out: Bits, guards: seq<Guard>, k: nat) {
    k <= |guards| && forall i | 0 <= i < k :: InFrame(guards[i], |out|) && IsCodeword(Word(out, guards[i]))
  }

  /** The codec frame, its parity bits, and whatever fills up the modem frame. */
  ghost predicate Protected(bits: Bits, out: Bits, guards: seq<Guard>, n: nat, size: nat)
    requires Layout(guards, n, size)
  {
    |bits| == n <= size == |out| && out[..n] == bits && Coded(out, guards, |guards|)
  }

  /** Where the parity bits end. */
  function ParityEnd(mode: Mode): nat {
    CodecBits(mode) + if mode == Fec1600 then 11 else 22
  }

  lemma ParityInside(mode: Mode)
    ensures forall k | 0 <= k < |Guards(mode)| :: Guards(mode)[k].parity + 11 <= ParityEnd(mode)
  {}

  lemma CodedAll(mode: Mode, out: Bits)
    requires |out| == ModemBits(mode) && Coded(out, Guards(mode), |Guards(mode)|)
    ensures Codewords(mode, out)
  {
    hide Guards, CodewordBits, IsCodeword, Word;
    CodewordBitsIs(mode, out);
  }

  /** fec_enc.c on one frame; mode 2000 leaves two bits at the end as the memory held them, the others clear them. */
  method Protect(golay: Golay23, mode: Mode, bits: Bits, spare: Bits) returns (out: Bits)
    requires golay.Ready() && |bits| == CodecBits(mode) && |spare| == ModemBits(mode)
    ensures Layout(Guards(mode), CodecBits(mode), ModemBits(mode))
    ensures Protected(bits, out, Guards(mode), CodecBits(mode), ModemBits(mode))
    ensures bits <= out && Codewords(mode, out)
    ensures mode == Fec2000 ==> out[78..] == spare[78..]
    ensures mode == Fec1850 ==> out[74..] == Zeros(6)
    ensures mode == Fec1600 ==> out[63..] == Zeros(1)
  {
    hide Guards, IsCodeword, Layout, Coded, Golay23.Ready, Codewords;
    GuardsLayout(mode);
    ParityInside(mode);
    var guards, n, size := Guards(mode), CodecBits(mode), ModemBits(mode);
    out := bits + if mode == Fec2000 then spare[n..] else Zeros(size - n);
    assert out[..n] == bits;
    NoneCoded(out, guards);
    for k := 0 to |guards|
      invariant |out| == size && out[..n] == bits && Coded(out, guards, k)
      invariant forall p | ParityEnd(mode) <= p < size :: out[p] == (mode == Fec2000 && spare[p])
    {
      out := AddParity(golay, out, guards, k, n);
    }
    CodedAll(mode, out);
  }

  predicate InFrame(g: Guard, size: nat) {
    |g.data| == 12 && g.parity + 11 <= size && forall i | 0 <= i < 12 :: g.data[i] < size
  }

  /** Encode the data bits of a codeword and put its parity bits in their place. */
  method AddParity(golay: Golay23, out: Bits, guards: seq<Guard>, k: nat, n: nat) returns (out': Bits)
    requires golay.Ready() && Layout(guards, n, |out|) && k < |guards| && n <= |out| && Coded(out, guards, k)
    ensures |out'| == |out| && out'[..n] == out[..n] && Coded(out', guards, k + 1)
    ensures forall p | guards[k].parity + 11 <= p < |out| :: out'[p] == out[p]
  {
    hide IsCodeword, Golay23.Ready, Word, Apart;
    var g := guards[k];
    assert Proper(g, n, |out|);
    var data := Gather(out[..n], g.data);
    var codeword := golay.Encode(data);
    out' := out[..g.parity] + codeword[12..] + out[g.parity + 11..];
    NewWord(out, out', guards, k, n, |out|, codeword);
  }

  lemma NoneCoded(out: Bits, guards: seq<Guard>)
    ensures Coded(out, guards, 0)
  {}

  lemma {:induction false} NewWord(before: Bits, out: Bits, guards: seq<Guard>, k: nat, n: nat, size: nat,
                                   codeword: Bits)
    requires Layout(guards, n, size) && k < |guards| && n <= |before| == size && |codeword| == 23
    requires codeword[..12] == Gathered(before[..n], guards[k].data)
    requires out == before[..guards[k].parity] + codeword[12..] + before[guards[k].parity + 11..]
    ensures |out| == size && out[..n] == before[..n] && Word(out, guards[k]) == codeword
    ensures forall i | 0 <= i < k :: Word(out, guards[i]) == Word(before, guards[i])
  {
    var g := guards[k];
    assert Proper(g, n, size);
    assert Gathered(out, g.data) == codeword[..12];
    assert out[g.parity..g.parity + 11] == codeword[12..];
    assert codeword == codeword[..12] + codeword[12..];
    forall i | 0 <= i < k ensures Word(out, guards[i]) == Word(before, guards[i]) {
      assert Proper(guards[i], n, size) && Apart(guards[i], g);
      assert Gathered(out, guards[i].data) == Gathered(before, guards[i].data);
      assert out[guards[i].parity..guards[i].parity + 11] == before[guards[i].parity..guards[i].parity + 11];
    }
  }

  // Decoding.

  /** The data bits of a codeword are those of the codeword within three errors of the one received. */
  ghost predicate Corrects(rx: Bits, bits: Bits, g: Guard) {
    && InFrame(g, |rx|) && (forall i | 0 <= i < 12 :: g.data[i] < |bits|)
    && forall c: Bits | |c| == 23 && IsCodeword(c) && Weight(Xor(Word(rx, g), c)) <= 3 ::
       Gathered(bits, g.data) == c[..12]
  }

  /** One of the first k codewords protects the bit. */
  ghost predicate Guarded(guards: seq<Guard>, k: nat, p: nat) {
    k <= |guards| && exists i | 0 <= i < k :: p in guards[i].data
  }

  ghost predicate Recovered(rx: Bits, bits: Bits, guards: seq<Guard>, k: nat) {
    && k <= |guards| && |bits| <= |rx|
    && (forall i | 0 <= i < k :: Corrects(rx, bits, guards[i]))
    && forall p | 0 <= p < |bits| && !Guarded(guards, k, p) :: bits[p] == rx[p]
  }

  /** The loop that puts the data bits of a codeword back. */
  method PutBack(bits: Bits, places: seq<nat>, c: Bits) returns (r: Bits)
    requires |places| <= |c| && (forall i | 0 <= i < |places| :: places[i] < |bits|)
    requires forall i, j | 0 <= i < j < |places| :: places[i] < places[j]
    ensures |r| == |bits| && Gathered(r, places) == c[..|places|]
    ensures forall p | 0 <= p < |bits| && p !in places :: r[p] == bits[p]
  {
    r := bits;
    for i := 0 to |places|
      invariant |r| == |bits|
      invariant forall j | 0 <= j < i :: r[places[j]] == c[j]
      invariant forall p | 0 <= p < |bits| && p !in places :: r[p] == bits[p]
    {
      r := r[places[i] := c[i]];
    }
  }

  /** Decode one codeword and put its data bits back. */
  method Correct(golay: Golay23, rx: Bits, bits: Bits, guards: seq<Guard>, k: nat) returns (bits': Bits)
    requires golay.Ready() && Layout(guards, |bits|, |rx|) && k < |guards| && Recovered(rx, bits, guards, k)
    ensures |bits'| == |bits| && Recovered(rx, bits', guards, k + 1)
  {
    hide IsCodeword, Golay23.Ready, Count, Recovered;
    var g := guards[k];
    assert Proper(g, |bits|, |rx|);
    RecoveredSizes(rx, bits, guards, k);
    assert InFrame(g, |rx|);
    var data := Gather(rx, g.data);
    var c := golay.Decode(data + rx[g.parity..g.parity + 11]);
    bits' := PutBack(bits, g.data, c);
    assert Corrects(rx, bits', g);
    OneMore(rx, bits, bits', guards, k);
  }

  lemma RecoveredSizes(rx: Bits, bits: Bits, guards: seq<Guard>, k: nat)
    requires Recovered(rx, bits, guards, k)
    ensures |bits| <= |rx|
  {}

  lemma {:induction false} OneMore(rx: Bits, bits: Bits, bits': Bits, guards: seq<Guard>, k: nat)
    requires Layout(guards, |bits|, |rx|) && k < |guards| && Recovered(rx, bits, guards, k)
    requires |bits'| == |bits| && Corrects(rx, bits', guards[k])
    requires forall p | 0 <= p < |bits| && p !in guards[k].data :: bits'[p] == bits[p]
    ensures Recovered(rx, bits', guards, k + 1)
  {
    hide IsCodeword, Count, Word;
    forall i | 0 <= i < k ensures Corrects(rx, bits', guards[i]) {
      assert Corrects(rx, bits, guards[i]) && Apart(guards[i], guards[k]) && Proper(guards[i], |bits|, |rx|);
      assert Gathered(bits', guards[i].data) == Gathered(bits, guards[i].data);
    }
    forall p | 0 <= p < |bits'| && !Guarded(guards, k + 1, p) ensures bits'[p] == rx[p] {
      assert p !in guards[k].data;
      assert !Guarded(guards, k, p);
    }
  }

  /** fec_dec.c on one frame */
  method Recover(golay: Golay23, mode: Mode, rx: Bits) returns (bits: Bits)
    requires golay.Ready() && |rx| == ModemBits(mode)
    ensures |bits| == CodecBits(mode) && Recovered(rx, bits, Guards(mode), |Guards(mode)|)
    ensures forall p | 0 <= p < |bits| && !Sensitive(mode, p) :: bits[p] == rx[p]
  {
    hide Guards, Layout, Recovered, Golay23.Ready;
    GuardsLayout(mode);
    var guards, n := Guards(mode), CodecBits(mode);
    bits := rx[..n];
    NoneRecovered(rx, bits, guards);
    for k := 0 to |guards|
      invariant |bits| == n && Recovered(rx, bits, guards, k)
    {
      bits := Correct(golay, rx, bits, guards, k);
    }
    forall p | 0 <= p < |bits| && !Sensitive(mode, p) ensures bits[p] == rx[p] {
      GuardedIs(mode, p);
      Unguarded(rx, bits, guards, p);
    }
  }

  lemma NoneRecovered(rx: Bits, bits: Bits, guards: seq<Guard>)
    requires bits <= rx
    ensures Recovered(rx, bits, guards, 0)
  {}

  lemma {:induction false} WordXor(a: Bits, b: Bits, g: Guard)
    requires |a| == |b| && InFrame(g, |a|)
    ensures Word(Xor(a, b), g) == Xor(Word(a, g), Word(b, g))
  {}

  /** What comes out for a frame sent with errors: a codeword with at most three errors is repaired. */
  lemma {:induction false} GuardRepairs(bits: Bits, sent: Bits, errors: Bits, out: Bits, guards: seq<Guard>, k: nat,
                                        p: nat)
    requires k < |guards| && |sent| == |errors| && |bits| == |out| <= |sent| && sent[..|bits|] == bits
    requires Coded(sent, guards, |guards|) && Recovered(Xor(sent, errors), out, guards, |guards|)
    requires InFrame(guards[k], |errors|) && Weight(Word(errors, guards[k])) <= 3
    requires p in guards[k].data && p < |bits|
    ensures out[p] == bits[p]
  {
    var g := guards[k];
    var c, e := Word(sent, g), Word(errors, g);
    assert IsCodeword(c) && Corrects(Xor(sent, errors), out, g);
    WordXor(sent, errors, g);
    XorLaws(c, e);
    XorLaws(e, c);
    assert Xor(Word(Xor(sent, errors), g), c) == e;
    var i :| 0 <= i < 12 && g.data[i] == p;
    assert Gathered(out, g.data)[i] == c[..12][i] == sent[p];
  }

  ghost predicate Light(errors: Bits, guards: seq<Guard>) {
    forall k | 0 <= k < |guards| :: InFrame(guards[k], |errors|) && Weight(Word(errors, guards[k])) <= 3
  }

  /** Protected bits arrive as they were; the others show the errors on them. */
  ghost predicate Arrived(mode: Mode, bits: Bits, errors: Bits, out: Bits) {
    |out| == |bits| <= |errors| &&
    forall p | 0 <= p < |bits| :: out[p] == if Sensitive(mode, p) then bits[p] else bits[p] != errors[p]
  }

  /** At most three errors on each codeword. */
  ghost predicate FewErrors(mode: Mode, errors: Bits) {
    |errors| == ModemBits(mode) &&
    forall k | 0 <= k < |CodewordBits(mode, errors)| :: Weight(CodewordBits(mode, errors)[k]) <= 3
  }

  /** Whatever the errors elsewhere: up to three in each codeword leave every protected bit as it was. */
  method Transmit(golay: Golay23, mode: Mode, bits: Bits, spare: Bits, errors: Bits) returns (out: Bits)
    requires golay.Ready() && |bits| == CodecBits(mode) && |spare| == |errors| == ModemBits(mode)
    requires FewErrors(mode, errors)
    ensures Arrived(mode, bits, errors, out)
  {
    hide Guards, IsCodeword, Count, Golay23.Ready, Layout, Coded, Recovered, Word, Codewords, CodewordBits, Weight;
    CodewordBitsIs(mode, errors);
    var sent := Protect(golay, mode, bits, spare);
    out := Recover(golay, mode, Xor(sent, errors));
    ghost var guards := Guards(mode);
    forall p | 0 <= p < |bits|
      ensures out[p] == if Sensitive(mode, p) then bits[p] else bits[p] != errors[p]
    {
      GuardedIs(mode, p);
      if Guarded(guards, |guards|, p) {
        var k :| 0 <= k < |guards| && p in guards[k].data;
        GuardRepairs(bits, sent, errors, out, guards, k, p);
      } else {
        Unguarded(Xor(sent, errors), out, guards, p);
        assert sent[p] == bits[p];
      }
    }
  }

  lemma Unguarded(rx: Bits, bits: Bits, guards: seq<Guard>, p: nat)
    requires Recovered(rx, bits, guards, |guards|) && p < |bits| && !Guarded(guards, |guards|, p)
    ensures bits[p] == rx[p]
  {}
}
