/**
 * The frames of codec2.c: in each of the six modes the encoder packs its fields one after the other, the decoder
 * unpacks them again, and a voicing bit can be borrowed and rebuilt.
 */
module Codec2Frames {
  import opened BitWords
  import opened FieldPack

  datatype Mode = Mode3200 | Mode2400 | Mode1600 | Mode1400 | Mode1300 | Mode1200

  /** The fields, by the 10 ms frame or the place in the LSP vector they belong to. */
  datatype Name = Voiced(frame: nat) | Wo(frame: nat) | Energy(frame: nat) | WoE(frame: nat)
                | Lsp(i: nat) | Lspd(i: nat) | LspVq(i: nat) | Spare

  datatype Item = Item(name: Name, width: nat)

  const WO_BITS: nat := 7
  const E_BITS: nat := 5
  const WO_E_BITS: nat := 8

  /** Ten scalar LSP indexes, by the sizes of their codebooks. */
  function Lsps(): seq<Item> {
    [Item(Lsp(0), 4), Item(Lsp(1), 4), Item(Lsp(2), 4), Item(Lsp(3), 4), Item(Lsp(4), 4),
     Item(Lsp(5), 4), Item(Lsp(6), 4), Item(Lsp(7), 3), Item(Lsp(8), 3), Item(Lsp(9), 2)]
  }

  function Lspds(): seq<Item> {
    [Item(Lspd(0), 5), Item(Lspd(1), 5), Item(Lspd(2), 5), Item(Lspd(3), 5), Item(Lspd(4), 5),
     Item(Lspd(5), 5), Item(Lspd(6), 5), Item(Lspd(7), 5), Item(Lspd(8), 5), Item(Lspd(9), 5)]
  }

  function LspVqs(): seq<Item> {
    [Item(LspVq(0), 9), Item(LspVq(1), 9), Item(LspVq(2), 9)]
  }

  /** What the encoder packs. */
  function EncodeLayout(mode: Mode): seq<Item> {
    match mode
    case Mode3200 => [Item(Voiced(0), 1), Item(Voiced(1), 1), Item(Wo(1), WO_BITS), Item(Energy(1), E_BITS)] + Lspds()
    case Mode2400 => [Item(Voiced(0), 1), Item(Voiced(1), 1), Item(WoE(1), WO_E_BITS)] + Lsps() + [Item(Spare, 2)]
    case Mode1600 => [Item(Voiced(0), 1), Item(Voiced(1), 1), Item(Wo(1), WO_BITS), Item(Energy(1), E_BITS),
                      Item(Voiced(2), 1), Item(Voiced(3), 1), Item(Wo(3), WO_BITS), Item(Energy(3), E_BITS)] + Lsps()
    case Mode1400 => [Item(Voiced(0), 1), Item(Voiced(1), 1), Item(WoE(1), WO_E_BITS),
                      Item(Voiced(2), 1), Item(Voiced(3), 1), Item(WoE(3), WO_E_BITS)] + Lsps()
    case Mode1300 => [Item(Voiced(0), 1), Item(Voiced(1), 1), Item(Voiced(2), 1), Item(Voiced(3), 1),
                      Item(Wo(3), WO_BITS), Item(Energy(3), E_BITS)] + Lsps()
    case Mode1200 => [Item(Voiced(0), 1), Item(Voiced(1), 1), Item(WoE(1), WO_E_BITS),
                      Item(Voiced(2), 1), Item(Voiced(3), 1), Item(WoE(3), WO_E_BITS)] + LspVqs() + [Item(Spare, 1)]
  }

  /** What the decoder unpacks. */
  function DecodeLayout(mode: Mode): seq<Item> {
    match mode
    case Mode3200 => [Item(Voiced(0), 1), Item(Voiced(1), 1), Item(Wo(1), WO_BITS), Item(Energy(1), E_BITS)] + Lspds()
    case Mode2400 => [Item(Voiced(0), 1), Item(Voiced(1), 1), Item(WoE(1), WO_E_BITS)] + Lsps()
    case Mode1600 => [Item(Voiced(0), 1), Item(Voiced(1), 1), Item(Wo(1), WO_BITS), Item(Energy(1), E_BITS),
                      Item(Voiced(2), 1), Item(Voiced(3), 1), Item(Wo(3), WO_BITS), Item(Energy(3), E_BITS)] + Lsps()
    case Mode1400 => [Item(Voiced(0), 1), Item(Voiced(1), 1), Item(WoE(1), WO_E_BITS),
                      Item(Voiced(2), 1), Item(Voiced(3), 1), Item(WoE(3), WO_E_BITS)] + Lsps()
    case Mode1300 => [Item(Voiced(0), 1), Item(Voiced(1), 1), Item(Voiced(2), 1), Item(Voiced(3), 1),
                      Item(Wo(3), WO_BITS), Item(Energy(3), E_BITS)] + Lsps()
    case Mode1200 => [Item(Voiced(0), 1), Item(Voiced(1), 1), Item(WoE(1), WO_E_BITS),
                      Item(Voiced(2), 1), Item(Voiced(3), 1), Item(WoE(3), WO_E_BITS)] + LspVqs()
  }

  function BitsPerFrame(mode: Mode): nat {
    match mode
    case Mode3200 => 64
    case Mode2400 => 48
    case Mode1600 => 64
    case Mode1400 => 56
    case Mode1300 => 52
    case Mode1200 => 48
  }

  /** The bit the j-th field starts at. */
  function Offset(layout: seq<Item>, j: nat): nat
    requires j <= |layout|
  {
    if j == 0 then 0 else Offset(layout, j - 1) + layout[j - 1].width
  }

  lemma {:induction false} OffsetAppend(a: seq<Item>, b: seq<Item>, j: nat)
    requires j <= |b|
    ensures Offset(a + b, |a| + j) == Offset(a, |a|) + Offset(b, j)
  {
    if j == 0 {
      OffsetPrefix(a, a + b, |a|);
    } else {
      OffsetAppend(a, b, j - 1);
      assert (a + b)[|a| + j - 1] == b[j - 1];
    }
  }

  lemma {:induction false} OffsetPrefix(a: seq<Item>, b: seq<Item>, j: nat)
    requires a <= b && j <= |a|
    ensures Offset(b, j) == Offset(a, j)
  {
    if j != 0 {
      OffsetPrefix(a, b, j - 1);
    }
  }

  lemma OffsetNext(layout: seq<Item>, j: nat)
    requires j < |layout|
    ensures Offset(layout, j + 1) == Offset(layout, j) + layout[j].width
  {}

  lemma {:induction false} OffsetMono(layout: seq<Item>, i: nat, j: nat)
    requires i <= j <= |layout|
    ensures Offset(layout, i) <= Offset(layout, j)
  {
    if i < j {
      OffsetMono(layout, i, j - 1);
    }
  }

  /** The fields before the LSPs. */
  function Head(mode: Mode): seq<Item> {
    EncodeLayout(mode)[..HeadLength(mode)]
  }

  function HeadLength(mode: Mode): (n: nat)
    ensures n <= |EncodeLayout(mode)|
  {
    match mode
    case Mode3200 => 4
    case Mode2400 => 3
    case Mode1600 => 8
    case Mode1400 => 6
    case Mode1300 => 6
    case Mode1200 => 6
  }

  lemma {:induction false} HeadOffsets(mode: Mode)
    ensures var h := Head(mode); var o := Offset(h, |h|);
            match mode
            case Mode3200 => o == 14
            case Mode2400 => o == 10
            case Mode1600 => o == 28 && h[4].name == Voiced(2) && Offset(h, 4) == 14
                             && h[5].name == Voiced(3) && Offset(h, 5) == 15
            case Mode1400 => o == 20 && h[3].name == Voiced(2) && Offset(h, 3) == 10
                             && h[4].name == Voiced(3) && Offset(h, 4) == 11
            case Mode1300 => o == 16 && h[2].name == Voiced(2) && Offset(h, 2) == 2
                             && h[3].name == Voiced(3) && Offset(h, 3) == 3
            case Mode1200 => o == 20
    ensures Head(mode)[1] == Item(Voiced(1), 1) && Offset(Head(mode), 1) == 1
  {
    var h := Head(mode);
    assert Offset(h, 1) == 1 && Offset(h, 2) == 2;
    assert mode != Mode2400 ==> Offset(h, 4) == Offset(h, 2) + h[2].width + h[3].width;
    assert mode.Mode1600? || mode.Mode1400? || mode.Mode1300? || mode.Mode1200? ==>
        Offset(h, 6) == Offset(h, 4) + h[4].width + h[5].width;
  }

  /** The rest of the fields. */
  function Tail(mode: Mode): (t: seq<Item>) {
    match mode
    case Mode3200 => Lspds()
    case Mode2400 => Lsps() + [Item(Spare, 2)]
    case Mode1600 => Lsps()
    case Mode1400 => Lsps()
    case Mode1300 => Lsps()
    case Mode1200 => LspVqs() + [Item(Spare, 1)]
  }

  lemma HeadAndTail(mode: Mode)
    ensures EncodeLayout(mode) == Head(mode) + Tail(mode)
  {
    match mode {
      case Mode3200 =>
      case Mode2400 =>
      case Mode1600 =>
      case Mode1400 =>
      case Mode1300 =>
      case Mode1200 =>
    }
  }

  lemma {:induction false} TailTotal(mode: Mode)
    ensures Offset(Tail(mode), |Tail(mode)|) == BitsPerFrame(mode) - Offset(Head(mode), |Head(mode)|)
  {
    HeadOffsets(mode);
    LspItems();
    OneMore(Lsps(), Item(Spare, 2));
    OneMore(LspVqs(), Item(Spare, 1));
    assert |Lsps()| == |Lspds()| == 10 && |LspVqs()| == 3;
    hide Offset, Head, Lsps, Lspds, LspVqs;
  }

  /** The encoder fills the frame exactly. */
  lemma {:induction false} FrameFilled(mode: Mode)
    ensures Offset(EncodeLayout(mode), |EncodeLayout(mode)|) == BitsPerFrame(mode)
  {
    HeadAndTail(mode);
    TailTotal(mode);
    hide *;
    OffsetAppend(Head(mode), Tail(mode), |Tail(mode)|);
  }

  /** The decoder's fields are the encoder's, in the same places; what it leaves unread is spare. */
  lemma {:induction false} LayoutsAgree(mode: Mode)
    ensures DecodeLayout(mode) <= EncodeLayout(mode)
    ensures forall j | |DecodeLayout(mode)| <= j < |EncodeLayout(mode)| :: EncodeLayout(mode)[j].name == Spare
  {
    match mode {
      case Mode3200 =>
      case Mode2400 => assert EncodeLayout(mode) == DecodeLayout(mode) + [Item(Spare, 2)];
      case Mode1600 =>
      case Mode1400 =>
      case Mode1300 =>
      case Mode1200 => assert EncodeLayout(mode) == DecodeLayout(mode) + [Item(Spare, 1)];
    }
  }

  /** Widths that pack and unpack handle. */
  ghost predicate Narrow(layout: seq<Item>) {
    forall j | 0 <= j < |layout| :: 1 <= layout[j].width <= 16
  }

  lemma {:induction false} LayoutNarrow(mode: Mode)
    ensures Narrow(EncodeLayout(mode))
  {
    HeadAndTail(mode);
    TailNarrow(mode);
    HeadNarrow(mode);
    hide Head, Tail, EncodeLayout;
  }

  lemma TailNarrow(mode: Mode)
    ensures Narrow(Tail(mode))
  {
    assert Narrow(Lsps()) && Narrow(Lspds()) && Narrow(LspVqs());
    assert Narrow([Item(Spare, 2)]) && Narrow([Item(Spare, 1)]);
    hide Lsps, Lspds, LspVqs;
  }

  lemma HeadNarrow(mode: Mode)
    ensures Narrow(Head(mode))
  {
    match mode {
      case Mode3200 =>
      case Mode2400 =>
      case Mode1600 =>
      case Mode1400 =>
      case Mode1300 =>
      case Mode1200 =>
    }
  }

  lemma OneMore(a: seq<Item>, x: Item)
    ensures Offset(a + [x], |a| + 1) == Offset(a, |a|) + x.width
  {
    OffsetPrefix(a, a + [x], |a|);
  }

  // Encoding and decoding.

  ghost predicate InRange(layout: seq<Item>, value: Name -> Bits) {
    Narrow(layout) && forall j | 0 <= j < |layout| :: Fits(value(layout[j].name), layout[j].width)
  }

  ghost predicate Clear(bytes: seq<Bits>, from: nat)
    requires Bytes(bytes)
  {
    forall k | from <= k < BYTE * |bytes| :: !Bit(bytes, k)
  }

  /** Field j stands at its place in Gray code. */
  ghost predicate Stands(bytes: seq<Bits>, layout: seq<Item>, value: Name -> Bits, j: nat)
    requires Bytes(bytes) && j < |layout| && Narrow(layout) && Offset(layout, |layout|) <= BYTE * |bytes|
    requires |value(layout[j].name)| == INT
  {
    OffsetMono(layout, j + 1, |layout|);
    Field(bytes, Offset(layout, j), layout[j].width) == Gray(value(layout[j].name))
  }

  /** The first j fields are packed and the rest of the bits are clear. */
  ghost predicate Packed(bytes: seq<Bits>, layout: seq<Item>, value: Name -> Bits, j: nat) {
    && Bytes(bytes) && InRange(layout, value) && j <= |layout| && Offset(layout, |layout|) <= BYTE * |bytes|
    && Clear(bytes, Offset(layout, j))
    && forall i | 0 <= i < j :: Stands(bytes, layout, value, i)
  }

  lemma {:induction false} FieldKept(before: seq<Bits>, after: seq<Bits>, i: nat, g: Bits, width: nat, o: nat, w: nat)
    requires Merged(before, after, i, g, width, width) && o + w <= i && i <= BYTE * |before| && w <= INT
    ensures Field(after, o, w) == Field(before, o, w)
  {
    forall q | 0 <= q < INT ensures Field(after, o, w)[q] == Field(before, o, w)[q] {
      if q >= INT - w {
        MergedAt(before, after, i, g, width, width, o + (q - (INT - w)));
      }
    }
  }

  lemma {:induction false} PackedNext(before: seq<Bits>, after: seq<Bits>, layout: seq<Item>, value: Name -> Bits,
                                      j: nat)
    requires Packed(before, layout, value, j) && j < |layout|
    requires Merged(before, after, Offset(layout, j), Gray(value(layout[j].name)), layout[j].width, layout[j].width)
    ensures Packed(after, layout, value, j + 1)
  {
    hide Gray, Merged, Stands, Clear, Offset;
    var o, w, g := Offset(layout, j), layout[j].width, Gray(value(layout[j].name));
    OffsetNext(layout, j);
    MergedBytes(before, after, o, g, w, w);
    StandsNew(before, after, layout, value, j);
    ClearBeyond(before, after, o, g, w);
    forall i | 0 <= i < j + 1 ensures Stands(after, layout, value, i) {
      if i < j {
        StandsKept(before, after, layout, value, j, i);
      }
    }
  }

  lemma {:induction false} StandsKept(before: seq<Bits>, after: seq<Bits>, layout: seq<Item>, value: Name -> Bits,
                                      j: nat, i: nat)
    requires Packed(before, layout, value, j) && i < j < |layout|
    requires Merged(before, after, Offset(layout, j), Gray(value(layout[j].name)), layout[j].width, layout[j].width)
    ensures Bytes(after) && |after| == |before| && Stands(after, layout, value, i)
  {
    hide Gray, Field, Merged;
    var o, w, g := Offset(layout, j), layout[j].width, Gray(value(layout[j].name));
    MergedBytes(before, after, o, g, w, w);
    OffsetMono(layout, j, |layout|);
    OffsetMono(layout, i + 1, j);
    assert Stands(before, layout, value, i);
    FieldKept(before, after, o, g, w, Offset(layout, i), layout[i].width);
  }

  lemma {:induction false} StandsNew(before: seq<Bits>, after: seq<Bits>, layout: seq<Item>, value: Name -> Bits,
                                     j: nat)
    requires Packed(before, layout, value, j) && j < |layout|
    requires Merged(before, after, Offset(layout, j), Gray(value(layout[j].name)), layout[j].width, layout[j].width)
    ensures Bytes(after) && |after| == |before| && Stands(after, layout, value, j)
  {
    hide Gray, Field, Merged;
    var o, w, g := Offset(layout, j), layout[j].width, Gray(value(layout[j].name));
    MergedBytes(before, after, o, g, w, w);
    OffsetMono(layout, j + 1, |layout|);
    GrayFits(value(layout[j].name), w);
    FieldOfMerged(before, after, o, g, w);
  }

  lemma {:induction false} ClearBeyond(before: seq<Bits>, after: seq<Bits>, o: nat, g: Bits, w: nat)
    requires Merged(before, after, o, g, w, w) && Bytes(before) && Clear(before, o)
    ensures Bytes(after) && Clear(after, o + w)
  {
    hide Bit;
    forall k | o + w <= k < BYTE * |after| ensures !Bit(after, k) {
      MergedAt(before, after, o, g, w, w, k);
    }
  }

  /** The packing half of an encoder: clear the bytes and pack field after field. */
  method Encode(mode: Mode, value: Name -> Bits) returns (bytes: array<Bits>)
    requires InRange(EncodeLayout(mode), value)
    ensures fresh(bytes) && bytes.Length == (BitsPerFrame(mode) + 7) / 8
    ensures Packed(bytes[..], EncodeLayout(mode), value, |EncodeLayout(mode)|)
  {
    FrameFilled(mode);
    var layout := EncodeLayout(mode);
    hide EncodeLayout, Packed, Merged, Gray;
    bytes := new Bits[(BitsPerFrame(mode) + 7) / 8](_ => Zeros(BYTE));
    var nbit := 0;
    PackedStart(bytes[..], layout, value);
    for j := 0 to |layout|
      invariant nbit == Offset(layout, j) && Packed(bytes[..], layout, value, j)
    {
      OffsetMono(layout, j + 1, |layout|);
      ghost var before := bytes[..];
      PackedBytes(before, layout, value, j);
      nbit := Pack(bytes, nbit, value(layout[j].name), layout[j].width);
      PackedNext(before, bytes[..], layout, value, j);
    }
  }

  lemma PackedBytes(bytes: seq<Bits>, layout: seq<Item>, value: Name -> Bits, j: nat)
    requires Packed(bytes, layout, value, j)
    ensures Bytes(bytes)
  {}

  lemma PackedStart(bytes: seq<Bits>, layout: seq<Item>, value: Name -> Bits)
    requires InRange(layout, value) && Offset(layout, |layout|) <= BYTE * |bytes|
    requires forall i | 0 <= i < |bytes| :: bytes[i] == Zeros(BYTE)
    ensures Packed(bytes, layout, value, 0)
  {}

  /** The unpacking half of a decoder. */
  method Decode(mode: Mode, bytes: array<Bits>) returns (values: seq<Bits>)
    requires Bytes(bytes[..]) && bytes.Length == (BitsPerFrame(mode) + 7) / 8
    ensures |values| == |DecodeLayout(mode)|
    ensures forall j | 0 <= j < |values| :: Reads(bytes[..], mode, j, values[j])
  {
    var layout := DecodeLayout(mode);
    hide DecodeLayout, Ungray, Field, Reads;
    values := [];
    var nbit := 0;
    for j := 0 to |layout|
      invariant nbit == Offset(layout, j) && |values| == j
      invariant forall i | 0 <= i < j :: Reads(bytes[..], mode, i, values[i])
    {
      FieldInside(mode, bytes.Length, j);
      var field;
      field, nbit := FieldPack.Unpack(bytes, nbit, layout[j].width);
      ReadsIs(bytes[..], mode, j, field);
      values := values + [field];
    }
  }

  /** The j-th field the decoder reads from the bytes. */
  ghost predicate Reads(bytes: seq<Bits>, mode: Mode, j: nat, field: Bits)
    requires Bytes(bytes) && |bytes| == (BitsPerFrame(mode) + 7) / 8 && j < |DecodeLayout(mode)|
  {
    FieldInside(mode, |bytes|, j);
    field == Ungray(Field(bytes, Offset(DecodeLayout(mode), j), DecodeLayout(mode)[j].width))
  }

  lemma ReadsIs(bytes: seq<Bits>, mode: Mode, j: nat, field: Bits)
    requires Bytes(bytes) && |bytes| == (BitsPerFrame(mode) + 7) / 8 && j < |DecodeLayout(mode)|
    requires var layout := DecodeLayout(mode);
             && layout[j].width <= INT && Offset(layout, j) + layout[j].width <= BYTE * |bytes|
             && field == Ungray(Field(bytes, Offset(layout, j), layout[j].width))
    ensures Reads(bytes, mode, j, field)
  {
    hide DecodeLayout;
  }

  lemma {:induction false} FieldInside(mode: Mode, n: nat, j: nat)
    requires n == (BitsPerFrame(mode) + 7) / 8 && j < |DecodeLayout(mode)|
    ensures var layout := DecodeLayout(mode);
            1 <= layout[j].width <= 16 && Offset(layout, j) + layout[j].width <= BYTE * n
  {
    var d, e := DecodeLayout(mode), EncodeLayout(mode);
    LayoutsAgree(mode);
    LayoutNarrow(mode);
    FrameFilled(mode);
    hide DecodeLayout, EncodeLayout;
    OffsetPrefix(d, e, j);
    OffsetMono(e, j + 1, |e|);
  }

  /** In every mode the decoder reads every field the encoder packed, by name and value. */
  lemma {:induction false} FrameRoundTrip(mode: Mode, value: Name -> Bits, bytes: seq<Bits>, j: nat, field: Bits)
    requires |bytes| == (BitsPerFrame(mode) + 7) / 8 && Packed(bytes, EncodeLayout(mode), value, |EncodeLayout(mode)|)
    requires j < |DecodeLayout(mode)| && Reads(bytes, mode, j, field)
    ensures field == value(DecodeLayout(mode)[j].name)
  {
    var d, e := DecodeLayout(mode), EncodeLayout(mode);
    LayoutsAgree(mode);
    FieldInside(mode, |bytes|, j);
    hide DecodeLayout, EncodeLayout, Gray, Ungray, Field;
    assert d[j] == e[j];
    OffsetPrefix(d, e, j);
    var w := value(d[j].name);
    assert Stands(bytes, e, value, j);
    GrayInverse(w);
    NarrowFits(w, d[j].width);
  }

  lemma NarrowFits(w: Bits, width: nat)
    requires Fits(w, width) && width <= 16
    ensures Fits(w, 16)
  {}

  // The spare bit.

  /** codec2_get_spare_bit_index */
  function SpareBitIndex(mode: Mode): int {
    match mode
    case Mode1300 => 2
    case Mode1400 => 10
    case Mode1600 => 15
    case _ => -1
  }

  /** A mode sends a field from bit k on. */
  ghost predicate FieldAt(mode: Mode, item: Item, k: nat) {
    exists j | 0 <= j < |EncodeLayout(mode)| ::
      EncodeLayout(mode)[j] == item && Offset(EncodeLayout(mode), j) == k
  }

  /** The bit at which a mode sends the voicing of one of its four frames. */
  ghost predicate VoicingAt(mode: Mode, frame: nat, k: nat) {
    FieldAt(mode, Item(Voiced(frame), 1), k)
  }

  lemma {:induction false} HeadAt(mode: Mode, j: nat)
    requires j < |Head(mode)|
    ensures FieldAt(mode, Head(mode)[j], Offset(Head(mode), j))
  {
    HeadAndTail(mode);
    var h, e := Head(mode), EncodeLayout(mode);
    assert h <= e;
    hide Head, EncodeLayout;
    OffsetPrefix(h, e, j);
    assert e[j] == h[j];
  }

  lemma {:induction false} TailAt(mode: Mode, j: nat)
    requires j < |Tail(mode)|
    ensures FieldAt(mode, Tail(mode)[j], Offset(Head(mode), |Head(mode)|) + Offset(Tail(mode), j))
  {
    HeadAndTail(mode);
    hide Head, Tail, EncodeLayout;
    var h, t := Head(mode), Tail(mode);
    OffsetAppend(h, t, j);
    assert (h + t)[|h| + j] == t[j];
  }

  /** Where the ten scalar LSP indexes start, and how wide they are. */
  ghost predicate LspsFrom(mode: Mode, k: nat) {
    forall i | 0 <= i < 10 ::
      FieldAt(mode, Item(Lsp(i), if i < 7 then 4 else if i < 9 then 3 else 2), k + if i < 8 then 4 * i else 3 * i + 7)
  }

  /** Voicing, pitch and energy in every mode: their widths and the bits they start at. */
  lemma {:induction false} HeadPlaces(mode: Mode)
    ensures FieldAt(mode, Item(Voiced(0), 1), 0) && FieldAt(mode, Item(Voiced(1), 1), 1)
    ensures mode == Mode3200 || mode == Mode1600 ==>
              FieldAt(mode, Item(Wo(1), 7), 2) && FieldAt(mode, Item(Energy(1), 5), 9)
    ensures mode == Mode2400 || mode == Mode1400 || mode == Mode1200 ==> FieldAt(mode, Item(WoE(1), 8), 2)
    ensures mode == Mode1600 ==>
              && FieldAt(mode, Item(Voiced(2), 1), 14) && FieldAt(mode, Item(Voiced(3), 1), 15)
              && FieldAt(mode, Item(Wo(3), 7), 16) && FieldAt(mode, Item(Energy(3), 5), 23)
    ensures mode == Mode1400 || mode == Mode1200 ==>
              && FieldAt(mode, Item(Voiced(2), 1), 10) && FieldAt(mode, Item(Voiced(3), 1), 11)
              && FieldAt(mode, Item(WoE(3), 8), 12)
    ensures mode == Mode1300 ==>
              && FieldAt(mode, Item(Voiced(2), 1), 2) && FieldAt(mode, Item(Voiced(3), 1), 3)
              && FieldAt(mode, Item(Wo(3), 7), 4) && FieldAt(mode, Item(Energy(3), 5), 11)
  {
    hide FieldAt;
    var h := Head(mode);
    HeadOffsets(mode);
    forall j | 0 <= j < |h| ensures FieldAt(mode, h[j], Offset(h, j)) {
      HeadAt(mode, j);
    }
    forall j | 0 <= j < |h| ensures Offset(h, j + 1) == Offset(h, j) + h[j].width {
      OffsetNext(h, j);
    }
    hide Offset, Lsps, Lspds, LspVqs;
    match mode {
      case Mode3200 => assert FieldAt(mode, h[2], 2) && FieldAt(mode, h[3], 9);
      case Mode2400 => assert FieldAt(mode, h[2], 2);
      case Mode1600 =>
        assert FieldAt(mode, h[2], 2) && FieldAt(mode, h[3], 9) && FieldAt(mode, h[4], 14);
        assert FieldAt(mode, h[5], 15) && FieldAt(mode, h[6], 16) && FieldAt(mode, h[7], 23);
      case Mode1400 =>
        assert FieldAt(mode, h[2], 2) && FieldAt(mode, h[3], 10) && FieldAt(mode, h[4], 11) && FieldAt(mode, h[5], 12);
      case Mode1300 =>
        assert FieldAt(mode, h[2], 2) && FieldAt(mode, h[3], 3) && FieldAt(mode, h[4], 4) && FieldAt(mode, h[5], 11);
      case Mode1200 =>
        assert FieldAt(mode, h[2], 2) && FieldAt(mode, h[3], 10) && FieldAt(mode, h[4], 11) && FieldAt(mode, h[5], 12);
    }
  }

  /** The LSP fields and the spare bits: they follow one after the other. */
  lemma {:induction false} TailPlaces(mode: Mode)
    ensures mode == Mode3200 ==> forall i | 0 <= i < 10 :: FieldAt(mode, Item(Lspd(i), 5), 14 + 5 * i)
    ensures mode == Mode2400 ==> LspsFrom(mode, 10) && FieldAt(mode, Item(Spare, 2), 46)
    ensures mode == Mode1600 ==> LspsFrom(mode, 28)
    ensures mode == Mode1400 ==> LspsFrom(mode, 20)
    ensures mode == Mode1300 ==> LspsFrom(mode, 16)
    ensures mode == Mode1200 ==>
              && (forall i | 0 <= i < 3 :: FieldAt(mode, Item(LspVq(i), 9), 20 + 9 * i))
              && FieldAt(mode, Item(Spare, 1), 47)
  {
    hide FieldAt, Offset, Head, Lsps, Lspds, LspVqs;
    HeadOffsets(mode);
    LspItems();
    var t := Tail(mode);
    forall j | 0 <= j < |t| ensures FieldAt(mode, t[j], Offset(Head(mode), |Head(mode)|) + Offset(t, j)) {
      TailAt(mode, j);
    }
    forall j | 0 <= j <= 10 && mode != Mode1200 && mode != Mode3200 ensures Offset(t, j) == Offset(Lsps(), j) {
      OffsetPrefix(Lsps(), t, j);
    }
    forall j | 0 <= j <= 3 && mode == Mode1200 ensures Offset(t, j) == Offset(LspVqs(), j) {
      OffsetPrefix(LspVqs(), t, j);
    }
    match mode {
      case Mode3200 => assert forall i | 0 <= i < 10 :: t[i] == Lspds()[i];
      case Mode2400 =>
        assert forall i | 0 <= i < 10 :: t[i] == Lsps()[i];
        assert t[10] == Item(Spare, 2);
      case Mode1200 =>
        assert forall i | 0 <= i < 3 :: t[i] == LspVqs()[i];
        assert t[3] == Item(Spare, 1);
      case _ => assert forall i | 0 <= i < 10 :: t[i] == Lsps()[i];
    }
  }

  lemma {:induction false} LspItems()
    ensures |Lsps()| == |Lspds()| == 10 && |LspVqs()| == 3
    ensures forall i | 0 <= i < 10 ::
              && Lsps()[i] == Item(Lsp(i), if i < 7 then 4 else if i < 9 then 3 else 2)
              && Offset(Lsps(), i) == (if i < 8 then 4 * i else 3 * i + 7)
              && Lspds()[i] == Item(Lspd(i), 5) && Offset(Lspds(), i) == 5 * i
    ensures forall i | 0 <= i < 3 :: LspVqs()[i] == Item(LspVq(i), 9) && Offset(LspVqs(), i) == 9 * i
    ensures Offset(Lsps(), 10) == 36 && Offset(Lspds(), 10) == 50 && Offset(LspVqs(), 3) == 27
  {
    assert Offset(Lsps(), 2) == 8 && Offset(Lsps(), 4) == 16 && Offset(Lsps(), 6) == 24 && Offset(Lsps(), 8) == 31;
    assert Offset(Lspds(), 2) == 10 && Offset(Lspds(), 4) == 20 && Offset(Lspds(), 6) == 30 && Offset(Lspds(), 8) == 40;
    assert Offset(LspVqs(), 2) == 18;
  }

  lemma {:induction false} VoicingPlaces(mode: Mode)
    ensures VoicingAt(mode, 1, 1)
    ensures mode == Mode1300 ==> VoicingAt(mode, 2, 2) && VoicingAt(mode, 3, 3)
    ensures mode == Mode1400 ==> VoicingAt(mode, 2, 10) && VoicingAt(mode, 3, 11)
    ensures mode == Mode1600 ==> VoicingAt(mode, 2, 14) && VoicingAt(mode, 3, 15)
  {
    hide FieldAt;
    HeadPlaces(mode);
  }

  /** A bit is sent at one place only. */
  lemma {:induction false} VoicingOnce(mode: Mode, frame: nat, k: nat, k': nat)
    requires VoicingAt(mode, frame, k) && VoicingAt(mode, frame, k')
    ensures k == k'
  {
    var e := EncodeLayout(mode);
    var j :| 0 <= j < |e| && e[j] == Item(Voiced(frame), 1) && Offset(e, j) == k;
    var j' :| 0 <= j' < |e| && e[j'] == Item(Voiced(frame), 1) && Offset(e, j') == k';
    VoicedOnce(mode, j, j');
  }

  lemma VoicedOnce(mode: Mode, j: nat, j': nat)
    requires j < |EncodeLayout(mode)| && j' < |EncodeLayout(mode)|
    requires EncodeLayout(mode)[j] == EncodeLayout(mode)[j'] && EncodeLayout(mode)[j].name.Voiced?
    ensures j == j'
  {
    HeadAndTail(mode);
    TailNotVoiced(mode);
    hide Tail, EncodeLayout, Head;
    assert j < |Head(mode)| && j' < |Head(mode)|;
    HeadVoiced(mode, j);
    HeadVoiced(mode, j');
  }

  lemma TailNotVoiced(mode: Mode)
    ensures forall j | 0 <= j < |Tail(mode)| :: !Tail(mode)[j].name.Voiced?
  {
    assert forall j | 0 <= j < 10 :: !Lsps()[j].name.Voiced? && !Lspds()[j].name.Voiced?;
    assert forall j | 0 <= j < 3 :: !LspVqs()[j].name.Voiced?;
    assert |Lsps()| == |Lspds()| == 10 && |LspVqs()| == 3;
    hide Lsps, Lspds, LspVqs;
  }

  /** The item that holds the voicing bit of a frame. */
  ghost function VoicedItem(mode: Mode, frame: nat): nat {
    if frame < 2 then frame
    else if mode == Mode1300 then frame
    else if mode == Mode1600 then frame + 2
    else frame + 1
  }

  lemma HeadVoiced(mode: Mode, j: nat)
    requires j < |Head(mode)| && Head(mode)[j].name.Voiced?
    ensures j == VoicedItem(mode, Head(mode)[j].name.frame)
  {
    hide Lsps, Lspds, LspVqs;
    match mode {
      case Mode3200 =>
      case Mode2400 =>
      case Mode1600 =>
      case Mode1400 =>
      case Mode1300 =>
      case Mode1200 =>
    }
  }

  /** The documented place of the spare bit, the third voicing bit, is right in 1300 and 1400 and wrong in 1600. */
  lemma {:induction false} SpareBitPlace(mode: Mode)
    ensures mode == Mode1300 || mode == Mode1400 ==>
              SpareBitIndex(mode) >= 0 && VoicingAt(mode, 2, SpareBitIndex(mode))
    ensures mode == Mode1600 ==>
              && SpareBitIndex(mode) == 15 && VoicingAt(mode, 2, 14)
              && !VoicingAt(mode, 2, 15) && VoicingAt(mode, 3, 15)
    ensures mode == Mode3200 || mode == Mode2400 || mode == Mode1200 ==> SpareBitIndex(mode) == -1
  {
    VoicingPlaces(mode);
    if mode == Mode1600 && VoicingAt(mode, 2, 15) {
      VoicingOnce(mode, 2, 14, 15);
    }
  }

  /** Bit k becomes 1 when one of two others is set and 0 when neither is, and nothing else changes. */
  ghost predicate BecomesOr(before: seq<int>, after: seq<int>, k: nat, v1: nat, v3: nat) {
    && |after| == |before| && k < |before| && v1 < |before| && v3 < |before|
    && (after[k] == 1 <==> before[v1] != 0 || before[v3] != 0)
    && (after[k] == 0 <==> before[v1] == 0 && before[v3] == 0)
    && forall i | 0 <= i < |before| && i != k :: after[i] == before[i]
  }

  function IsSet(a: int, b: int): int {
    if a != 0 || b != 0 then 1 else 0
  }

  /** codec2_rebuild_spare_bit, on unpacked bits */
  method RebuildSpareBit(mode: Mode, bits: array<int>) returns (r: int)
    requires bits.Length >= BitsPerFrame(mode)
    modifies bits
    ensures r == if mode == Mode1300 || mode == Mode1400 || mode == Mode1600 then 0 else -1
    ensures bits[..] == Rebuilt(mode, old(bits[..]))
    ensures mode == Mode1300 ==> BecomesOr(old(bits[..]), bits[..], 2, 1, 3)
    ensures mode == Mode1400 ==> BecomesOr(old(bits[..]), bits[..], 10, 1, 11)
    ensures mode == Mode1600 ==> BecomesOr(old(bits[..]), bits[..], 15, 1, 16)
    ensures r == -1 ==> bits[..] == old(bits[..])
  {
    var v1 := bits[1];
    match mode {
      case Mode1300 =>
        var v3 := bits[1 + 1 + 1];
        bits[2] := IsSet(v1, v3);
        return 0;
      case Mode1400 =>
        var v3 := bits[1 + 1 + 8 + 1];
        bits[10] := IsSet(v1, v3);
        return 0;
      case Mode1600 =>
        var v3 := bits[1 + 1 + 8 + 5 + 1];
        bits[15] := IsSet(v1, v3);
        return 0;
      case _ =>
        return -1;
    }
  }

  function Rebuilt(mode: Mode, bits: seq<int>): seq<int>
    requires |bits| >= BitsPerFrame(mode)
  {
    match mode
    case Mode1300 => bits[2 := IsSet(bits[1], bits[3])]
    case Mode1400 => bits[10 := IsSet(bits[1], bits[11])]
    case Mode1600 => bits[15 := IsSet(bits[1], bits[16])]
    case _ => bits
  }

  /** What the function is for: the third voicing bit becomes the or of its neighbours, and nothing else changes. */
  ghost predicate Restored(mode: Mode, bits: seq<int>, bits': seq<int>) {
    forall k1: nat, k2: nat, k3: nat | VoicingAt(mode, 1, k1) && VoicingAt(mode, 2, k2) && VoicingAt(mode, 3, k3) ::
      BecomesOr(bits, bits', k2, k1, k3)
  }

  lemma BecomesOrIs(bits: seq<int>, bits': seq<int>, k: nat, v1: nat, v3: nat)
    requires k < |bits| && v1 < |bits| && v3 < |bits|
    ensures BecomesOr(bits, bits', k, v1, v3) <==> bits' == bits[k := IsSet(bits[v1], bits[v3])]
  {}

  lemma {:induction false} RestoredIs(mode: Mode, bits: seq<int>, bits': seq<int>, k2: nat, k3: nat)
    requires VoicingAt(mode, 2, k2) && VoicingAt(mode, 3, k3) && 1 < |bits| && k2 < |bits| && k3 < |bits|
    ensures Restored(mode, bits, bits') <==> bits' == bits[k2 := IsSet(bits[1], bits[k3])]
  {
    VoicingPlaces(mode);
    BecomesOrIs(bits, bits', k2, 1, k3);
    hide VoicingAt, IsSet, BecomesOr;
    if bits' == bits[k2 := IsSet(bits[1], bits[k3])] {
      forall j1: nat, j2: nat, j3: nat | VoicingAt(mode, 1, j1) && VoicingAt(mode, 2, j2) && VoicingAt(mode, 3, j3)
        ensures j1 == 1 && j2 == k2 && j3 == k3
      {
        VoicingOnce(mode, 1, j1, 1);
        VoicingOnce(mode, 2, j2, k2);
        VoicingOnce(mode, 3, j3, k3);
      }
    }
  }

  /**
   * In 1300 and 1400 the function does what it is for. In 1600 it reads and writes one bit too late: it does what it
   * is for exactly when neither the bit it should write nor the one it writes would change.
   */
  lemma {:induction false} SpareBit(mode: Mode, bits: seq<int>)
    requires (mode == Mode1300 || mode == Mode1400 || mode == Mode1600) && |bits| >= BitsPerFrame(mode)
    ensures Restored(mode, bits, Rebuilt(mode, bits)) <==>
            (mode == Mode1600 ==> bits[14] == IsSet(bits[1], bits[15]) && bits[15] == IsSet(bits[1], bits[16]))
  {
    VoicingPlaces(mode);
    hide VoicingAt, Restored, IsSet;
    match mode {
      case Mode1300 => RestoredIs(mode, bits, Rebuilt(mode, bits), 2, 3);
      case Mode1400 => RestoredIs(mode, bits, Rebuilt(mode, bits), 10, 11);
      case Mode1600 =>
        RestoredIs(mode, bits, Rebuilt(mode, bits), 14, 15);
        OneTooLate(bits, IsSet(bits[1], bits[15]), IsSet(bits[1], bits[16]));
    }
  }

  lemma OneTooLate(bits: seq<int>, x: int, y: int)
    requires |bits| > 16
    ensures bits[15 := y] == bits[14 := x] <==> bits[14] == x && bits[15] == y
  {
    if bits[15 := y] == bits[14 := x] {
      assert bits[15 := y][14] == bits[14 := x][14];
      assert bits[15 := y][15] == bits[14 := x][15];
    }
  }

  /** A 1600 frame whose third voicing bit is lost. */
  lemma {:induction false} SpareBitLost()
    ensures var bits := seq(64, k => if k == 1 then 1 else 0);
            !Restored(Mode1600, bits, Rebuilt(Mode1600, bits))
  {
    var bits := seq(64, k => if k == 1 then 1 else 0);
    SpareBit(Mode1600, bits);
  }
}
