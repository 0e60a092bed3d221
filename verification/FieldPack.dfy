/**
 * pack.c: fields of any width are put into a bit string in Gray code, slice by slice along the bytes, and read back.
 */
module FieldPack {
  import opened BitWords

  const BYTE: nat := 8
  const INT: nat := 32

  function Shr(w: Bits, k: nat): (r: Bits)
    requires k <= |w|
    ensures |r| == |w| && forall i | 0 <= i < |w| :: r[i] == (i >= k && w[i - k])
  {
    Zeros(k) + w[..|w| - k]
  }

  function Shl(w: Bits, k: nat): (r: Bits)
    requires k <= |w|
    ensures |r| == |w| && forall i | 0 <= i < |w| :: r[i] == (i + k < |w| && w[i + k])
  {
    w[k..] + Zeros(k)
  }

  function Or(a: Bits, b: Bits): (r: Bits)
    requires |a| == |b|
    ensures |r| == |a| && forall i | 0 <= i < |a| :: r[i] == (a[i] || b[i])
  {
    seq(|a|, i requires 0 <= i < |a| => a[i] || b[i])
  }

  function And(a: Bits, b: Bits): (r: Bits)
    requires |a| == |b|
    ensures |r| == |a| && forall i | 0 <= i < |a| :: r[i] == (a[i] && b[i])
  {
    seq(|a|, i requires 0 <= i < |a| => a[i] && b[i])
  }

  /** (1 << n) - 1 */
  function LowOnes(n: nat): (r: Bits)
    requires n <= INT
    ensures |r| == INT && forall i | 0 <= i < INT :: r[i] == (i >= INT - n)
  {
    seq(INT, i => i >= INT - n)
  }

  /** The conversion to unsigned char, and back to int. */
  function ToByte(w: Bits): (r: Bits)
    requires |w| == INT
    ensures |r| == BYTE && forall i | 0 <= i < BYTE :: r[i] == w[INT - BYTE + i]
  {
    w[INT - BYTE..]
  }

  function ToInt(b: Bits): (r: Bits)
    requires |b| == BYTE
    ensures |r| == INT && forall i | 0 <= i < INT :: r[i] == (i >= INT - BYTE && b[i - (INT - BYTE)])
  {
    Zeros(INT - BYTE) + b
  }

  /** A value of at most width bits. */
  predicate Fits(w: Bits, width: nat) {
    |w| == INT && width <= INT && forall i | 0 <= i < INT - width :: !w[i]
  }

  // Gray code.

  /** w ^ (w >> k) */
  function Fold(w: Bits, k: nat): (r: Bits)
    requires |w| == INT && k <= INT
    ensures |r| == INT && forall i | 0 <= i < INT :: r[i] == (w[i] != (i >= k && w[i - k]))
  {
    Xor(w, Shr(w, k))
  }

  function Gray(w: Bits): (r: Bits)
    requires |w| == INT
    ensures |r| == INT
  {
    Fold(w, 1)
  }

  /** The four exclusive-ors at the end of unpack. */
  function Ungray(w: Bits): (r: Bits)
    requires |w| == INT
    ensures |r| == INT
  {
    Fold(Fold(Fold(Fold(w, 8), 4), 2), 1)
  }

  lemma FoldTwice(w: Bits, k: nat)
    requires |w| == INT && 2 * k <= INT
    ensures Fold(Fold(w, k), k) == Fold(w, 2 * k)
  {}

  lemma FoldCommutes(w: Bits, j: nat, k: nat)
    requires |w| == INT && j + k <= INT
    ensures Fold(Fold(w, j), k) == Fold(Fold(w, k), j)
  {}

  /** Each step of the way back doubles a shift until nothing but a shift by sixteen is left. */
  lemma {:induction false} UngrayGray(w: Bits)
    requires |w| == INT
    ensures Ungray(Gray(w)) == Fold(w, 16)
  {
    hide Fold;
    calc {
      Fold(Fold(Fold(Fold(Fold(w, 1), 8), 4), 2), 1);
      { FoldCommutes(w, 1, 8); }
      Fold(Fold(Fold(Fold(Fold(w, 8), 1), 4), 2), 1);
      { FoldCommutes(Fold(w, 8), 1, 4); }
      Fold(Fold(Fold(Fold(Fold(w, 8), 4), 1), 2), 1);
      { FoldCommutes(Fold(Fold(w, 8), 4), 1, 2); }
      Fold(Fold(Fold(Fold(Fold(w, 8), 4), 2), 1), 1);
      { FoldTwice(Fold(Fold(Fold(w, 8), 4), 2), 1); }
      Fold(Fold(Fold(Fold(w, 8), 4), 2), 2);
      { FoldTwice(Fold(Fold(w, 8), 4), 2); }
      Fold(Fold(Fold(w, 8), 4), 4);
      { FoldTwice(Fold(w, 8), 4); }
      Fold(Fold(w, 8), 8);
      { FoldTwice(w, 8); }
      Fold(w, 16);
    }
  }

  /** Gray code is undone exactly for values of at most sixteen bits. */
  lemma {:induction false} GrayInverse(w: Bits)
    requires |w| == INT
    ensures Ungray(Gray(w)) == w <==> Fits(w, 16)
  {
    hide Ungray, Gray, Fold, Fits;
    UngrayGray(w);
    FoldFixed(w);
  }

  /** b is a with one added: a zero followed by ones turns into a one followed by zeros. */
  ghost predicate Next(a: Bits, b: Bits, k: nat) {
    && |a| == |b| && k < |a| && a[..k] == b[..k] && !a[k] && b[k]
    && forall i | k < i < |a| :: a[i] && !b[i]
  }

  /** Neighbouring values have codes that differ in one bit. */
  lemma {:induction false} GrayNext(a: Bits, b: Bits, k: nat)
    requires |a| == INT && Next(a, b, k)
    ensures forall i | 0 <= i < INT :: Gray(a)[i] != Gray(b)[i] <==> i == k
  {
    assert forall i | 0 <= i < k :: a[i] == a[..k][i] == b[..k][i] == b[i];
  }

  lemma {:induction false} FoldFixed(w: Bits)
    requires |w| == INT
    ensures Fold(w, 16) == w <==> Fits(w, 16)
  {
    if Fits(w, 16) {
      forall i | 0 <= i < INT ensures Fold(w, 16)[i] == w[i] {
        assert i >= 16 ==> !w[i - 16];
      }
    } else {
      var i :| 0 <= i < 16 && w[i];
      assert Fold(w, 16)[i + 16] != w[i + 16];
    }
  }

  lemma GrayFits(w: Bits, width: nat)
    requires Fits(w, width)
    ensures Fits(Gray(w), width)
  {}

  // The bit string.

  /** Bit k of a row of bytes. */
  ghost predicate Bit(bytes: seq<Bits>, k: nat)
    requires k < BYTE * |bytes| && Bytes(bytes)
  {
    bytes[k / BYTE][k % BYTE]
  }

  ghost predicate Bytes(bytes: seq<Bits>) {
    forall i | 0 <= i < |bytes| :: |bytes[i]| == BYTE
  }

  function Min(a: nat, b: nat): nat {
    if a < b then a else b
  }

  /** The slice of a field that pack ors into a byte: the next sw of the fw bits still to go, left bits from the end. */
  function Slice(g: Bits, fw: nat, sw: nat, left: nat): (r: Bits)
    requires |g| == INT && sw <= fw <= INT && sw <= left <= BYTE
    ensures |r| == BYTE
  {
    ToByte(Shl(Shr(g, fw - sw), left - sw))
  }

  /** Bits of the field already sent do not come back: they are pushed out of the byte, or were zero. */
  lemma {:induction false} SliceIs(g: Bits, width: nat, fw: nat, sw: nat, left: nat, p: nat)
    requires Fits(g, width) && sw <= fw <= width && sw <= left <= BYTE && p < BYTE && (fw == width || left == BYTE)
    ensures Slice(g, fw, sw, left)[p] == (BYTE - left <= p < BYTE - left + sw && g[INT - fw + (p - (BYTE - left))])
  {
    var shifted := Shl(Shr(g, fw - sw), left - sw);
    assert Slice(g, fw, sw, left)[p] == shifted[INT - BYTE + p];
  }

  /** What a bit string holds after the first n bits of a field of the given width were or-ed in from bit i on. */
  ghost predicate Merged(before: seq<Bits>, after: seq<Bits>, i: nat, g: Bits, width: nat, n: nat) {
    && Bytes(before) && Bytes(after) && |before| == |after| && |g| == INT && n <= width <= INT
    && forall b, p | 0 <= b < |before| && 0 <= p < BYTE ::
         after[b][p] == (before[b][p] || Sends(i, g, width, n, BYTE * b + p))
  }

  /** Bit k of the string gets a one. */
  predicate Sends(i: nat, g: Bits, width: nat, n: nat, k: nat)
    requires |g| == INT && n <= width <= INT
  {
    i <= k < i + n && g[INT - width + (k - i)]
  }

  lemma {:induction false} MergeSlice(before: seq<Bits>, mid: seq<Bits>, i: nat, g: Bits, width: nat, n: nat, sw: nat,
                                      at: nat, off: nat)
    requires Merged(before, mid, i, g, width, n) && n < width && Fits(g, width) && i + width <= BYTE * |before|
    requires i + n == BYTE * at + off && off < BYTE && (n == 0 || off == 0) && sw == Min(BYTE - off, width - n)
    ensures at < |mid|
    ensures Merged(before, mid[at := Or(mid[at], Slice(g, width - n, sw, BYTE - off))], i, g, width, n + sw)
  {
    var slice := Slice(g, width - n, sw, BYTE - off);
    var after := mid[at := Or(mid[at], slice)];
    hide Slice, Or, Sends;
    forall b, p | 0 <= b < |before| && 0 <= p < BYTE
      ensures after[b][p] == (before[b][p] || Sends(i, g, width, n + sw, BYTE * b + p))
    {
      assert mid[b][p] == (before[b][p] || Sends(i, g, width, n, BYTE * b + p));
      SendsMore(i, g, width, n, sw, at, off, b, p);
    }
  }

  lemma {:induction false} SendsMore(i: nat, g: Bits, width: nat, n: nat, sw: nat, at: nat, off: nat, b: nat, p: nat)
    requires Fits(g, width) && n < width && p < BYTE
    requires i + n == BYTE * at + off && off < BYTE && (n == 0 || off == 0) && sw == Min(BYTE - off, width - n)
    ensures Sends(i, g, width, n + sw, BYTE * b + p)
            == (Sends(i, g, width, n, BYTE * b + p) || (b == at && Slice(g, width - n, sw, BYTE - off)[p]))
  {
    hide Slice;
    var k := BYTE * b + p;
    if b == at {
      SliceIs(g, width, width - n, sw, BYTE - off, p);
      assert k - i == n + (p - off);
    } else {
      assert !(i + n <= k < i + n + sw);
    }
  }

  /** pack */
  method Pack(bytes: array<Bits>, index: nat, field: Bits, width: nat) returns (index': nat)
    requires Bytes(bytes[..]) && Fits(field, width) && 1 <= width && index + width <= BYTE * bytes.Length
    modifies bytes
    ensures index' == index + width
    ensures Merged(old(bytes[..]), bytes[..], index, Gray(field), width, width)
  {
    hide Gray, Slice, Merged, Or;
    var g := Gray(field);
    GrayFits(field, width);
    index' := index;
    var fw: nat := width;
    MergedStart(bytes[..], index, g, width);
    while fw != 0
      invariant fw <= width && index' == index + (width - fw)
      invariant fw == width || index' % BYTE == 0 || fw == 0
      invariant Merged(old(bytes[..]), bytes[..], index, g, width, width - fw)
    {
      var left := BYTE - index' % BYTE;
      var sw := Min(left, fw);
      var at := index' / BYTE;
      MergeSlice(old(bytes[..]), bytes[..], index, g, width, width - fw, sw, at, index' % BYTE);
      MergedBytes(old(bytes[..]), bytes[..], index, g, width, width - fw);
      bytes[at] := Or(bytes[at], Slice(g, fw, sw, left));
      index' := index' + sw;
      fw := fw - sw;
    }
  }

  lemma MergedStart(bytes: seq<Bits>, i: nat, g: Bits, width: nat)
    requires Bytes(bytes) && |g| == INT && width <= INT
    ensures Merged(bytes, bytes, i, g, width, 0)
  {}

  lemma MergedBytes(before: seq<Bits>, after: seq<Bits>, i: nat, g: Bits, width: nat, n: nat)
    requires Merged(before, after, i, g, width, n)
    ensures Bytes(after) && |after| == |before|
  {}

  lemma MergedAt(before: seq<Bits>, after: seq<Bits>, i: nat, g: Bits, width: nat, n: nat, k: nat)
    requires Merged(before, after, i, g, width, n) && k < BYTE * |before|
    ensures Bit(after, k) == (Bit(before, k) || (i <= k < i + n && g[INT - width + (k - i)]))
  {
    assert k == BYTE * (k / BYTE) + k % BYTE;
  }

  /** The width bits of the string from i on, as an int. */
  ghost function Field(bytes: seq<Bits>, i: nat, width: nat): (r: Bits)
    requires Bytes(bytes) && width <= INT && i + width <= BYTE * |bytes|
    ensures |r| == INT
  {
    seq(INT, q requires 0 <= q < INT => q >= INT - width && Bit(bytes, i + (q - (INT - width))))
  }

  /** The slice unpack takes from a byte, at its place in the field. */
  function Taken(b: Bits, fw: nat, sw: nat, left: nat): (r: Bits)
    requires |b| == BYTE && sw <= fw <= INT && sw <= left <= BYTE
    ensures |r| == INT
  {
    Shl(And(Shr(ToInt(b), left - sw), LowOnes(sw)), fw - sw)
  }

  lemma {:induction false} TakenIs(b: Bits, fw: nat, sw: nat, left: nat, q: nat)
    requires |b| == BYTE && sw <= fw <= INT && sw <= left <= BYTE && q < INT
    ensures Taken(b, fw, sw, left)[q] == (INT - fw <= q < INT - fw + sw && b[BYTE - left + (q - (INT - fw))])
  {
    var x := Shr(ToInt(b), left - sw);
    var y := And(x, LowOnes(sw));
    assert Shl(y, fw - sw)[q] == (q + (fw - sw) < INT && y[q + (fw - sw)]);
    if q + (fw - sw) < INT && q + (fw - sw) >= INT - sw {
      assert y[q + (fw - sw)] == x[q + (fw - sw)];
    }
  }

  /** The first n of the width bits have been taken. */
  ghost predicate Gathered(bytes: seq<Bits>, i: nat, width: nat, n: nat, field: Bits) {
    && Bytes(bytes) && n <= width <= INT && i + width <= BYTE * |bytes| && |field| == INT
    && forall q | 0 <= q < INT ::
         field[q] == (INT - width <= q < INT - width + n && Bit(bytes, i + (q - (INT - width))))
  }

  lemma {:induction false} GatherSlice(bytes: seq<Bits>, i: nat, width: nat, n: nat, field: Bits, sw: nat, at: nat,
                                       off: nat)
    requires Gathered(bytes, i, width, n, field) && n < width
    requires i + n == BYTE * at + off && off < BYTE && sw == Min(BYTE - off, width - n)
    ensures at < |bytes| && Gathered(bytes, i, width, n + sw, Or(field, Taken(bytes[at], width - n, sw, BYTE - off)))
  {
    var taken := Taken(bytes[at], width - n, sw, BYTE - off);
    hide Taken, Bit;
    forall q | 0 <= q < INT
      ensures Or(field, taken)[q] == (INT - width <= q < INT - width + n + sw && Bit(bytes, i + (q - (INT - width))))
    {
      TakenBit(bytes, i, width, n, sw, at, off, q);
    }
  }

  /** What the slice adds to the field at place q. */
  lemma {:induction false} TakenBit(bytes: seq<Bits>, i: nat, width: nat, n: nat, sw: nat, at: nat, off: nat, q: nat)
    requires Bytes(bytes) && n < width <= INT && i + width <= BYTE * |bytes| && q < INT
    requires i + n == BYTE * at + off && off < BYTE && sw == Min(BYTE - off, width - n)
    ensures at < |bytes|
    ensures Taken(bytes[at], width - n, sw, BYTE - off)[q] ==
            (INT - width + n <= q < INT - width + n + sw && Bit(bytes, i + (q - (INT - width))))
  {
    hide Taken, Bit;
    TakenIs(bytes[at], width - n, sw, BYTE - off, q);
    if INT - width + n <= q < INT - width + n + sw {
      var p := off + (q - (INT - width + n));
      BitIs(bytes, at, p);
      assert BYTE * at + p == i + (q - (INT - width));
    }
  }

  lemma BitIs(bytes: seq<Bits>, b: nat, p: nat)
    requires Bytes(bytes) && b < |bytes| && p < BYTE
    ensures Bit(bytes, BYTE * b + p) == bytes[b][p]
  {}

  /** unpack */
  method Unpack(bytes: array<Bits>, index: nat, width: nat) returns (field: Bits, index': nat)
    requires Bytes(bytes[..]) && 1 <= width <= INT && index + width <= BYTE * bytes.Length
    ensures index' == index + width && field == Ungray(Field(bytes[..], index, width))
  {
    hide Ungray, Taken, Gathered, Or, Field;
    var f := Zeros(INT);
    index' := index;
    var fw: nat := width;
    GatheredStart(bytes[..], index, width, f);
    while fw != 0
      invariant fw <= width && index' == index + (width - fw)
      invariant |f| == INT && Gathered(bytes[..], index, width, width - fw, f)
    {
      var left := BYTE - index' % BYTE;
      var sw := Min(left, fw);
      var at := index' / BYTE;
      GatherSlice(bytes[..], index, width, width - fw, f, sw, at, index' % BYTE);
      f := Or(f, Taken(bytes[at], fw, sw, left));
      index' := index' + sw;
      fw := fw - sw;
    }
    GatheredAll(bytes[..], index, width, f);
    field := Ungray(f);
  }

  lemma GatheredStart(bytes: seq<Bits>, i: nat, width: nat, f: Bits)
    requires Bytes(bytes) && width <= INT && i + width <= BYTE * |bytes| && f == Zeros(INT)
    ensures Gathered(bytes, i, width, 0, f)
  {}

  lemma GatheredAll(bytes: seq<Bits>, i: nat, width: nat, f: Bits)
    requires Gathered(bytes, i, width, width, f)
    ensures f == Field(bytes, i, width)
  {}

  /** A field or-ed into clear bits is the field read there. */
  lemma {:induction false} FieldOfMerged(before: seq<Bits>, after: seq<Bits>, i: nat, g: Bits, width: nat)
    requires Merged(before, after, i, g, width, width) && Fits(g, width) && i + width <= BYTE * |before|
    requires forall k | i <= k < i + width :: !Bit(before, k)
    ensures Field(after, i, width) == g
  {
    forall q | 0 <= q < INT ensures Field(after, i, width)[q] == g[q] {
      if q >= INT - width {
        MergedAt(before, after, i, g, width, width, i + (q - (INT - width)));
      }
    }
  }

  /** Unpacking gives back what was packed, for fields of at most sixteen bits. */
  lemma {:induction false} PackUnpack(before: seq<Bits>, after: seq<Bits>, i: nat, field: Bits, width: nat)
    requires Fits(field, width) && width <= 16 && i + width <= BYTE * |before|
    requires Merged(before, after, i, Gray(field), width, width)
    requires forall k | i <= k < i + width :: !Bit(before, k)
    ensures Ungray(Field(after, i, width)) == field
  {
    GrayFits(field, width);
    hide Gray, Ungray, Field, Merged;
    FieldOfMerged(before, after, i, Gray(field), width);
    GrayInverse(field);
  }
}
