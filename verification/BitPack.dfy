/** The loops that take bytes apart into bits, most significant first, and put them together again. */
module BitPack {

  type Byte = bv8

  /** A one at place k. */
  function Mask(k: nat): Byte
    requires k < 8
  {
    1 << k
  }

  /** (b >> k) & 1 */
  predicate TestBit(b: Byte, k: nat)
    requires k < 8
  {
    b & Mask(k) != 0
  }

  /** Bit i of a row of bytes, the most significant bit of the first byte being bit 0. */
  predicate BitAt(p: seq<Byte>, i: nat)
    requires i < 8 * |p|
  {
    TestBit(p[i / 8], 7 - i % 8)
  }

  lemma MasksApart(j: nat, k: nat)
    requires j < 8 && k < 8 && j != k
    ensures Mask(j) & Mask(k) == 0
  {
    MaskValue(j);
    MaskValue(k);
  }

  lemma MaskIs()
    ensures Mask(0) == 0x01 && Mask(1) == 0x02 && Mask(2) == 0x04 && Mask(3) == 0x08
    ensures Mask(4) == 0x10 && Mask(5) == 0x20 && Mask(6) == 0x40 && Mask(7) == 0x80
  {}

  lemma MaskValue(k: nat)
    requires k < 8
    ensures Mask(k) == [0x01, 0x02, 0x04, 0x08, 0x10, 0x20, 0x40, 0x80][k]
  {
    MaskIs();
  }

  /** The order of the bits of a byte. */
  lemma BitOrder(b: Byte)
    ensures BitAt([b], 0) == (b & 0x80 != 0) && BitAt([b], 1) == (b & 0x40 != 0)
    ensures BitAt([b], 2) == (b & 0x20 != 0) && BitAt([b], 3) == (b & 0x10 != 0)
    ensures BitAt([b], 4) == (b & 0x08 != 0) && BitAt([b], 5) == (b & 0x04 != 0)
    ensures BitAt([b], 6) == (b & 0x02 != 0) && BitAt([b], 7) == (b & 0x01 != 0)
  {
    MaskIs();
    hide Mask;
  }

  lemma OrAnd(b: Byte, m: Byte, n: Byte)
    ensures m & n == 0 ==> (b | m) & n == b & n
    ensures (b | m) & m == m
  {}

  /** Or-ing a bit in leaves the others alone. */
  lemma SetBit(b: Byte, k: nat, j: nat)
    requires k < 8 && j < 8
    ensures TestBit(b | Mask(k), j) == (TestBit(b, j) || j == k)
  {
    OrAnd(b, Mask(k), Mask(j));
    if j != k {
      MasksApart(k, j);
    } else {
      MaskValue(k);
    }
  }

  lemma EightBits(a: Byte, b: Byte)
    requires (a & 0x01 != 0) == (b & 0x01 != 0) && (a & 0x02 != 0) == (b & 0x02 != 0)
    requires (a & 0x04 != 0) == (b & 0x04 != 0) && (a & 0x08 != 0) == (b & 0x08 != 0)
    requires (a & 0x10 != 0) == (b & 0x10 != 0) && (a & 0x20 != 0) == (b & 0x20 != 0)
    requires (a & 0x40 != 0) == (b & 0x40 != 0) && (a & 0x80 != 0) == (b & 0x80 != 0)
    ensures a == b
  {}

  /** Eight bits make a byte. */
  lemma SameByte(a: Byte, b: Byte)
    requires forall k | 0 <= k < 8 :: TestBit(a, k) == TestBit(b, k)
    ensures a == b
  {
    MaskIs();
    hide Mask;
    assert TestBit(a, 0) == TestBit(b, 0) && TestBit(a, 1) == TestBit(b, 1);
    assert TestBit(a, 2) == TestBit(b, 2) && TestBit(a, 3) == TestBit(b, 3);
    assert TestBit(a, 4) == TestBit(b, 4) && TestBit(a, 5) == TestBit(b, 5);
    assert TestBit(a, 6) == TestBit(b, 6) && TestBit(a, 7) == TestBit(b, 7);
    EightBits(a, b);
  }

  lemma {:induction false} SameBytes(p: seq<Byte>, q: seq<Byte>)
    requires |p| == |q| && forall i | 0 <= i < 8 * |p| :: BitAt(p, i) == BitAt(q, i)
    ensures p == q
  {
    forall n | 0 <= n < |p| ensures p[n] == q[n] {
      forall k | 0 <= k < 8 ensures TestBit(p[n], k) == TestBit(q[n], k) {
        assert BitAt(p, 8 * n + (7 - k)) == BitAt(q, 8 * n + (7 - k));
      }
      SameByte(p[n], q[n]);
    }
  }

  /** The bits of a row of bytes. */
  function Bits(p: seq<Byte>): (bits: seq<bool>)
    ensures |bits| == 8 * |p| && forall i | 0 <= i < |bits| :: bits[i] == BitAt(p, i)
  {
    seq(8 * |p|, i requires 0 <= i < 8 * |p| => BitAt(p, i))
  }

  /** Unpack m bits with a byte and a bit counter. */
  method Unpack(packed: array<Byte>, m: nat) returns (bits: array<bool>)
    requires m == 8 * packed.Length
    ensures fresh(bits) && bits[..] == Bits(packed[..])
  {
    bits := new bool[m];
    hide Mask;
    var bit, byte := 7, 0;
    for i := 0 to m
      modifies bits
      invariant byte == i / 8 && bit == 7 - i % 8
      invariant forall j | 0 <= j < i :: bits[j] == BitAt(packed[..], j)
    {
      bits[i] := packed[byte] & Mask(bit) != 0;
      bit := bit - 1;
      if bit < 0 {
        bit, byte := 7, byte + 1;
      }
    }
  }

  /** Clear the bytes and or the bits in, with a byte and a bit counter. */
  method Pack(bits: seq<bool>, packed: array<Byte>)
    requires |bits| == 8 * packed.Length
    modifies packed
    ensures Bits(packed[..]) == bits
  {
    var n := packed.Length;
    for byte := 0 to n
      invariant forall j | 0 <= j < byte :: packed[j] == 0
    {
      packed[byte] := 0;
    }
    NoBits(packed[..]);
    var bit, byte := 7, 0;
    for i := 0 to |bits|
      invariant byte == i / 8 && bit == 7 - i % 8
      invariant forall j | 0 <= j < |bits| :: BitAt(packed[..], j) == (j < i && bits[j])
    {
      ghost var before := packed[..];
      if bits[i] {
        packed[byte] := packed[byte] | Mask(bit);
      }
      Stored(before, packed[..], i, bits[i]);
      bit := bit - 1;
      if bit < 0 {
        bit, byte := 7, byte + 1;
      }
    }
  }

  lemma NoBits(p: seq<Byte>)
    requires forall j | 0 <= j < |p| :: p[j] == 0
    ensures forall i | 0 <= i < 8 * |p| :: !BitAt(p, i)
  {}

  lemma {:induction false} Stored(p: seq<Byte>, q: seq<Byte>, i: nat, x: bool)
    requires i < 8 * |p| && q == if x then p[i / 8 := p[i / 8] | Mask(7 - i % 8)] else p
    ensures forall j | 0 <= j < 8 * |p| :: BitAt(q, j) == (BitAt(p, j) || (j == i && x))
  {
    forall j | 0 <= j < 8 * |p| ensures BitAt(q, j) == (BitAt(p, j) || (j == i && x)) {
      if x && j / 8 == i / 8 {
        SetBit(p[i / 8], 7 - i % 8, 7 - j % 8);
      }
    }
  }

  /** Packing undoes unpacking. */
  lemma {:induction false} BitsDetermine(p: seq<Byte>, q: seq<Byte>)
    requires Bits(p) == Bits(q)
    ensures p == q
  {
    forall i | 0 <= i < 8 * |p| ensures BitAt(p, i) == BitAt(q, i) {
      assert Bits(p)[i] == Bits(q)[i];
    }
    SameBytes(p, q);
  }
}
