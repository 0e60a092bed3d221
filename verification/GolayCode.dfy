/** The (23,12) Golay code of golay23.c. A word is the bits of an int, most significant first:
    the coefficients of a polynomial over GF(2), from the highest power down. */
module GolayCode {

  import opened BitWords

  lemma XorLaws(a: Bits, b: Bits)
    requires |a| == |b|
    ensures Xor(a, b) == Xor(b, a)
    ensures Xor(Xor(a, b), b) == a
    ensures Xor(a, Zeros(|a|)) == a
    ensures Xor(a, b) == Zeros(|a|) <==> a == b
  {
    assert Xor(a, b) == Zeros(|a|) ==> forall i | 0 <= i < |a| :: a[i] == b[i];
  }

  lemma XorAssoc(a: Bits, b: Bits, c: Bits)
    requires |a| == |b| == |c|
    ensures Xor(Xor(a, b), c) == Xor(a, Xor(b, c))
  {}

  // ----- codewords

  /** g(x) = 0xc75 */
  const GENPOL: Bits := [true, true, false, false, false, true, true, true, false, true, false, true]

  /** g(x) moved up so that its leading term meets bit i of a word. */
  function GenAt(i: nat): (g: Bits)
    requires i < 12
    ensures |g| == 23 && g[i] && forall j | 0 <= j < i :: !g[j]
  {
    Zeros(i) + GENPOL + Zeros(11 - i)
  }

  /** The product of g(x) with the quotient bits q[i..]. */
  function MultipleFrom(q: Bits, i: nat): (c: Bits)
    requires |q| == 12 && i <= 12
    ensures |c| == 23 && forall j | 0 <= j < i :: !c[j]
    decreases 12 - i
  {
    if i == 12 then Zeros(23)
    else if q[i] then Xor(GenAt(i), MultipleFrom(q, i + 1))
    else MultipleFrom(q, i + 1)
  }

  /** The codewords: the multiples of the generator polynomial. */
  ghost predicate IsCodeword(c: Bits) {
    exists q: Bits :: |q| == 12 && c == MultipleFrom(q, 0)
  }

  // ----- the remainder

  /** Polynomial division from bit i on: cancel each leading term with g(x). */
  function Reduce(p: Bits, i: nat): (r: Bits)
    requires |p| == 23 && i <= 12
    ensures |r| == 23
    decreases 12 - i
  {
    if i == 12 then p else Reduce(if p[i] then Xor(p, GenAt(i)) else p, i + 1)
  }

  /** The remainder of a word modulo g(x). */
  function Syn(p: Bits): (s: Bits)
    requires |p| == 23
    ensures |s| == 11
  {
    Reduce(p, 0)[12..]
  }

  lemma {:induction false} ReduceLinear(a: Bits, b: Bits, i: nat)
    requires |a| == |b| == 23 && i <= 12
    ensures Reduce(Xor(a, b), i) == Xor(Reduce(a, i), Reduce(b, i))
    decreases 12 - i
  {
    if i < 12 {
      var g := GenAt(i);
      var a', b' := if a[i] then Xor(a, g) else a, if b[i] then Xor(b, g) else b;
      hide GenAt;
      assert Xor(a', b') == if Xor(a, b)[i] then Xor(Xor(a, b), g) else Xor(a, b);
      ReduceLinear(a', b', i + 1);
    }
  }

  lemma SynLinear(a: Bits, b: Bits)
    requires |a| == |b| == 23
    ensures Syn(Xor(a, b)) == Xor(Syn(a), Syn(b))
  {
    ReduceLinear(a, b, 0);
  }

  /** Division clears the twelve leading bits. */
  lemma {:induction false} ReduceClears(p: Bits, i: nat)
    requires |p| == 23 && i <= 12 && forall j | 0 <= j < i :: !p[j]
    ensures forall j | 0 <= j < 12 :: !Reduce(p, i)[j]
    decreases 12 - i
  {
    if i < 12 {
      ReduceClears(if p[i] then Xor(p, GenAt(i)) else p, i + 1);
    }
  }

  /** A word without leading bits is its own remainder. */
  lemma {:induction false} ReduceSmall(p: Bits, i: nat)
    requires |p| == 23 && i <= 12 && forall j | 0 <= j < 12 :: !p[j]
    ensures Reduce(p, i) == p
    decreases 12 - i
  {
    if i < 12 {
      ReduceSmall(p, i + 1);
    }
  }

  /** What division subtracts is a multiple of g(x). */
  lemma {:induction false} ReduceQuotient(p: Bits, i: nat, q: Bits) returns (q': Bits)
    requires |p| == 23 && i <= 12 && |q| == 12
    ensures |q'| == 12 && forall j | 0 <= j < i :: q'[j] == q[j]
    ensures Xor(Reduce(p, i), MultipleFrom(q', i)) == p
    decreases 12 - i
  {
    if i == 12 {
      q' := q;
      XorLaws(p, p);
    } else {
      var g := GenAt(i);
      var p' := if p[i] then Xor(p, g) else p;
      q' := ReduceQuotient(p', i + 1, q[i := p[i]]);
      hide GenAt;
      if p[i] {
        var r, m := Reduce(p', i + 1), MultipleFrom(q', i + 1);
        XorAssoc(r, m, g);
        XorLaws(m, g);
        XorLaws(p, g);
      }
    }
  }

  lemma {:induction false} ReduceMultiple(q: Bits, i: nat)
    requires |q| == 12 && i <= 12
    ensures Reduce(MultipleFrom(q, i), i) == Zeros(23)
    decreases 12 - i
  {
    if i < 12 {
      ReduceMultiple(q, i + 1);
      var g, m := GenAt(i), MultipleFrom(q, i + 1);
      hide GenAt;
      if q[i] {
        XorLaws(m, g);
        XorLaws(g, m);
      }
    }
  }

  /** The codewords are the words without remainder. */
  lemma {:induction false} CodewordSyn(c: Bits)
    requires |c| == 23
    ensures IsCodeword(c) <==> Syn(c) == Zeros(11)
  {
    hide MultipleFrom, Reduce;
    if IsCodeword(c) {
      var q: Bits :| |q| == 12 && c == MultipleFrom(q, 0);
      ReduceMultiple(q, 0);
    }
    if Syn(c) == Zeros(11) {
      ReduceClears(c, 0);
      var r := Reduce(c, 0);
      assert r == Zeros(23) by {
        assert forall j | 12 <= j < 23 :: r[j] == Syn(c)[j - 12];
      }
      var q := ReduceQuotient(c, 0, Zeros(12));
      XorLaws(r, MultipleFrom(q, 0));
      XorLaws(MultipleFrom(q, 0), r);
    }
  }

  // ----- weight

  /** Number of ones among the first k bits. */
  function Count(p: Bits, k: nat): nat
    requires k <= |p|
  {
    if k == 0 then 0 else Count(p, k - 1) + if p[k - 1] then 1 else 0
  }

  /** Hamming weight. */
  function Weight(p: Bits): nat {
    Count(p, |p|)
  }

  lemma {:induction false} CountXor(a: Bits, b: Bits, k: nat)
    requires |a| == |b| && k <= |a|
    ensures Count(Xor(a, b), k) <= Count(a, k) + Count(b, k)
  {
    if k != 0 {
      CountXor(a, b, k - 1);
    }
  }

  lemma {:induction false} CountZero(p: Bits, k: nat)
    requires k <= |p|
    ensures Count(p, k) == 0 <==> forall j | 0 <= j < k :: !p[j]
  {
    if k != 0 {
      CountZero(p, k - 1);
    }
  }

  lemma {:induction false} CountMono(p: Bits, j: nat, k: nat)
    requires j <= k <= |p|
    ensures Count(p, j) <= Count(p, k) <= Count(p, j) + (k - j)
  {
    if j < k {
      CountMono(p, j, k - 1);
    }
  }

  // ----- minimum distance

  /** Bit t of a word as a one-bit number. */
  function At(c: Bits, t: nat): bv1
    requires t < |c|
  {
    if c[t] then 1 else 0
  }

  /** What quotient bit i contributes to bit t of the product. */
  function Coefficient(q: Bits, i: nat, t: nat): bv1
    requires |q| == 12 && i < 12
  {
    if i <= t <= i + 11 && GENPOL[t - i] then At(q, i) else 0
  }

  /** The sum of the contributions of q[i..]. */
  function Convolve(q: Bits, i: nat, t: nat): bv1
    requires |q| == 12 && i <= 12
    decreases 12 - i
  {
    if i == 12 then 0 else Coefficient(q, i, t) ^ Convolve(q, i + 1, t)
  }

  lemma MultipleAt(q: Bits, i: nat, t: nat)
    requires |q| == 12 && i < 12 && t < 23
    ensures At(MultipleFrom(q, i), t) == Coefficient(q, i, t) ^ At(MultipleFrom(q, i + 1), t)
  {}

  lemma {:induction false} MultipleBit(q: Bits, i: nat, t: nat)
    requires |q| == 12 && i <= 12 && t < 23
    ensures At(MultipleFrom(q, i), t) == Convolve(q, i, t)
    decreases 12 - i
  {
    hide Coefficient;
    if i < 12 {
      MultipleBit(q, i + 1, t);
      MultipleAt(q, i, t);
      hide At;
    }
  }

  /** The 23 bits c of q(x) * g(x), written out. */
  ghost predicate Product(q: Bits, c: Bits)
    requires |q| == 12 && |c| == 23
  {
    && At(c, 0) == At(q, 0)
    && At(c, 1) == At(q, 1) ^ At(q, 0)
    && At(c, 2) == At(q, 2) ^ At(q, 1)
    && At(c, 3) == At(q, 3) ^ At(q, 2)
    && At(c, 4) == At(q, 4) ^ At(q, 3)
    && At(c, 5) == At(q, 5) ^ At(q, 4) ^ At(q, 0)
    && At(c, 6) == At(q, 6) ^ At(q, 5) ^ At(q, 1) ^ At(q, 0)
    && At(c, 7) == At(q, 7) ^ At(q, 6) ^ At(q, 2) ^ At(q, 1) ^ At(q, 0)
    && At(c, 8) == At(q, 8) ^ At(q, 7) ^ At(q, 3) ^ At(q, 2) ^ At(q, 1)
    && At(c, 9) == At(q, 9) ^ At(q, 8) ^ At(q, 4) ^ At(q, 3) ^ At(q, 2) ^ At(q, 0)
    && At(c, 10) == At(q, 10) ^ At(q, 9) ^ At(q, 5) ^ At(q, 4) ^ At(q, 3) ^ At(q, 1)
    && At(c, 11) == At(q, 11) ^ At(q, 10) ^ At(q, 6) ^ At(q, 5) ^ At(q, 4) ^ At(q, 2) ^ At(q, 0)
    && At(c, 12) == At(q, 11) ^ At(q, 7) ^ At(q, 6) ^ At(q, 5) ^ At(q, 3) ^ At(q, 1)
    && At(c, 13) == At(q, 8) ^ At(q, 7) ^ At(q, 6) ^ At(q, 4) ^ At(q, 2)
    && At(c, 14) == At(q, 9) ^ At(q, 8) ^ At(q, 7) ^ At(q, 5) ^ At(q, 3)
    && At(c, 15) == At(q, 10) ^ At(q, 9) ^ At(q, 8) ^ At(q, 6) ^ At(q, 4)
    && At(c, 16) == At(q, 11) ^ At(q, 10) ^ At(q, 9) ^ At(q, 7) ^ At(q, 5)
    && At(c, 17) == At(q, 11) ^ At(q, 10) ^ At(q, 8) ^ At(q, 6)
    && At(c, 18) == At(q, 11) ^ At(q, 9) ^ At(q, 7)
    && At(c, 19) == At(q, 10) ^ At(q, 8)
    && At(c, 20) == At(q, 11) ^ At(q, 9)
    && At(c, 21) == At(q, 10)
    && At(c, 22) == At(q, 11)
  }

  function Four(a: bv1, b: bv1, c: bv1, d: bv1): bv5 {
    (a as bv5) + (b as bv5) + (c as bv5) + (d as bv5)
  }

  /** How many of the twelve data bits are set. */
  function Top(c: Bits): bv5
    requires |c| == 23
  {
    Four(At(c, 0), At(c, 1), At(c, 2), At(c, 3)) + Four(At(c, 4), At(c, 5), At(c, 6), At(c, 7))
      + Four(At(c, 8), At(c, 9), At(c, 10), At(c, 11))
  }

  /** How many of the eleven parity bits are set. */
  function Low(c: Bits): bv5
    requires |c| == 23
  {
    Four(At(c, 12), At(c, 13), At(c, 14), At(c, 15)) + Four(At(c, 16), At(c, 17), At(c, 18), At(c, 19))
      + Four(At(c, 20), At(c, 21), At(c, 22), 0)
  }

  /** The finite search, for words with few parity bits and for words with few data bits. */
  lemma Heavy0(q: Bits, c: Bits)
    requires |q| == 12 && |c| == 23 && Product(q, c) && Low(c) == 0 && Top(c) >= 1
    ensures Top(c) >= 7
  {
    hide At;
  }

  lemma Heavy1(q: Bits, c: Bits)
    requires |q| == 12 && |c| == 23 && Product(q, c) && Low(c) == 1 && Top(c) >= 1
    ensures Top(c) >= 6
  {
    hide At;
  }

  lemma Heavy2(q: Bits, c: Bits)
    requires |q| == 12 && |c| == 23 && Product(q, c) && Low(c) == 2 && Top(c) >= 1
    ensures Top(c) >= 5
  {
    hide At;
  }

  lemma Heavy3(q: Bits, c: Bits)
    requires |q| == 12 && |c| == 23 && Product(q, c) && 3 <= Low(c) <= 5 && Top(c) <= 3
    ensures Top(c) + Low(c) >= 7
  {
    hide At;
  }

  /** A natural number below 32, counted up. */
  function Small(n: nat): bv5 {
    if n == 0 then 0 else Small(n - 1) + 1
  }

  lemma SmallValues(n: nat)
    requires n <= 6
    ensures n <= 2 ==> Small(n) <= 2
    ensures Small(n) == if n == 0 then 0 else if n == 1 then 1 else if n == 2 then 2 else if n == 3 then 3
                        else if n == 4 then 4 else if n == 5 then 5 else 6
  {
    assert Small(0) == 0 && Small(1) == 1 && Small(2) == 2 && Small(3) == 3 && Small(4) == 4 && Small(5) == 5
           && Small(6) == 6;
  }

  lemma SmallSum(t: nat, l: nat)
    requires 0 < t && t + l <= 6
    ensures 1 <= Small(t) <= 6 && Small(t) + Small(l) <= 6 && Small(l) <= 6
    ensures if l <= 2 then Small(l) == (if l == 0 then 0 else if l == 1 then 1 else 2)
            else 3 <= Small(l) <= 5 && Small(t) <= 3
  {
    SmallValues(t);
    SmallValues(l);
    hide Small;
  }

  lemma {:induction false} SmallAdd(x: nat, y: nat)
    ensures Small(x) + Small(y) == Small(x + y)
  {
    if y != 0 {
      SmallAdd(x, y - 1);
      assert Small(x + y) == Small(x + y - 1) + 1;
    }
  }

  lemma FourIs(c: Bits, a: nat, d: bv1)
    requires a + 3 <= |c| && (if a + 4 <= |c| then d == At(c, a + 3) else d == 0)
    ensures var k := if a + 4 <= |c| then a + 4 else a + 3;
            && Count(c, a) <= Count(c, k)
            && Four(At(c, a), At(c, a + 1), At(c, a + 2), d) == Small(Count(c, k) - Count(c, a))
  {
    SmallValues(0);
    SmallValues(1);
    SmallValues(2);
    SmallValues(3);
    SmallValues(4);
    assert Count(c, a + 3) == Count(c, a) + (if c[a] then 1 else 0) + (if c[a + 1] then 1 else 0)
           + (if c[a + 2] then 1 else 0) by {
      assert Count(c, a + 1) == Count(c, a) + if c[a] then 1 else 0;
      assert Count(c, a + 2) == Count(c, a + 1) + if c[a + 1] then 1 else 0;
    }
    hide Small;
  }

  lemma Sum3(a: bv5, b: bv5, c: bv5, s: bv5, t: bv5)
    requires a + b == s && s + c == t
    ensures a + b + c == t
  {}

  lemma {:induction false} TopIs(c: Bits)
    requires |c| == 23
    ensures Top(c) == Small(Count(c, 12))
  {
    FourIs(c, 0, At(c, 3));
    FourIs(c, 4, At(c, 7));
    FourIs(c, 8, At(c, 11));
    assert Count(c, 0) == 0;
    hide Four, Small, Count, At;
    SmallAdd(Count(c, 4), Count(c, 8) - Count(c, 4));
    SmallAdd(Count(c, 8), Count(c, 12) - Count(c, 8));
    Sum3(Four(At(c, 0), At(c, 1), At(c, 2), At(c, 3)), Four(At(c, 4), At(c, 5), At(c, 6), At(c, 7)),
         Four(At(c, 8), At(c, 9), At(c, 10), At(c, 11)), Small(Count(c, 8)), Small(Count(c, 12)));
  }

  lemma {:induction false} LowIs(c: Bits)
    requires |c| == 23
    ensures Count(c, 12) <= Count(c, 23) && Low(c) == Small(Count(c, 23) - Count(c, 12))
  {
    FourIs(c, 12, At(c, 15));
    FourIs(c, 16, At(c, 19));
    FourIs(c, 20, 0);
    hide Four, Small, Count, At;
    SmallAdd(Count(c, 16) - Count(c, 12), Count(c, 20) - Count(c, 16));
    SmallAdd(Count(c, 20) - Count(c, 12), Count(c, 23) - Count(c, 20));
    Sum3(Four(At(c, 12), At(c, 13), At(c, 14), At(c, 15)), Four(At(c, 16), At(c, 17), At(c, 18), At(c, 19)),
         Four(At(c, 20), At(c, 21), At(c, 22), 0), Small(Count(c, 20) - Count(c, 12)),
         Small(Count(c, 23) - Count(c, 12)));
  }

  lemma {:induction false} ProductBits0(q: Bits)
    requires |q| == 12
    ensures var c := MultipleFrom(q, 0);
            && At(c, 0) == At(q, 0)
            && At(c, 1) == At(q, 1) ^ At(q, 0)
            && At(c, 2) == At(q, 2) ^ At(q, 1)
            && At(c, 3) == At(q, 3) ^ At(q, 2)
  {
    hide MultipleFrom, At;
    MultipleBit(q, 0, 0);
    assert Convolve(q, 6, 0) == 0;
    assert Convolve(q, 0, 0) == At(q, 0);
    MultipleBit(q, 0, 1);
    assert Convolve(q, 6, 1) == 0;
    assert Convolve(q, 0, 1) == At(q, 1) ^ At(q, 0);
    MultipleBit(q, 0, 2);
    assert Convolve(q, 6, 2) == 0;
    assert Convolve(q, 0, 2) == At(q, 2) ^ At(q, 1);
    MultipleBit(q, 0, 3);
    assert Convolve(q, 6, 3) == 0;
    assert Convolve(q, 0, 3) == At(q, 3) ^ At(q, 2);
  }

  lemma {:induction false} ProductBits4(q: Bits)
    requires |q| == 12
    ensures var c := MultipleFrom(q, 0);
            && At(c, 4) == At(q, 4) ^ At(q, 3)
            && At(c, 5) == At(q, 5) ^ At(q, 4) ^ At(q, 0)
            && At(c, 6) == At(q, 6) ^ At(q, 5) ^ At(q, 1) ^ At(q, 0)
  {
    hide MultipleFrom, At;
    MultipleBit(q, 0, 4);
    assert Convolve(q, 6, 4) == 0;
    assert Convolve(q, 0, 4) == At(q, 4) ^ At(q, 3);
    MultipleBit(q, 0, 5);
    assert Convolve(q, 6, 5) == 0;
    assert Convolve(q, 0, 5) == At(q, 5) ^ At(q, 4) ^ At(q, 0);
    MultipleBit(q, 0, 6);
    assert Convolve(q, 6, 6) == At(q, 6);
    assert Convolve(q, 0, 6) == At(q, 6) ^ At(q, 5) ^ At(q, 1) ^ At(q, 0);
  }

  lemma {:induction false} ProductBits7(q: Bits)
    requires |q| == 12
    ensures var c := MultipleFrom(q, 0);
            && At(c, 7) == At(q, 7) ^ At(q, 6) ^ At(q, 2) ^ At(q, 1) ^ At(q, 0)
            && At(c, 8) == At(q, 8) ^ At(q, 7) ^ At(q, 3) ^ At(q, 2) ^ At(q, 1)
  {
    hide MultipleFrom, At;
    MultipleBit(q, 0, 7);
    assert Convolve(q, 6, 7) == At(q, 7) ^ At(q, 6);
    assert Convolve(q, 0, 7) == At(q, 7) ^ At(q, 6) ^ At(q, 2) ^ At(q, 1) ^ At(q, 0);
    MultipleBit(q, 0, 8);
    assert Convolve(q, 6, 8) == At(q, 8) ^ At(q, 7);
    assert Convolve(q, 0, 8) == At(q, 8) ^ At(q, 7) ^ At(q, 3) ^ At(q, 2) ^ At(q, 1);
  }

  lemma {:induction false} ProductBits9(q: Bits)
    requires |q| == 12
    ensures var c := MultipleFrom(q, 0);
            && At(c, 9) == At(q, 9) ^ At(q, 8) ^ At(q, 4) ^ At(q, 3) ^ At(q, 2) ^ At(q, 0)
            && At(c, 10) == At(q, 10) ^ At(q, 9) ^ At(q, 5) ^ At(q, 4) ^ At(q, 3) ^ At(q, 1)
  {
    hide MultipleFrom, At;
    MultipleBit(q, 0, 9);
    assert Convolve(q, 6, 9) == At(q, 9) ^ At(q, 8);
    assert Convolve(q, 0, 9) == At(q, 9) ^ At(q, 8) ^ At(q, 4) ^ At(q, 3) ^ At(q, 2) ^ At(q, 0);
    MultipleBit(q, 0, 10);
    assert Convolve(q, 6, 10) == At(q, 10) ^ At(q, 9);
    assert Convolve(q, 0, 10) == At(q, 10) ^ At(q, 9) ^ At(q, 5) ^ At(q, 4) ^ At(q, 3) ^ At(q, 1);
  }

  lemma {:induction false} ProductBits11(q: Bits)
    requires |q| == 12
    ensures var c := MultipleFrom(q, 0);
            && At(c, 11) == At(q, 11) ^ At(q, 10) ^ At(q, 6) ^ At(q, 5) ^ At(q, 4) ^ At(q, 2) ^ At(q, 0)
            && At(c, 12) == At(q, 11) ^ At(q, 7) ^ At(q, 6) ^ At(q, 5) ^ At(q, 3) ^ At(q, 1)
  {
    hide MultipleFrom, At;
    MultipleBit(q, 0, 11);
    assert Convolve(q, 6, 11) == At(q, 11) ^ At(q, 10) ^ At(q, 6);
    assert Convolve(q, 0, 11) == At(q, 11) ^ At(q, 10) ^ At(q, 6) ^ At(q, 5) ^ At(q, 4) ^ At(q, 2) ^ At(q, 0);
    MultipleBit(q, 0, 12);
    assert Convolve(q, 6, 12) == At(q, 11) ^ At(q, 7) ^ At(q, 6);
    assert Convolve(q, 0, 12) == At(q, 11) ^ At(q, 7) ^ At(q, 6) ^ At(q, 5) ^ At(q, 3) ^ At(q, 1);
  }

  lemma {:induction false} ProductBits13(q: Bits)
    requires |q| == 12
    ensures var c := MultipleFrom(q, 0);
            && At(c, 13) == At(q, 8) ^ At(q, 7) ^ At(q, 6) ^ At(q, 4) ^ At(q, 2)
            && At(c, 14) == At(q, 9) ^ At(q, 8) ^ At(q, 7) ^ At(q, 5) ^ At(q, 3)
            && At(c, 15) == At(q, 10) ^ At(q, 9) ^ At(q, 8) ^ At(q, 6) ^ At(q, 4)
  {
    hide MultipleFrom, At;
    MultipleBit(q, 0, 13);
    assert Convolve(q, 6, 13) == At(q, 8) ^ At(q, 7) ^ At(q, 6);
    assert Convolve(q, 0, 13) == At(q, 8) ^ At(q, 7) ^ At(q, 6) ^ At(q, 4) ^ At(q, 2);
    MultipleBit(q, 0, 14);
    assert Convolve(q, 6, 14) == At(q, 9) ^ At(q, 8) ^ At(q, 7);
    assert Convolve(q, 0, 14) == At(q, 9) ^ At(q, 8) ^ At(q, 7) ^ At(q, 5) ^ At(q, 3);
    MultipleBit(q, 0, 15);
    assert Convolve(q, 6, 15) == At(q, 10) ^ At(q, 9) ^ At(q, 8) ^ At(q, 6);
    assert Convolve(q, 0, 15) == At(q, 10) ^ At(q, 9) ^ At(q, 8) ^ At(q, 6) ^ At(q, 4);
  }

  lemma {:induction false} ProductBits16(q: Bits)
    requires |q| == 12
    ensures var c := MultipleFrom(q, 0);
            && At(c, 16) == At(q, 11) ^ At(q, 10) ^ At(q, 9) ^ At(q, 7) ^ At(q, 5)
            && At(c, 17) == At(q, 11) ^ At(q, 10) ^ At(q, 8) ^ At(q, 6)
            && At(c, 18) == At(q, 11) ^ At(q, 9) ^ At(q, 7)
  {
    hide MultipleFrom, At;
    MultipleBit(q, 0, 16);
    assert Convolve(q, 6, 16) == At(q, 11) ^ At(q, 10) ^ At(q, 9) ^ At(q, 7);
    assert Convolve(q, 0, 16) == At(q, 11) ^ At(q, 10) ^ At(q, 9) ^ At(q, 7) ^ At(q, 5);
    MultipleBit(q, 0, 17);
    assert Convolve(q, 6, 17) == At(q, 11) ^ At(q, 10) ^ At(q, 8) ^ At(q, 6);
    assert Convolve(q, 0, 17) == At(q, 11) ^ At(q, 10) ^ At(q, 8) ^ At(q, 6);
    MultipleBit(q, 0, 18);
    assert Convolve(q, 6, 18) == At(q, 11) ^ At(q, 9) ^ At(q, 7);
    assert Convolve(q, 0, 18) == At(q, 11) ^ At(q, 9) ^ At(q, 7);
  }

  lemma {:induction false} ProductBits19(q: Bits)
    requires |q| == 12
    ensures var c := MultipleFrom(q, 0);
            && At(c, 19) == At(q, 10) ^ At(q, 8)
            && At(c, 20) == At(q, 11) ^ At(q, 9)
            && At(c, 21) == At(q, 10)
            && At(c, 22) == At(q, 11)
  {
    hide MultipleFrom, At;
    MultipleBit(q, 0, 19);
    assert Convolve(q, 6, 19) == At(q, 10) ^ At(q, 8);
    assert Convolve(q, 0, 19) == At(q, 10) ^ At(q, 8);
    MultipleBit(q, 0, 20);
    assert Convolve(q, 6, 20) == At(q, 11) ^ At(q, 9);
    assert Convolve(q, 0, 20) == At(q, 11) ^ At(q, 9);
    MultipleBit(q, 0, 21);
    assert Convolve(q, 6, 21) == At(q, 10);
    assert Convolve(q, 0, 21) == At(q, 10);
    MultipleBit(q, 0, 22);
    assert Convolve(q, 6, 22) == At(q, 11);
    assert Convolve(q, 0, 22) == At(q, 11);
  }


  /** Bits of a product are sums of quotient bits. */
  lemma {:induction false} ProductBits(q: Bits)
    requires |q| == 12
    ensures var c := MultipleFrom(q, 0);
            Product(q, c)
  {
    hide MultipleFrom, At;
    ProductBits0(q); ProductBits4(q); ProductBits7(q); ProductBits9(q); ProductBits11(q); ProductBits13(q);
    ProductBits16(q); ProductBits19(q);
  }

  /** A light product has no data bits. */
  lemma {:induction false} LightProduct(q: Bits, t: nat, l: nat)
    requires |q| == 12 && Count(MultipleFrom(q, 0), 12) == t > 0 && Count(MultipleFrom(q, 0), 23) == t + l
    ensures t + l >= 7
  {
    hide *;
    var c := MultipleFrom(q, 0);
    if t + l <= 6 {
      TopIs(c);
      LowIs(c);
      SmallSum(t, l);
      ProductBits(q);
      if l == 0 {
        Heavy0(q, c);
      } else if l == 1 {
        Heavy1(q, c);
      } else if l == 2 {
        Heavy2(q, c);
      } else {
        Heavy3(q, c);
      }
    }
  }

  /** A codeword other than zero has weight at least seven. */
  lemma {:induction false} MinDistance(c: Bits)
    requires |c| == 23 && IsCodeword(c) && c != Zeros(23)
    ensures Weight(c) >= 7
  {
    var q: Bits :| |q| == 12 && c == MultipleFrom(q, 0);
    TopNonzero(c);
    CountMono(c, 12, 23);
    hide MultipleFrom, Count;
    LightProduct(q, Count(c, 12), Count(c, 23) - Count(c, 12));
  }

  lemma {:induction false} TopNonzero(c: Bits)
    requires |c| == 23 && IsCodeword(c) && c != Zeros(23)
    ensures Count(c, 12) > 0
  {
    CountZero(c, 12);
    if Count(c, 12) == 0 {
      CodewordSyn(c);
      ReduceSmall(c, 0);
      SmallZero(c);
    }
  }

  lemma SmallZero(c: Bits)
    requires |c| == 23 && (forall j | 0 <= j < 12 :: !c[j]) && c[12..] == Zeros(11)
    ensures c == Zeros(23)
  {
    assert forall j | 12 <= j < 23 :: c[j] == c[12..][j - 12];
  }

  /** Patterns of weight at most three have different remainders. */
  lemma {:induction false} SynInjective(d: Bits, e: Bits)
    requires |d| == |e| == 23 && Weight(d) <= 3 && Weight(e) <= 3 && Syn(d) == Syn(e)
    ensures d == e
  {
    var c := Xor(d, e);
    SynLinear(d, e);
    XorLaws(Syn(d), Syn(e));
    XorLaws(d, e);
    CodewordSyn(c);
    CountXor(d, e, 23);
    hide Syn, Count;
    if c != Zeros(23) {
      MinDistance(c);
    }
  }
}
