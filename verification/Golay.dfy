/** golay23.c: the encoding and decoding tables of the (23,12) Golay code, and their use. */
module Golay {
  import opened BitWords
  import opened GolayCode
  import opened Modular

  // ----- get_syndrome

  /** The division loop: skip to the next leading bit, cancel it, until the twelve leading bits are clear. */
  method GetSyndrome(pattern: Bits) returns (s: Bits)
    requires |pattern| == 23
    ensures s == Syn(pattern)
  {
    hide Reduce, GenAt, Xor, Count;
    var p, aux := pattern, 0;
    while Count(p, 12) != 0
      invariant |p| == 23 && aux <= 12
      invariant forall i | 0 <= i < aux :: !p[i]
      invariant Reduce(p, aux) == Reduce(pattern, 0)
      decreases 12 - aux
    {
      CountZero(p, 12);
      ghost var from := aux;
      while !p[aux]
        invariant from <= aux < 12
        invariant forall i | 0 <= i < aux :: !p[i]
        decreases 12 - aux
      {
        aux := aux + 1;
      }
      ReduceSkip(p, from, aux);
      ReduceStep(p, aux);
      p := Xor(p, GenAt(aux));
      aux := aux + 1;
    }
    CountZero(p, 12);
    ReduceSmall(p, aux);
    s := p[12..];
  }

  lemma ReduceStep(p: Bits, i: nat)
    requires |p| == 23 && i < 12 && p[i]
    ensures Reduce(p, i) == Reduce(Xor(p, GenAt(i)), i + 1)
  {}

  /** Clear bits pass through the division unchanged. */
  lemma {:induction false} ReduceSkip(p: Bits, i: nat, k: nat)
    requires |p| == 23 && i <= k <= 12 && forall j | i <= j < k :: !p[j]
    ensures Reduce(p, i) == Reduce(p, k)
    decreases k - i
  {
    if i < k {
      ReduceSkip(p, i + 1, k);
    }
  }

  // ----- numbers as words

  /** The w low bits of n, most significant first. */
  function ToBits(n: nat, w: nat): (b: Bits)
    ensures |b| == w
  {
    if w == 0 then [] else ToBits(n / 2, w - 1) + [n % 2 == 1]
  }

  function Value(b: Bits): (n: nat)
    ensures n < Pow2(|b|)
  {
    if b == [] then 0 else 2 * Value(b[..|b| - 1]) + if b[|b| - 1] then 1 else 0
  }

  lemma {:induction false} ToBitsValue(b: Bits)
    ensures ToBits(Value(b), |b|) == b
  {
    if b != [] {
      var h := b[..|b| - 1];
      ToBitsValue(h);
      assert Value(b) / 2 == Value(h);
      assert b == h + [b[|b| - 1]];
    }
  }

  /** There are at most 2^w words of w bits. */
  lemma {:induction false} WordsBounded(words: set<Bits>, w: nat)
    requires forall b | b in words :: |b| == w
    ensures |words| <= Pow2(w)
  {
    var values := set b | b in words :: Value(b);
    forall b, b' | b in words && b' in words && Value(b) == Value(b') ensures b == b' {
      ToBitsValue(b);
      ToBitsValue(b');
    }
    ImageSize(words, values);
    RangeBound(values, Pow2(w));
  }

  lemma {:induction false} ImageSize(words: set<Bits>, values: set<nat>)
    requires values == set b | b in words :: Value(b)
    requires forall b, b' | b in words && b' in words && Value(b) == Value(b') :: b == b'
    ensures |values| == |words|
  {
    if words != {} {
      var b :| b in words;
      var rest, smaller := words - {b}, values - {Value(b)};
      assert smaller == set b' | b' in rest :: Value(b');
      ImageSize(rest, smaller);
    }
  }

  /** a[1] < ... < a[r], all from 1 to n. */
  ghost predicate Combination(n: nat, r: nat, a: seq<nat>) {
    && |a| > r
    && (forall i | 1 <= i <= r :: 1 <= a[i] <= n)
    && (forall i, j | 1 <= i < j <= r :: a[i] < a[j])
  }

  /** t follows s: entry j goes up by one, the entries after it were as high as they can be and restart. */
  ghost predicate Successor(n: nat, r: nat, s: seq<nat>, t: seq<nat>, j: nat) {
    && |s| == |t| > r && 1 <= j <= r <= n
    && s[j] < n - r + j
    && (forall i | 1 <= i < j :: t[i] == s[i])
    && (forall i | j < i <= r :: s[i] == n - r + i)
    && (forall i | j <= i <= r :: t[i] == s[j] + 1 + (i - j))
  }

  lemma SuccessorCombination(n: nat, r: nat, s: seq<nat>, t: seq<nat>, j: nat)
    requires Combination(n, r, s) && Successor(n, r, s, t, j)
    ensures Combination(n, r, t)
  {}

  lemma CombinationCap(n: nat, r: nat, a: seq<nat>, i: nat)
    requires Combination(n, r, a) && 1 <= i <= r
    ensures r <= n && a[i] <= n - r + i
    decreases r - i
  {
    if i < r {
      CombinationCap(n, r, a, i + 1);
    } else {
      CombinationFloor(n, r, a, r);
    }
  }

  lemma {:induction false} CombinationFloor(n: nat, r: nat, a: seq<nat>, i: nat)
    requires Combination(n, r, a) && 1 <= i <= r
    ensures i <= a[i]
  {
    if i > 1 {
      CombinationFloor(n, r, a, i - 1);
    }
  }

  /** nextcomb: every combination but the last is replaced by its successor. */
  method NextComb(n: nat, r: nat, a: array<nat>) returns (ghost at: nat)
    requires r >= 1 && Combination(n, r, a[..]) && a[1] < n - r + 1
    modifies a
    ensures Successor(n, r, old(a[..]), a[..], at)
    ensures Combination(n, r, a[..])
  {
    ghost var s := a[..];
    CombinationCap(n, r, s, r);
    hide Combination;
    a[r] := a[r] + 1;
    if a[r] <= n {
      at := r;
      SuccessorCombination(n, r, s, a[..], at);
      return;
    }
    var j := r - 1;
    while a[j] == n - r + j
      invariant 1 <= j < r
      invariant forall i | j < i <= r :: s[i] == n - r + i
      invariant a[..] == s[r := n + 1]
      decreases j
    {
      assert s[j] == a[..][j];
      j := j - 1;
    }
    CombinationCap(n, r, s, j);
    assert s[j] == a[..][j];
    var i := r;
    while i >= j
      invariant j - 1 <= i <= r
      invariant forall k | 1 <= k < j :: a[k] == s[k]
      invariant forall k | i < k <= r :: a[k] == s[j] + k - j + 1
      invariant i >= j ==> a[j] == s[j]
    {
      a[i] := a[j] + i - j + 1;
      i := i - 1;
    }
    at := j;
    SuccessorCombination(n, r, s, a[..], at);
  }

  /** The word with ones at the positions a[1..r], position k standing for x^(k-1). */
  function Pattern(a: seq<nat>, r: nat): (e: Bits)
    requires |a| > r
    ensures |e| == 23
  {
    seq(23, k requires 0 <= k < 23 => exists i | 1 <= i <= r :: a[i] == 23 - k)
  }

  /** arr2int */
  method Arr2Int(a: array<nat>, r: nat) returns (e: Bits)
    requires Combination(23, r, a[..])
    ensures e == Pattern(a[..], r)
  {
    e := Zeros(23);
    for i := 1 to r + 1
      invariant |e| == 23
      invariant forall k | 0 <= k < 23 :: e[k] <==> exists j | 1 <= j < i :: a[j] == 23 - k
    {
      e := e[23 - a[i] := true];
    }
  }

  lemma {:induction false} CountSet(p: Bits, j: nat, k: nat)
    requires j < |p| && k <= |p| && !p[j]
    ensures Count(p[j := true], k) == Count(p, k) + if j < k then 1 else 0
  {
    if k != 0 {
      CountSet(p, j, k - 1);
    }
  }

  lemma {:induction false} PatternWeight(a: seq<nat>, r: nat)
    requires Combination(23, r, a)
    ensures Weight(Pattern(a, r)) == r
  {
    if r == 0 {
      CountZero(Pattern(a, 0), 23);
    } else {
      PatternWeight(a, r - 1);
      var e := Pattern(a, r - 1);
      assert Pattern(a, r) == e[23 - a[r] := true];
      CountSet(e, 23 - a[r], 23);
    }
  }

  lemma {:induction false} PatternInjective(r: nat, a: seq<nat>, b: seq<nat>, i: nat)
    requires Combination(23, r, a) && Combination(23, r, b) && Pattern(a, r) == Pattern(b, r)
    requires 1 <= i <= r
    ensures a[i] == b[i]
  {
    if i > 1 {
      forall k | 1 <= k < i ensures a[k] == b[k] {
        PatternInjective(r, a, b, k);
      }
    }
    assert Pattern(b, r)[23 - a[i]] && Pattern(a, r)[23 - b[i]];
    var k :| 1 <= k <= r && b[k] == a[i];
    var l :| 1 <= l <= r && a[l] == b[i];
  }

  // ----- counting combinations

  /** Pairs from 1..23 whose first entry is below x. */
  ghost function PairsBelow(x: nat): int {
    if x <= 1 then 0 else PairsBelow(x - 1) + 24 - x
  }

  /** Pairs from n things. */
  ghost function Pairs(n: nat): nat {
    if n == 0 then 0 else Pairs(n - 1) + n - 1
  }

  /** Triples from 1..23 whose first entry is below x. */
  ghost function TriplesBelow(x: nat): int
    requires x <= 24
  {
    if x <= 1 then 0 else TriplesBelow(x - 1) + Pairs(24 - x)
  }

  /** Where a combination comes in the order in which nextcomb runs through them. */
  ghost function Rank(r: nat, a: seq<nat>): int
    requires 1 <= r <= 3 && Combination(23, r, a)
  {
    if r == 1 then a[1] - 1
    else if r == 2 then PairsBelow(a[1]) + a[2] - a[1] - 1
    else TriplesBelow(a[1]) + PairsBelow(a[2]) - PairsBelow(a[1] + 1) + a[3] - a[2] - 1
  }

  lemma {:induction false} PairsAbove(x: nat)
    requires 1 <= x <= 22
    ensures PairsBelow(22) - PairsBelow(x) + 1 == Pairs(24 - x)
    decreases 22 - x
  {
    if x < 22 {
      PairsAbove(x + 1);
    } else {
      assert Pairs(2) == 1;
    }
  }

  lemma NextBelow(x: nat)
    requires 1 <= x <= 23
    ensures PairsBelow(x + 1) == PairsBelow(x) + 23 - x
    ensures TriplesBelow(x + 1) == TriplesBelow(x) + Pairs(23 - x)
  {}

  /** nextcomb visits the combinations in order, one rank at a time. */
  lemma {:induction false} RankStep(r: nat, s: seq<nat>, t: seq<nat>, j: nat)
    requires 2 <= r <= 3 && Combination(23, r, s) && Combination(23, r, t) && Successor(23, r, s, t, j)
    ensures Rank(r, t) == Rank(r, s) + 1
  {
    hide PairsBelow, TriplesBelow, Pairs;
    NextBelow(s[1]);
    NextBelow(s[2]);
    if r == 3 && j == 1 {
      PairsAbove(s[1] + 1);
    }
  }

  ghost function Cubic(n: int): int {
    n * (n - 1) * (n - 2)
  }

  lemma CubicStep(n: int)
    ensures Cubic(n + 1) == Cubic(n) + 3 * (n * (n - 1))
  {
    var m := n * (n - 1);
    assert Cubic(n + 1) == (n + 1) * m && Cubic(n) == m * (n - 2) by {
      assert (n + 1) * n * (n - 1) == (n + 1) * (n * (n - 1));
    }
  }

  lemma {:induction false} PairsClosed(n: nat)
    ensures 2 * Pairs(n) == n * (n - 1)
  {
    if n != 0 {
      PairsClosed(n - 1);
    }
  }

  lemma {:induction false} PairsBelowClosed(x: nat)
    requires 1 <= x <= 24
    ensures 2 * PairsBelow(x) == (x - 1) * (46 - x)
  {
    if x > 1 {
      PairsBelowClosed(x - 1);
    }
  }

  lemma {:induction false} TriplesBelowClosed(x: nat)
    requires 1 <= x <= 24
    ensures 6 * TriplesBelow(x) == 10626 - Cubic(24 - x)
  {
    if x > 1 {
      hide *;
      TriplesBelowClosed(x - 1);
      NextBelow(x - 1);
      PairsClosed(24 - x);
      CubicStep(24 - x);
    }
  }

  const TOTALS: seq<nat> := [1, 23, 253, 1771]

  /** Only the last combination has the last rank. */
  lemma {:induction false} RankLast(r: nat, a: seq<nat>)
    requires 2 <= r <= 3 && Combination(23, r, a) && Rank(r, a) < TOTALS[r] - 1
    ensures a[1] < 23 - r + 1
  {
    CombinationCap(23, r, a, 1);
    if a[1] == 23 - r + 1 {
      CombinationCap(23, r, a, 2);
      PairsBelowClosed(22);
      TriplesBelowClosed(21);
      if r == 3 {
        CombinationCap(23, r, a, 3);
      }
    }
  }

  // ----- the decoding table

  /** e is a pattern of weight r among the first `bound` that nextcomb generates. */
  ghost predicate Generated(e: Bits, r: nat, bound: nat)
    requires 1 <= r <= 3
  {
    exists b: seq<nat> :: Combination(23, r, b) && e == Pattern(b, r) && Rank(r, b) < bound
  }

  /** The table holds patterns at their own remainders: all of weight below r, and `bound` of weight r. */
  ghost predicate Filled(table: map<Bits, Bits>, r: nat, bound: nat)
    requires 1 <= r <= 3
  {
    forall s | s in table :: |table[s]| == 23 && Syn(table[s]) == s &&
                             (Weight(table[s]) < r || Generated(table[s], r, bound))
  }

  lemma {:induction false} GeneratedWeight(e: Bits, r: nat, bound: nat)
    requires 1 <= r <= 3 && Generated(e, r, bound)
    ensures |e| == 23 && Weight(e) == r
  {
    var b: seq<nat> :| Combination(23, r, b) && e == Pattern(b, r) && Rank(r, b) < bound;
    PatternWeight(b, r);
  }

  lemma {:induction false} RankOfPattern(r: nat, a: seq<nat>, b: seq<nat>)
    requires 1 <= r <= 3 && Combination(23, r, a) && Combination(23, r, b) && Pattern(a, r) == Pattern(b, r)
    ensures Rank(r, a) == Rank(r, b)
  {
    hide Pattern, PairsBelow, TriplesBelow;
    PatternInjective(r, a, b, 1);
    if r >= 2 {
      PatternInjective(r, a, b, 2);
    }
    if r >= 3 {
      PatternInjective(r, a, b, 3);
    }
  }

  /** Storing the next pattern always takes a fresh entry. */
  lemma {:induction false} StorePattern(table: map<Bits, Bits>, r: nat, a: seq<nat>)
    requires 1 <= r <= 3 && Combination(23, r, a) && Rank(r, a) >= 0 && Filled(table, r, Rank(r, a))
    ensures var e := Pattern(a, r);
            && Syn(e) !in table
            && Filled(table[Syn(e) := e], r, Rank(r, a) + 1)
            && |table[Syn(e) := e]| == |table| + 1
  {
    hide Rank, Syn, Pattern, Count;
    var e, bound := Pattern(a, r), Rank(r, a);
    PatternWeight(a, r);
    if Syn(e) in table {
      var d := table[Syn(e)];
      if Generated(d, r, bound) {
        GeneratedWeight(d, r, bound);
        SynInjective(d, e);
        var b: seq<nat> :| Combination(23, r, b) && d == Pattern(b, r) && Rank(r, b) < bound;
        RankOfPattern(r, a, b);
      } else {
        SynInjective(d, e);
      }
      assert false;
    }
    var table' := table[Syn(e) := e];
    assert table'.Keys == table.Keys + {Syn(e)};
    assert Generated(e, r, bound + 1);
    forall s | s in table'
      ensures |table'[s]| == 23 && Syn(table'[s]) == s && (Weight(table'[s]) < r || Generated(table'[s], r, bound + 1))
    {
      if s != Syn(e) && Generated(table[s], r, bound) {
        var b: seq<nat> :| Combination(23, r, b) && table[s] == Pattern(b, r) && Rank(r, b) < bound;
      }
    }
  }

  /** Finishing one weight opens the next. */
  lemma {:induction false} NextWeight(table: map<Bits, Bits>, r: nat, bound: nat)
    requires 1 <= r <= 2 && Filled(table, r, bound)
    ensures Filled(table, r + 1, 0)
  {
    hide Syn, Count;
    forall s | s in table ensures Weight(table[s]) < r + 1 {
      if Generated(table[s], r, bound) {
        GeneratedWeight(table[s], r, bound);
      }
    }
  }

  /** Every remainder leads to a pattern of weight at most three. */
  ghost predicate Complete(table: map<Bits, Bits>) {
    forall s: Bits | |s| == 11 :: s in table && |table[s]| == 23 && Syn(table[s]) == s && Weight(table[s]) <= 3
  }

  /** 1 + 23 + 253 + 1771 different remainders of 11 bits are all there are: the code is perfect. */
  lemma {:induction false} Perfect(table: map<Bits, Bits>)
    requires Filled(table, 3, 1771) && |table| == 2048
    ensures Complete(table)
  {
    hide Syn, Count;
    assert Pow2(11) == 2048;
    forall s: Bits | |s| == 11
      ensures s in table && |table[s]| == 23 && Syn(table[s]) == s && Weight(table[s]) <= 3
    {
      if s !in table {
        WordsBounded(table.Keys + {s}, 11);
      }
      if Generated(table[s], 3, 1771) {
        GeneratedWeight(table[s], 3, 1771);
      }
    }
  }

  /** The systematic codeword of twelve data bits: the data followed by its remainder. */
  function Codeword(data: Bits): (c: Bits)
    requires |data| == 12
    ensures |c| == 23
  {
    data + Syn(data + Zeros(11))
  }

  /** A word with its own remainder added has none left. */
  lemma {:induction false} CodewordIsCodeword(data: Bits)
    requires |data| == 12
    ensures IsCodeword(Codeword(data))
  {
    var shifted := data + Zeros(11);
    var parity := Syn(shifted);
    var low := Zeros(12) + parity;
    hide Syn, Xor;
    assert Codeword(data) == Xor(shifted, low);
    SynLinear(shifted, low);
    SynOfSmall(low);
    XorLaws(parity, parity);
    CodewordSyn(Codeword(data));
  }

  lemma {:induction false} SynOfSmall(p: Bits)
    requires |p| == 23 && forall j | 0 <= j < 12 :: !p[j]
    ensures Syn(p) == p[12..]
  {
    ReduceSmall(p, 0);
  }

  /** The encoder reaches every codeword: a codeword is determined by its data bits. */
  lemma {:induction false} CodewordOfData(c: Bits)
    requires |c| == 23 && IsCodeword(c)
    ensures c == Codeword(c[..12])
  {
    var d := Codeword(c[..12]);
    var x := Xor(c, d);
    CodewordIsCodeword(c[..12]);
    CodewordSum(c, d);
    XorLaws(c, d);
    hide Syn, IsCodeword;
    CountZero(x, 12);
    if x != Zeros(23) {
      TopNonzero(x);
    }
    XorZero(c, d);
  }

  lemma {:induction false} CodewordSum(c: Bits, d: Bits)
    requires |c| == |d| == 23 && IsCodeword(c) && IsCodeword(d)
    ensures IsCodeword(Xor(c, d))
  {
    hide Syn, IsCodeword;
    CodewordSyn(c);
    CodewordSyn(d);
    CodewordSyn(Xor(c, d));
    SynLinear(c, d);
    XorLaws(Zeros(11), Zeros(11));
  }

  lemma XorZero(c: Bits, d: Bits)
    requires |c| == |d| == 23 && Xor(c, d) == Zeros(23)
    ensures c == d
  {
    forall j | 0 <= j < 23 ensures c[j] == d[j] {
      assert !Xor(c, d)[j];
    }
  }

  class Golay23 {
    var inited: bool
    var encoding: map<Bits, Bits>
    var decoding: map<Bits, Bits>

    ghost predicate Ready()
      reads this
    {
      && inited && Complete(decoding)
      && forall data: Bits | |data| == 12 :: data in encoding && encoding[data] == Codeword(data)
    }

    constructor ()
      ensures !inited
    {
      inited, encoding, decoding := false, map[], map[];
    }

    method FillEncoding()
      modifies this`encoding
      ensures forall data: Bits | |data| == 12 :: data in encoding && encoding[data] == Codeword(data)
    {
      for pattern := 0 to 4096
        invariant forall n | 0 <= n < pattern ::
                  ToBits(n, 12) in encoding && encoding[ToBits(n, 12)] == Codeword(ToBits(n, 12))
      {
        var data := ToBits(pattern, 12);
        var parity := GetSyndrome(data + Zeros(11));
        hide Codeword, ToBits;
        assert data + parity == Codeword(data) by {
          CodewordIs(data);
        }
        encoding := encoding[data := data + parity];
      }
      assert Pow2(12) == 4096 by {
        assert Pow2(6) == 64;
      }
      forall data: Bits | |data| == 12 ensures data in encoding && encoding[data] == Codeword(data) {
        ToBitsValue(data);
        assert Value(data) < 4096;
      }
    }

    /** temp doubles from 1 to 2^22; the first entry is written at the index 1 it is known to have. */
    method FillSingles()
      requires Filled(decoding, 1, 0)
      modifies this`decoding
      ensures Filled(decoding, 1, 23) && |decoding| == old(|decoding|) + 23
    {
      hide Filled, Syn;
      var temp := Zeros(22) + [true];
      SynOfSmall(temp);
      assert temp[12..] == Zeros(10) + [true];
      StoreSingle(decoding, temp, 1);
      decoding := decoding[Zeros(10) + [true] := temp];
      for i := 2 to 24
        invariant IsSingle(temp, i - 1)
        invariant Filled(decoding, 1, i - 1) && |decoding| == old(|decoding|) + i - 1
      {
        temp := temp[1..] + [false];
        StoreSingle(decoding, temp, i);
        var s := GetSyndrome(temp);
        decoding := decoding[s := temp];
      }
    }

    method FillPairs(a: array<nat>)
      requires a.Length == 4 && Filled(decoding, 2, 0)
      modifies this`decoding, a
      ensures Filled(decoding, 2, 253) && |decoding| == old(|decoding|) + 253
    {
      hide Filled;
      a[1], a[2] := 1, 2;
      FirstRank(2, a[..]);
      StoreNext(a, 2);
      for i := 1 to 253
        invariant Combination(23, 2, a[..]) && Rank(2, a[..]) == i - 1
        invariant Filled(decoding, 2, i) && |decoding| == old(|decoding|) + i
      {
        Advance(a, 2);
        StoreNext(a, 2);
      }
    }

    method FillTriples(a: array<nat>)
      requires a.Length == 4 && Filled(decoding, 3, 0)
      modifies this`decoding, a
      ensures Filled(decoding, 3, 1771) && |decoding| == old(|decoding|) + 1771
    {
      hide Filled;
      a[1], a[2], a[3] := 1, 2, 3;
      FirstRank(3, a[..]);
      StoreNext(a, 3);
      for i := 1 to 1771
        invariant Combination(23, 3, a[..]) && Rank(3, a[..]) == i - 1
        invariant Filled(decoding, 3, i) && |decoding| == old(|decoding|) + i
      {
        Advance(a, 3);
        StoreNext(a, 3);
      }
    }

    /** The table starts with the zero pattern; the patterns of weight one, two and three follow. */
    method FillDecoding()
      modifies this`decoding
      ensures Complete(decoding)
    {
      hide *;
      var a := new nat[4];
      ZeroEntry();
      decoding := map[Zeros(11) := Zeros(23)];
      assert |decoding| == 1;
      FillSingles();
      NextWeight(decoding, 1, 23);
      FillPairs(a);
      NextWeight(decoding, 2, 253);
      FillTriples(a);
      Perfect(decoding);
    }

    /** The pattern of the current combination goes to the place of its remainder. */
    method StoreNext(a: array<nat>, r: nat)
      requires 1 <= r <= 3 && Combination(23, r, a[..]) && Rank(r, a[..]) >= 0 && Filled(decoding, r, Rank(r, a[..]))
      modifies this`decoding
      ensures Filled(decoding, r, Rank(r, a[..]) + 1) && |decoding| == old(|decoding|) + 1
    {
      hide *;
      StorePattern(decoding, r, a[..]);
      var temp := Arr2Int(a, r);
      var s := GetSyndrome(temp);
      decoding := decoding[s := temp];
    }

    /** golay23_init */
    method Init()
      modifies this
      ensures Ready()
    {
      FillEncoding();
      FillDecoding();
      inited := true;
    }

    /** golay23_encode: a codeword that starts with the data. */
    method Encode(data: Bits) returns (c: Bits)
      requires Ready() && |data| == 12
      ensures |c| == 23 && IsCodeword(c) && c[..12] == data
    {
      c := encoding[data];
      CodewordIsCodeword(data);
    }

    /** golay23_decode: whatever was received, the one codeword that differs from it in at most three bits. */
    method Decode(received: Bits) returns (c: Bits)
      requires Ready() && |received| == 23
      ensures |c| == 23 && IsCodeword(c) && Weight(Xor(received, c)) <= 3
      ensures forall d: Bits | |d| == 23 && IsCodeword(d) && Weight(Xor(received, d)) <= 3 :: d == c
    {
      var s := GetSyndrome(received);
      var e := decoding[s];
      c := Xor(received, e);
      DecodeCorrect(received, e);
    }
  }

  /** The word 2^(i-1). */
  predicate IsSingle(e: Bits, i: nat) {
    |e| == 23 && forall k | 0 <= k < 23 :: e[k] <==> k == 23 - i
  }

  lemma {:induction false} StoreSingle(table: map<Bits, Bits>, e: Bits, i: nat)
    requires 1 <= i <= 23 && IsSingle(e, i) && Filled(table, 1, i - 1)
    ensures Filled(table[Syn(e) := e], 1, i) && |table[Syn(e) := e]| == |table| + 1
  {
    var a := [0, i];
    assert e == Pattern(a, 1) by {
      forall k | 0 <= k < 23 ensures e[k] <==> Pattern(a, 1)[k] {
        assert a[1] == i;
      }
    }
    assert Combination(23, 1, a) && Rank(1, a) == i - 1;
    hide *;
    StorePattern(table, 1, a);
  }

  lemma FirstRank(r: nat, a: seq<nat>)
    requires 2 <= r <= 3 && |a| == 4 && a[1] == 1 && a[2] == 2 && (r == 3 ==> a[3] == 3)
    ensures Combination(23, r, a) && Rank(r, a) == 0
  {}

  /** One call of the combination iterator raises the rank by one. */
  method Advance(a: array<nat>, r: nat)
    requires 2 <= r <= 3 && a.Length == 4 && Combination(23, r, a[..]) && Rank(r, a[..]) < TOTALS[r] - 1
    modifies a
    ensures Combination(23, r, a[..]) && Rank(r, a[..]) == old(Rank(r, a[..])) + 1
  {
    hide Rank;
    ghost var s := a[..];
    RankLast(r, s);
    ghost var j := NextComb(23, r, a);
    RankStep(r, s, a[..], j);
  }

  lemma CodewordIs(data: Bits)
    requires |data| == 12
    ensures Codeword(data) == data + Syn(data + Zeros(11))
  {}

  lemma ZeroEntry()
    ensures Filled(map[Zeros(11) := Zeros(23)], 1, 0)
  {
    SynOfSmall(Zeros(23));
    CountZero(Zeros(23), 23);
  }

  /** Removing the pattern of weight at most three with the same remainder gives the nearest codeword. */
  lemma {:induction false} DecodeCorrect(received: Bits, e: Bits)
    requires |received| == |e| == 23 && Syn(e) == Syn(received) && Weight(e) <= 3
    ensures var c := Xor(received, e);
            && IsCodeword(c) && Weight(Xor(received, c)) <= 3
            && forall d: Bits | |d| == 23 && IsCodeword(d) && Weight(Xor(received, d)) <= 3 :: d == c
  {
    hide Syn, Count;
    var c := Xor(received, e);
    SynLinear(received, e);
    XorLaws(Syn(received), Syn(e));
    CodewordSyn(c);
    XorLaws(e, received);
    assert Xor(received, c) == e by {
      XorLaws(received, e);
      assert Xor(Xor(e, received), received) == e;
      XorLaws(c, received);
    }
    forall d: Bits | |d| == 23 && IsCodeword(d) && Weight(Xor(received, d)) <= 3
      ensures d == c
    {
      var f := Xor(received, d);
      CodewordSyn(d);
      SynLinear(received, d);
      XorLaws(Syn(received), Syn(d));
      SynInjective(f, e);
      XorLaws(d, received);
      XorLaws(f, received);
      XorLaws(received, d);
    }
  }

  lemma {:induction false} CountShift(p: Bits, k: nat)
    requires k < |p|
    ensures Count([false] + p[..|p| - 1], k + 1) == Count(p, k)
  {
    if k != 0 {
      CountShift(p, k - 1);
      assert ([false] + p[..|p| - 1])[k] == p[k - 1];
    }
  }

  /** golay23_count_errors: the number of positions in which the two words differ. */
  method CountErrors(received: Bits, corrected: Bits) returns (errors: nat)
    requires |received| == |corrected| == 23
    ensures errors == Weight(Xor(received, corrected))
  {
    var diff := Xor(received, corrected);
    errors := 0;
    hide Xor;
    for i := 0 to 23
      invariant |diff| == 23 && forall k | 0 <= k < i :: !diff[k]
      invariant errors + Count(diff, 23) == Weight(Xor(received, corrected))
    {
      CountShift(diff, 22);
      if diff[22] {
        errors := errors + 1;
      }
      diff := [false] + diff[..22];
    }
    CountZero(diff, 23);
  }

  /** Encoding, at most three bit errors anywhere in the word, and decoding give the data back. */
  method Channel(golay: Golay23, data: Bits, errors: Bits) returns (corrected: Bits, count: nat)
    requires golay.Ready() && |data| == 12 && |errors| == 23 && Weight(errors) <= 3
    ensures |corrected| == 23 && corrected[..12] == data && count == Weight(errors)
  {
    hide Syn, IsCodeword, Count;
    var sent := golay.Encode(data);
    assert Xor(Xor(sent, errors), sent) == errors by {
      XorLaws(sent, errors);
      XorLaws(errors, sent);
    }
    corrected := golay.Decode(Xor(sent, errors));
    count := CountErrors(Xor(sent, errors), corrected);
  }
}
