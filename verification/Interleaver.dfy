/** fdmdv_interleave.c: a table read from a file, used as it stands or inverted, shuffles the bits of each block. */
module Interleaver {
  import opened BitPack
  import opened Modular

  const MAX_INTERLEAVER: nat := 10000

  predicate Within(t: seq<int>) {
    forall i | 0 <= i < |t| :: 0 <= t[i] < |t|
  }

  predicate Distinct(t: seq<int>) {
    forall i, j | 0 <= i < j < |t| :: t[i] != t[j]
  }

  predicate Permutation(t: seq<int>) {
    Within(t) && Distinct(t)
  }

  ghost function Values(t: seq<int>, n: nat): set<int>
    requires n <= |t|
  {
    set i | 0 <= i < n :: t[i]
  }

  lemma {:induction false} ValuesCount(t: seq<int>, n: nat)
    requires Distinct(t) && n <= |t|
    ensures |Values(t, n)| == n
  {
    if n == 0 {
      assert Values(t, 0) == {};
    } else {
      ValuesCount(t, n - 1);
      assert Values(t, n) == Values(t, n - 1) + {t[n - 1]};
    }
  }

  /** The pigeonhole principle: different values below m leave none below m out. */
  lemma {:induction false} Onto(t: seq<int>, v: nat) returns (i: nat)
    requires Permutation(t) && v < |t|
    ensures i < |t| && t[i] == v
  {
    if v in Values(t, |t|) {
      i :| 0 <= i < |t| && t[i] == v;
    } else {
      ValuesCount(t, |t|);
      var all: set<nat> := set x | x in Values(t, |t|) + {v};
      assert all == Values(t, |t|) + {v};
      RangeBound(all, |t|);
      assert false;
    }
  }

  /** s[i] is where t has i: s and t undo each other. */
  ghost predicate Inverse(t: seq<int>, s: seq<int>) {
    && |s| == |t| && Within(t) && Within(s)
    && (forall i | 0 <= i < |t| :: s[t[i]] == i)
    && forall i | 0 <= i < |t| :: t[s[i]] == i
  }

  /** What filling a table at t[i] with i leads to. */
  lemma {:induction false} FilledInverse(t: seq<int>, s: seq<int>)
    requires Permutation(t) && |s| == |t| && forall i | 0 <= i < |t| :: s[t[i]] == i
    ensures Inverse(t, s)
  {
    forall v | 0 <= v < |t| ensures 0 <= s[v] < |t| && t[s[v]] == v {
      var i := Onto(t, v);
      assert s[t[i]] == i;
    }
  }

  /** The last place of v among the first n values, or -1. */
  function LastIndex(file: seq<int>, v: int, n: nat): (i: int)
    requires n <= |file|
    ensures -1 <= i < n && (i >= 0 ==> file[i] == v)
    ensures forall j | i < j < n :: file[j] != v
  {
    if n == 0 then -1 else if file[n - 1] == v then n - 1 else LastIndex(file, v, n - 1)
  }

  /**
   * The table as loaded: the values of the file, or with "de" the last place of each value in the file. Entries no
   * value of the file leads to hold what the stack held.
   */
  ghost predicate Loaded(file: seq<int>, de: bool, t: seq<int>) {
    && |t| == |file|
    && (!de ==> t == file)
    && (de ==> forall v | 0 <= v < |t| && LastIndex(file, v, |file|) >= 0 :: t[v] == LastIndex(file, v, |file|))
  }

  datatype Load = OutOfBounds | TooBig | Misaligned | Table(entries: seq<int>)

  /** With "de" a value outside the array is written to, before the size is known to be too big. */
  ghost predicate Strays(file: seq<int>, de: bool) {
    de && exists i | 0 <= i < |file| && i < MAX_INTERLEAVER :: !(0 <= file[i] < MAX_INTERLEAVER)
  }

  /** After n values the array has, at each value met, the last place it was met at. */
  ghost predicate Placed(file: seq<int>, t: seq<int>, n: nat)
    requires n <= |file|
  {
    forall v | 0 <= v < |t| && LastIndex(file, v, n) >= 0 :: t[v] == LastIndex(file, v, n)
  }

  lemma PlacedNext(file: seq<int>, t: seq<int>, n: nat)
    requires n < |file| && Placed(file, t, n) && 0 <= file[n] < |t|
    ensures Placed(file, t[file[n] := n], n + 1)
  {}

  /** The loop over the file. The array is as the stack left it. */
  method LoadTable(file: seq<int>, de: bool) returns (r: Load)
    ensures r.OutOfBounds? <==> Strays(file, de)
    ensures r.TooBig? <==> !Strays(file, de) && |file| >= MAX_INTERLEAVER
    ensures r.Misaligned? <==> !Strays(file, de) && |file| < MAX_INTERLEAVER && |file| % 8 != 0
    ensures r.Table? ==> Loaded(file, de, r.entries)
  {
    var interleaver := new int[MAX_INTERLEAVER];
    var src := 0;
    while src < |file|
      invariant src <= |file| && src < MAX_INTERLEAVER
      invariant !de ==> interleaver[..src] == file[..src]
      invariant de ==> forall i | 0 <= i < src :: 0 <= file[i] < MAX_INTERLEAVER
      invariant de ==> Placed(file, interleaver[..], src)
    {
      if de {
        if !(0 <= file[src] < MAX_INTERLEAVER) {
          return OutOfBounds;
        }
        PlacedNext(file, interleaver[..], src);
        interleaver[file[src]] := src;
      } else {
        interleaver[src] := file[src];
      }
      src := src + 1;
      if src == MAX_INTERLEAVER {
        return TooBig;
      }
    }
    if src % 8 != 0 {
      return Misaligned;
    }
    assert file[..src] == file;
    r := Table(interleaver[..src]);
  }

  /** A permutation is inverted completely. */
  lemma {:induction false} LoadedInverse(file: seq<int>, t: seq<int>)
    requires Permutation(file) && Loaded(file, true, t)
    ensures Inverse(file, t)
  {
    forall i | 0 <= i < |file| ensures t[file[i]] == i {
      var last := LastIndex(file, file[i], |file|);
      assert last >= i;
    }
    FilledInverse(file, t);
  }

  /** Every entry of the table is a place in the block, whatever the stack held, exactly for these files. */
  lemma {:induction false} LoadedWithin(file: seq<int>, de: bool)
    ensures (forall t | Loaded(file, de, t) :: Within(t)) <==> if de then Permutation(file) else Within(file)
  {
    if de && Permutation(file) {
      forall t | Loaded(file, de, t) ensures Within(t) {
        LoadedInverse(file, t);
      }
    } else if de {
      var v := Missed(file);
      var t := seq(|file|, u requires 0 <= u < |file| => LastIndex(file, u, |file|));
      assert LastIndex(file, v, |file|) == -1;
      assert Loaded(file, de, t) && t[v] == -1;
    } else {
      assert Loaded(file, de, file);
    }
  }

  /** q holds the bits of p in the order of the table. */
  ghost predicate Shuffled(p: seq<Byte>, q: seq<Byte>, t: seq<int>) {
    && |t| == 8 * |p| && |q| == |p| && Within(t)
    && forall i | 0 <= i < |t| :: BitAt(q, i) == BitAt(p, t[i])
  }

  /** One pass of the block loop: unpack, permute, pack into the same bytes. */
  method ShuffleBlock(packed: array<Byte>, t: seq<int>)
    requires |t| == 8 * packed.Length && Within(t)
    modifies packed
    ensures Shuffled(old(packed[..]), packed[..], t)
  {
    hide TestBit;
    var m := |t|;
    ghost var p := packed[..];
    var bits := Unpack(packed, m);
    var interleaved := new bool[m];
    for i := 0 to m
      modifies interleaved
      invariant forall j | 0 <= j < i :: interleaved[j] == BitAt(p, t[j])
    {
      assert bits[..][t[i]] == BitAt(p, t[i]);
      interleaved[i] := bits[t[i]];
    }
    Pack(interleaved[..], packed);
    assert forall i | 0 <= i < m :: BitAt(packed[..], i) == Bits(packed[..])[i];
  }

  /** Shuffling back and forth changes nothing. */
  lemma {:induction false} BlockRoundTrip(p: seq<Byte>, q: seq<Byte>, r: seq<Byte>, t: seq<int>, s: seq<int>)
    requires Inverse(t, s) && Shuffled(p, q, t) && Shuffled(q, r, s)
    ensures r == p
  {
    hide BitAt;
    forall i | 0 <= i < 8 * |p| ensures BitAt(p, i) == BitAt(r, i) {
      assert BitAt(r, i) == BitAt(q, s[i]) == BitAt(p, t[s[i]]);
    }
    SameBytes(p, r);
  }

  /** Block after block is shuffled; an incomplete block at the end is dropped. */
  ghost predicate ShuffledStream(input: seq<Byte>, output: seq<Byte>, t: seq<int>)
    requires |t| >= 8
    decreases |input|
  {
    var n := |t| / 8;
    if |input| < n then output == []
    else |output| >= n && Shuffled(input[..n], output[..n], t) && ShuffledStream(input[n..], output[n..], t)
  }

  lemma {:induction false} StreamAppend(a: seq<Byte>, oa: seq<Byte>, b: seq<Byte>, ob: seq<Byte>, t: seq<int>)
    requires |t| >= 8 && |a| % (|t| / 8) == 0 && ShuffledStream(a, oa, t) && ShuffledStream(b, ob, t)
    ensures ShuffledStream(a + b, oa + ob, t)
    decreases |a|
  {
    var n := |t| / 8;
    if |a| < n {
      assert a == [];
      assert a + b == b && oa + ob == ob;
    } else {
      ModLess(|a|, n);
      StreamAppend(a[n..], oa[n..], b, ob, t);
      assert (a + b)[..n] == a[..n] && (a + b)[n..] == a[n..] + b;
      assert (oa + ob)[..n] == oa[..n] && (oa + ob)[n..] == oa[n..] + ob;
    }
  }

  lemma ModLess(x: nat, n: nat)
    requires x >= n > 0
    ensures (x - n) % n == x % n
  {
    ModPeriod(x - n, n, 1);
  }

  lemma ModMore(x: nat, n: nat)
    requires n > 0
    ensures (x + n) % n == x % n
  {
    ModPeriod(x, n, 1);
  }

  /**
   * The tool reads or writes outside its arrays, refuses the file, reads nothing for ever with an empty table, or
   * writes all whole blocks.
   */
  datatype Outcome = Undefined | Refused | Endless | Written(output: seq<Byte>)

  method Tool(input: seq<Byte>, file: seq<int>, de: bool) returns (r: Outcome)
    ensures r.Refused? <==> !Strays(file, de) && (|file| >= MAX_INTERLEAVER || |file| % 8 != 0)
    ensures r.Endless? <==> |file| == 0
    ensures !de ==>
              (r.Undefined? <==>
                 0 < |file| < MAX_INTERLEAVER && |file| % 8 == 0 && |file| / 8 <= |input| && !Within(file))
    ensures de && r.Undefined? ==> Strays(file, de) || !Permutation(file)
    ensures r.Written? ==> exists t :: Loaded(file, de, t) && |t| >= 8 && ShuffledStream(input, r.output, t)
  {
    var load := LoadTable(file, de);
    if load.OutOfBounds? {
      return Undefined;
    }
    if !load.Table? {
      return Refused;
    }
    var t := load.entries;
    if |t| == 0 {
      return Endless;
    }
    if |t| / 8 <= |input| && !Within(t) {
      LoadedWithin(file, de);
      return Undefined;
    }
    var output := Stream(input, t);
    r := Written(output);
  }

  /** The whole blocks of an input. */
  function Whole(input: seq<Byte>, n: nat): seq<Byte>
    requires n > 0
  {
    input[..|input| - |input| % n]
  }

  lemma BlockCut(input: seq<Byte>, n: nat, rest: nat)
    requires n <= |input| - rest
    ensures input[..|input| - rest] == input[..n] + input[n..][..|input| - n - rest]
  {}

  /** The tool run twice, the second time the other way round, gives every whole block back byte for byte. */
  method BothWays(input: seq<Byte>, file: seq<int>, de: bool) returns (first: Outcome, second: Outcome)
    requires Permutation(file) && 0 < |file| < MAX_INTERLEAVER && |file| % 8 == 0
    ensures first.Written? && second == Written(Whole(input, |file| / 8))
  {
    hide ShuffledStream;
    first := Tool(input, file, de);
    assert first.Written?;
    second := Tool(first.output, file, !de);
    assert second.Written?;
    ghost var t :| Loaded(file, de, t) && |t| >= 8 && ShuffledStream(input, first.output, t);
    ghost var s :| Loaded(file, !de, s) && |s| >= 8 && ShuffledStream(first.output, second.output, s);
    if de {
      LoadedInverse(file, t);
      InverseBack(file, t);
    } else {
      LoadedInverse(file, s);
    }
    StreamRoundTrip(input, first.output, second.output, t, s);
  }

  /** Read a block and shuffle it. */
  method NextBlock(block: seq<Byte>, packed: array<Byte>, t: seq<int>)
    requires |t| > 0 && |t| == 8 * packed.Length && |block| == packed.Length && Within(t)
    modifies packed
    ensures ShuffledStream(block, packed[..], t)
  {
    for i := 0 to |block|
      invariant packed[..i] == block[..i]
    {
      packed[i] := block[i];
    }
    assert packed[..] == block;
    ShuffleBlock(packed, t);
    hide Shuffled, Within;
    ghost var n, done := |block|, packed[..];
    assert block[..n] == block && done[..n] == done && block[n..] == [] && done[n..] == [];
  }

  /** The loop over the blocks of the input. */
  method Stream(input: seq<Byte>, t: seq<int>) returns (output: seq<Byte>)
    requires |t| > 0 && |t| % 8 == 0 && (|t| / 8 <= |input| ==> Within(t))
    ensures ShuffledStream(input, output, t)
  {
    var n := |t| / 8;
    var packed := new Byte[n];
    var pos := 0;
    output := [];
    Remainder([], t);
    hide ShuffledStream, Within;
    while pos + n <= |input|
      invariant pos <= |input| && pos % n == 0 && ShuffledStream(input[..pos], output, t)
    {
      var block := input[pos..pos + n];
      NextBlock(block, packed, t);
      StreamAppend(input[..pos], output, block, packed[..], t);
      assert input[..pos] + block == input[..pos + n];
      ModMore(pos, n);
      output := output + packed[..];
      pos := pos + n;
    }
    Remainder(input[pos..], t);
    StreamAppend(input[..pos], output, input[pos..], [], t);
    assert input[..pos] + input[pos..] == input && output + [] == output;
  }

  lemma Remainder(rest: seq<Byte>, t: seq<int>)
    requires |t| >= 8 && |rest| < |t| / 8
    ensures ShuffledStream(rest, [], t)
  {}

  /** Shuffling by a table and then by its inverse gives every whole block back; an incomplete block is dropped. */
  lemma {:induction false} StreamRoundTrip(input: seq<Byte>, middle: seq<Byte>, output: seq<Byte>,
                                           t: seq<int>, s: seq<int>)
    requires |t| >= 8 && Inverse(t, s)
    requires ShuffledStream(input, middle, t) && ShuffledStream(middle, output, s)
    ensures output == Whole(input, |t| / 8)
    decreases |input|
  {
    hide Inverse, Shuffled;
    var n := |t| / 8;
    assert |t| == |s| by {
      InverseSize(t, s);
    }
    if |input| >= n {
      BlockRoundTrip(input[..n], middle[..n], output[..n], t, s);
      StreamRoundTrip(input[n..], middle[n..], output[n..], t, s);
      assert output == output[..n] + output[n..];
    }
    hide Whole;
    WholeStep(input, n);
  }

  lemma InverseSize(t: seq<int>, s: seq<int>)
    requires Inverse(t, s)
    ensures |t| == |s|
  {}

  lemma WholeStep(input: seq<Byte>, n: nat)
    requires n > 0
    ensures Whole(input, n) == if |input| < n then [] else input[..n] + Whole(input[n..], n)
  {
    if |input| >= n {
      ModLess(|input|, n);
      BlockCut(input, n, |input| % n);
    } else {
      ModSmall(|input|, n);
    }
  }

  lemma ModSmall(x: nat, n: nat)
    requires x < n
    ensures x % n == x
  {}

  lemma {:induction false} InverseBack(t: seq<int>, s: seq<int>)
    requires Inverse(t, s)
    ensures Inverse(s, t)
  {}

  // Which tables lose no bits.

  function Picked(bits: seq<bool>, t: seq<int>): seq<bool>
    requires |bits| == |t| && forall i | 0 <= i < |t| :: 0 <= t[i] < |t|
  {
    seq(|t|, i requires 0 <= i < |t| => bits[t[i]])
  }

  ghost predicate Lossless(t: seq<int>)
    requires Within(t)
  {
    forall a: seq<bool>, b: seq<bool> | |a| == |b| == |t| && Picked(a, t) == Picked(b, t) :: a == b
  }

  /** A table keeps every block distinguishable exactly when its values are all different. */
  lemma {:induction false} LosslessIs(t: seq<int>)
    requires Within(t)
    ensures Lossless(t) <==> Distinct(t)
  {
    if Distinct(t) {
      forall a: seq<bool>, b: seq<bool> | |a| == |b| == |t| && Picked(a, t) == Picked(b, t) ensures a == b {
        forall v | 0 <= v < |t| ensures a[v] == b[v] {
          var i := Onto(t, v);
          assert Picked(a, t)[i] == Picked(b, t)[i];
        }
      }
    } else {
      var v := Missed(t);
      var a, b := seq(|t|, _ => false), seq(|t|, i => i == v);
      assert Picked(a, t) == Picked(b, t);
      assert a[v] != b[v];
    }
  }

  /** A value that comes twice, or one outside, leaves another one out. */
  lemma {:induction false} Missed(t: seq<int>) returns (v: nat)
    requires !Permutation(t)
    ensures v < |t| && forall i | 0 <= i < |t| :: t[i] != v
  {
    RepeatedCount(t, |t|);
    var all, hit := Below(|t|), Values(t, |t|);
    if !Within(t) {
      var i :| 0 <= i < |t| && !(0 <= t[i] < |t|);
      assert t[i] in hit - all;
    }
    v := Uncovered(all, hit);
  }

  lemma SplitOff(part: set<int>, whole: set<int>)
    requires part <= whole
    ensures |whole| == |part| + |whole - part|
  {
    assert whole == part + (whole - part);
  }

  lemma Uncovered(all: set<int>, hit: set<int>) returns (v: int)
    requires |hit| < |all| || (|hit| == |all| && hit - all != {})
    ensures v in all && v !in hit
  {
    if forall x | x in all :: x in hit {
      SplitOff(all, hit);
      assert false;
    }
    v :| v in all && v !in hit;
  }

  ghost function Below(n: nat): (s: set<int>)
    ensures |s| == n && forall x :: x in s <==> 0 <= x < n
  {
    if n == 0 then {} else Below(n - 1) + {n - 1}
  }

  lemma {:induction false} RepeatedCount(t: seq<int>, n: nat)
    requires n <= |t|
    ensures |Values(t, n)| <= n
    ensures (exists i, j | 0 <= i < j < n :: t[i] == t[j]) ==> |Values(t, n)| < n
  {
    if n == 0 {
      assert Values(t, 0) == {};
    } else {
      RepeatedCount(t, n - 1);
      assert Values(t, n) == Values(t, n - 1) + {t[n - 1]};
      if i, j :| 0 <= i < j < n && t[i] == t[j] {
        if j == n - 1 {
          assert t[i] in Values(t, n - 1);
          assert Values(t, n) == Values(t, n - 1);
        }
      }
    }
  }
}
