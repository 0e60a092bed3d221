/** freq_state of fdmdv.c: sync marks from the last six pilot bits, and a machine that holds sync through fades. */
module ModemSync {

  const UNIQUE_WORD: seq<int> := [1, -1, 1, -1, 1, -1]

  /** Pilot bit k of the history as +1 or -1; before the first bit the memory holds zeros. */
  function Symbol(bits: seq<bool>, k: int): int
    requires k < |bits|
  {
    if k < 0 then 0 else if bits[k] then -1 else 1
  }

  /** The last six bits are 0 1 0 1 0 1. */
  predicate Mark(bits: seq<bool>) {
    |bits| >= 6 && bits[|bits| - 6..] == [false, true, false, true, false, true]
  }

  /** The last six bits alternate, either way round. */
  predicate Word(bits: seq<bool>) {
    Mark(bits) || (|bits| >= 6 && bits[|bits| - 6..] == [true, false, true, false, true, false])
  }

  datatype Fest = Fest(state: nat, timer: nat)

  /** One step of the state machine on whether a unique word was seen. */
  function Next(f: Fest, word: bool): Fest {
    match f.state
    case 0 => if word then Fest(1, 0) else f
    case 1 => if !word then f.(state := 0) else Fest(if f.timer + 1 == 25 then 2 else 1, f.timer + 1)
    case 2 => if word then f else Fest(3, 0)
    case 3 => if word then f.(state := 2) else Fest(if f.timer + 1 == 50 then 0 else 3, f.timer + 1)
    case _ => f
  }

  class Sync {
    var mem: seq<int>
    var fest: Fest
    ghost var bits: seq<bool>

    ghost predicate Valid()
      reads this
    {
      |mem| == 6 && forall i | 0 <= i < 6 :: mem[i] == Symbol(bits, |bits| - 6 + i)
    }

    constructor ()
      ensures Valid() && bits == [] && fest == Fest(0, 0)
    {
      mem, fest, bits := [0, 0, 0, 0, 0, 0], Fest(0, 0), [];
    }

    /** freq_state: the correlation with the unique word finds its pattern exactly. */
    method FreqState(bit: bool) returns (sync: bool, reliable: bool)
      requires Valid()
      modifies this
      ensures Valid() && bits == old(bits) + [bit]
      ensures reliable == Mark(bits)
      ensures fest == Next(old(fest), Word(bits)) && sync == (fest.state != 0)
    {
      bits := bits + [bit];
      mem := mem[1..] + [if bit then -1 else 1];
      var corr := 0;
      for i := 0 to 6
        invariant corr == Correlation(mem, i)
      {
        corr := corr + mem[i] * UNIQUE_WORD[i];
      }
      CorrelationIs(bits, mem);
      var word := corr == 6 || corr == -6;
      reliable := corr == 6;
      fest := Next(fest, word);
      sync := fest.state != 0;
    }
  }

  function Correlation(mem: seq<int>, n: nat): int
    requires |mem| == 6 && n <= 6
  {
    if n == 0 then 0 else Correlation(mem, n - 1) + mem[n - 1] * UNIQUE_WORD[n - 1]
  }

  lemma {:induction false} CorrelationIs(bits: seq<bool>, mem: seq<int>)
    requires |mem| == 6 && forall i | 0 <= i < 6 :: mem[i] == Symbol(bits, |bits| - 6 + i)
    ensures Correlation(mem, 6) == 6 <==> Mark(bits)
    ensures Correlation(mem, 6) == 6 || Correlation(mem, 6) == -6 <==> Word(bits)
  {
    assert Correlation(mem, 1) == mem[0];
    assert Correlation(mem, 2) == mem[0] - mem[1];
    assert Correlation(mem, 3) == mem[0] - mem[1] + mem[2];
    assert Correlation(mem, 4) == mem[0] - mem[1] + mem[2] - mem[3];
    assert Correlation(mem, 5) == mem[0] - mem[1] + mem[2] - mem[3] + mem[4];
    assert Correlation(mem, 6) == mem[0] - mem[1] + mem[2] - mem[3] + mem[4] - mem[5];
    if |bits| < 6 {
      assert mem[0] == 0;
    } else {
      var last := bits[|bits| - 6..];
      assert forall i | 0 <= i < 6 :: mem[i] == (if last[i] then -1 else 1);
      SixBits(last);
    }
  }

  lemma SixBits(last: seq<bool>)
    requires |last| == 6
    ensures last == [last[0], last[1], last[2], last[3], last[4], last[5]]
  {}

  /** Whatever the bits, marks less than six frames apart are an even number of frames apart. */
  lemma {:induction false} MarksApart(bits: seq<bool>, d: nat)
    requires d < 6 && d <= |bits| && Mark(bits) && Mark(bits[..|bits| - d])
    ensures d % 2 == 0
  {
    var n := |bits|;
    assert bits[n - 6..][5 - d] == bits[n - d - 1] == bits[..n - d][n - d - 6..][5];
  }

  /** When the pilot bits alternate from frame 1 on, marks fall on odd frames only, and on every odd frame from 7 on. */
  lemma {:induction false} MarksAlternate(bits: seq<bool>, t: nat)
    requires t < |bits| && forall k | 1 <= k < |bits| :: bits[k] == (k % 2 == 1)
    ensures Mark(bits[..t + 1]) ==> t % 2 == 1 && t >= 5
    ensures t >= 7 ==> (Mark(bits[..t + 1]) <==> t % 2 == 1)
  {
    var b := bits[..t + 1];
    if Mark(b) {
      assert b[|b| - 6..][5] == bits[t] && b[|b| - 6..][3] == bits[t - 2];
    }
    if t >= 7 && t % 2 == 1 {
      assert b[|b| - 6..] == [bits[t - 5], bits[t - 4], bits[t - 3], bits[t - 2], bits[t - 1], bits[t]];
    }
  }

  // Runs of the state machine.

  function Run(f: Fest, words: seq<bool>): Fest {
    if words == [] then f else Next(Run(f, words[..|words| - 1]), words[|words| - 1])
  }

  /** The last n flags of a run are all equal to w. */
  predicate Lately(words: seq<bool>, n: nat, w: bool) {
    n <= |words| && forall i | |words| - n <= i < |words| :: words[i] == w
  }

  /** The timer counts the words seen in a row in state 1, and those missed in a row in state 3. */
  ghost predicate Reachable(f: Fest, words: seq<bool>) {
    match f.state
    case 0 => true
    case 1 => f.timer < 25 && Lately(words, f.timer + 1, true)
    case 2 => true
    case 3 => f.timer < 50 && Lately(words, f.timer + 1, false)
    case _ => false
  }

  lemma {:induction false} RunReachable(words: seq<bool>)
    ensures Reachable(Run(Fest(0, 0), words), words)
  {
    if words != [] {
      RunReachable(words[..|words| - 1]);
    }
  }

  /** Sync becomes good only after 26 words in a row, and is lost again only after 51 misses in a row. */
  lemma {:induction false} HardToEnterAndLeave(words: seq<bool>)
    requires words != []
    ensures var f, g := Run(Fest(0, 0), words[..|words| - 1]), Run(Fest(0, 0), words);
            && (f.state < 2 <= g.state ==> g.state == 2 && Lately(words, 26, true))
            && (f.state >= 2 > g.state ==> g.state == 0 && Lately(words, 51, false))
  {
    RunReachable(words[..|words| - 1]);
  }

  /** From wherever it is, 26 words in a row make sync good, and 51 misses in a row end it. */
  lemma {:induction false} SureToEnterAndLeave(words: seq<bool>, n: nat)
    requires n <= |words|
    ensures var f := Run(Fest(0, 0), words);
            && (Lately(words, n, true) && n >= 1 ==> f.state == 2 || (f.state == 1 && f.timer >= n - 1))
            && (Lately(words, n, false) && n >= 1 ==> f.state == 0 || (f.state == 3 && f.timer >= n - 1))
            && (Lately(words, n, true) && n >= 26 ==> f.state == 2)
            && (Lately(words, n, false) && n >= 51 ==> f.state == 0)
  {
    RunReachable(words);
    if n >= 1 {
      var before := words[..|words| - 1];
      RunReachable(before);
      SureToEnterAndLeave(before, n - 1);
    }
  }
}
