/** smooth_amp of ampexp.c: above 2 kHz the harmonics of each frequency bin get their common root mean square. */
module SmoothAmp {
  import C = Complex

  const BIN_EDGES: seq<real> := [2000.0, 2400.0, 2800.0, 3000.0, 3400.0, 3600.0, 4000.0]

  /** The frequency of harmonic m in Hz: m*Wo*FS/TWO_PI. */
  function Frequency(wo: real, m: nat): real {
    m as real * wo * 8000.0 / 6.283185307
  }

  /** The bin of a frequency up to 4 kHz; -1 stands for the frequencies that are left alone. */
  function Bin(f: real): (b: int)
    ensures -1 <= b < 6
    ensures b == -1 <==> f <= BIN_EDGES[0]
    ensures b >= 0 && f <= 4000.0 ==> BIN_EDGES[b] < f <= BIN_EDGES[b + 1]
  {
    if f <= 2000.0 then -1
    else if f <= 2400.0 then 0
    else if f <= 2800.0 then 1
    else if f <= 3000.0 then 2
    else if f <= 3400.0 then 3
    else if f <= 3600.0 then 4
    else 5
  }

  function BinOf(wo: real, m: nat): (b: int)
    ensures -1 <= b < 6
  {
    Bin(Frequency(wo, m))
  }

  /** In radians: the harmonics up to a quarter of the sampling frequency are left alone, and half of it is the end. */
  lemma BinIs(wo: real, m: nat)
    ensures BinOf(wo, m) == -1 <==> 4.0 * (m as real * wo) <= 6.283185307
    ensures Frequency(wo, m) <= 4000.0 <==> 2.0 * (m as real * wo) <= 6.283185307
    ensures BinOf(wo, m) >= 0 && Frequency(wo, m) <= 4000.0 ==>
              BIN_EDGES[BinOf(wo, m)] * 6.283185307 < m as real * wo * 8000.0
              <= BIN_EDGES[BinOf(wo, m) + 1] * 6.283185307
  {
    var x := m as real * wo;
    assert Frequency(wo, m) == x * 8000.0 / 6.283185307;
  }

  /** The search for the bin. Above the last edge the table is read beyond its end, and no bin is found. */
  method FindBin(f: real) returns (found: bool, b: nat)
    requires BIN_EDGES[0] < f
    ensures found <==> f <= 4000.0
    ensures found ==> b == Bin(f)
    ensures found ==> b == if f <= 2400.0 then 0 else if f <= 2800.0 then 1 else if f <= 3000.0 then 2
                           else if f <= 3400.0 then 3 else if f <= 3600.0 then 4 else 5
  {
    b := 0;
    for i := 0 to 7
      invariant b < 6 && (f > 4000.0 ==> i < 7)
      invariant f <= 4000.0 && i > Bin(f) ==> b == Bin(f)
    {
      if f > BIN_EDGES[i] {
        if i + 1 == |BIN_EDGES| {
          return false, b;
        }
        if f <= BIN_EDGES[i + 1] {
          b := i;
        }
      }
    }
    found := true;
  }

  /** The energy of the harmonics of bin b among the first n. */
  function Energy(a: seq<real>, wo: real, b: int, n: nat): real
    requires n < |a|
  {
    if n == 0 then 0.0 else Energy(a, wo, b, n - 1) + if BinOf(wo, n) == b then C.Square(a[n]) else 0.0
  }

  /** The number of harmonics of bin b among the first n. */
  function Members(wo: real, b: int, n: nat): nat {
    if n == 0 then 0 else Members(wo, b, n - 1) + if BinOf(wo, n) == b then 1 else 0
  }

  lemma {:induction false} MembersGrow(wo: real, b: int, m: nat, n: nat)
    requires m <= n
    ensures Members(wo, b, m) <= Members(wo, b, n)
  {
    if m < n {
      MembersGrow(wo, b, m, n - 1);
    }
  }

  lemma {:induction false} EnergyPositive(a: seq<real>, wo: real, b: int, n: nat)
    requires n < |a|
    ensures Energy(a, wo, b, n) >= 0.0
  {
    if n != 0 {
      EnergyPositive(a, wo, b, n - 1);
      C.SquarePositive(a[n]);
    }
  }

  ghost predicate IsRoot(sqrt: real -> real) {
    forall x | x >= 0.0 :: C.Square(sqrt(x)) == x
  }

  /** The new amplitude of the harmonics of bin b. */
  ghost function Level(a: seq<real>, wo: real, l: nat, sqrt: real -> real, b: int): real
    requires l < |a| && Members(wo, b, l) > 0
  {
    sqrt(Energy(a, wo, b, l) / Members(wo, b, l) as real)
  }

  lemma LevelIs(a: seq<real>, wo: real, l: nat, sqrt: real -> real, b: int)
    requires l < |a| && Members(wo, b, l) > 0
    ensures Level(a, wo, l, sqrt, b) == sqrt(Energy(a, wo, b, l) / Members(wo, b, l) as real)
  {}

  /** All harmonics lie within the bins or below them. */
  ghost predicate Covered(wo: real, l: nat) {
    forall m | 1 <= m <= l :: Frequency(wo, m) <= 4000.0
  }

  /** The first loop: energy and number of harmonics of each bin, unless one of them is beyond the bins. */
  method Collect(a: array<real>, wo: real, l: nat, av: array<real>, nav: array<nat>) returns (defined: bool)
    requires l < a.Length && av.Length == nav.Length == 40 && a != av
    requires forall b | 0 <= b < 6 :: av[b] == 0.0 && nav[b] == 0
    modifies av, nav
    ensures defined <==> Covered(wo, l)
    ensures defined ==> forall b | 0 <= b < 6 :: av[b] == Energy(a[..], wo, b, l) && nav[b] == Members(wo, b, l)
  {
    hide Frequency, Bin;
    ghost var s := a[..];
    for m := 1 to l + 1
      invariant a[..] == s && forall k | 1 <= k < m :: Frequency(wo, k) <= 4000.0
      invariant forall b | 0 <= b < 6 :: av[b] == Energy(s, wo, b, m - 1) && nav[b] == Members(wo, b, m - 1)
    {
      var f := Frequency(wo, m);
      if f > BIN_EDGES[0] {
        var found, b := FindBin(f);
        if !found {
          return false;
        }
        av[b] := av[b] + a[m] * a[m];
        nav[b] := nav[b] + 1;
      }
    }
    defined := true;
  }

  /** smooth_amp; nothing is promised for a frame with a harmonic beyond the last edge, and nothing has changed. */
  method SmoothAmp(a: array<real>, wo: real, l: nat, sqrt: real -> real) returns (defined: bool)
    requires l < a.Length
    modifies a
    ensures defined <==> Covered(wo, l)
    ensures defined ==> Smoothed(old(a[..]), a[..], wo, l, sqrt)
    ensures forall m | 0 <= m < a.Length && !(defined && 1 <= m <= l) :: a[m] == old(a[m])
  {
    hide Frequency, Bin, Level;
    ghost var s := a[..];
    var av := new real[40](_ => 0.0);
    var nav := new nat[40](_ => 0);
    defined := Collect(a, wo, l, av, nav);
    if !defined {
      return;
    }
    for m := 1 to l + 1
      modifies a
      invariant forall i | 0 <= i < a.Length && !(1 <= i < m && BinOf(wo, i) >= 0) :: a[i] == s[i]
      invariant forall i | 1 <= i < m && BinOf(wo, i) >= 0 ::
                  Members(wo, BinOf(wo, i), l) > 0 && a[i] == Level(s, wo, l, sqrt, BinOf(wo, i))
    {
      var f := Frequency(wo, m);
      if f > BIN_EDGES[0] {
        var _, b := FindBin(f);
        MembersGrow(wo, b, m, l);
        a[m] := sqrt(av[b] / nav[b] as real);
        LevelIs(s, wo, l, sqrt, b);
      }
    }
  }

  /** The amplitudes before and after, as the method relates them. */
  ghost predicate Smoothed(a: seq<real>, a': seq<real>, wo: real, l: nat, sqrt: real -> real) {
    && |a| == |a'| > l
    && (forall m | 1 <= m <= l && BinOf(wo, m) < 0 :: a'[m] == a[m])
    && forall m | 1 <= m <= l && BinOf(wo, m) >= 0 ::
         Members(wo, BinOf(wo, m), l) > 0 && a'[m] == Level(a, wo, l, sqrt, BinOf(wo, m))
  }

  function Share(n: nat, mean: real): real {
    n as real * mean
  }

  lemma ShareStep(n: nat, mean: real)
    ensures Share(n + 1, mean) == Share(n, mean) + mean
  {}

  lemma ShareAll(e: real, n: nat)
    requires n > 0 && e >= 0.0
    ensures Share(n, e / n as real) == e && e / n as real >= 0.0
  {}

  lemma {:induction false} BinEnergyUpTo(a: seq<real>, a': seq<real>, wo: real, l: nat, sqrt: real -> real, b: int,
                                         n: nat)
    requires Smoothed(a, a', wo, l, sqrt) && IsRoot(sqrt) && 0 <= b < 6 && n <= l && Members(wo, b, l) > 0
    ensures Energy(a', wo, b, n) == Share(Members(wo, b, n), Energy(a, wo, b, l) / Members(wo, b, l) as real)
  {
    if n != 0 {
      BinEnergyUpTo(a, a', wo, l, sqrt, b, n - 1);
      hide C.Square, BinOf, Share;
      if BinOf(wo, n) == b {
        ShareStep(Members(wo, b, n - 1), Energy(a, wo, b, l) / Members(wo, b, l) as real);
        MemberSquare(a, a', wo, l, sqrt, n);
      }
    }
  }

  lemma {:induction false} MemberSquare(a: seq<real>, a': seq<real>, wo: real, l: nat, sqrt: real -> real, m: nat)
    requires Smoothed(a, a', wo, l, sqrt) && IsRoot(sqrt) && 1 <= m <= l && BinOf(wo, m) >= 0
    ensures var b := BinOf(wo, m);
            Members(wo, b, l) > 0 && C.Square(a'[m]) == Energy(a, wo, b, l) / Members(wo, b, l) as real
  {
    var b := BinOf(wo, m);
    EnergyPositive(a, wo, b, l);
    ShareAll(Energy(a, wo, b, l), Members(wo, b, l));
    hide C.Square, BinOf, Energy, Members;
  }

  lemma {:induction false} NoMembers(a: seq<real>, wo: real, b: int, n: nat)
    requires n < |a| && Members(wo, b, n) == 0
    ensures Energy(a, wo, b, n) == 0.0
  {
    if n != 0 {
      NoMembers(a, wo, b, n - 1);
    }
  }

  lemma {:induction false} LowEnergy(a: seq<real>, a': seq<real>, wo: real, l: nat, sqrt: real -> real, n: nat)
    requires Smoothed(a, a', wo, l, sqrt) && n <= l
    ensures Energy(a', wo, -1, n) == Energy(a, wo, -1, n)
  {
    if n != 0 {
      LowEnergy(a, a', wo, l, sqrt, n - 1);
    }
  }

  /** Every bin keeps its energy, the harmonics below the bins included. */
  lemma {:induction false} BinEnergy(a: seq<real>, a': seq<real>, wo: real, l: nat, sqrt: real -> real, b: int)
    requires Smoothed(a, a', wo, l, sqrt) && IsRoot(sqrt) && -1 <= b < 6
    ensures Energy(a', wo, b, l) == Energy(a, wo, b, l)
  {
    hide IsRoot, Energy, Members;
    if b == -1 {
      LowEnergy(a, a', wo, l, sqrt, l);
    } else if Members(wo, b, l) == 0 {
      NoMembers(a, wo, b, l);
      NoMembers(a', wo, b, l);
    } else {
      BinEnergyUpTo(a, a', wo, l, sqrt, b, l);
      EnergyPositive(a, wo, b, l);
      ShareAll(Energy(a, wo, b, l), Members(wo, b, l));
    }
  }

  /** The energy of the first n harmonics. */
  function TotalEnergy(a: seq<real>, n: nat): real
    requires n < |a|
  {
    if n == 0 then 0.0 else TotalEnergy(a, n - 1) + C.Square(a[n])
  }

  lemma {:induction false} TotalIs(a: seq<real>, wo: real, n: nat)
    requires n < |a|
    ensures TotalEnergy(a, n) ==
            Energy(a, wo, -1, n) + Energy(a, wo, 0, n) + Energy(a, wo, 1, n) + Energy(a, wo, 2, n) +
            Energy(a, wo, 3, n) + Energy(a, wo, 4, n) + Energy(a, wo, 5, n)
  {
    if n != 0 {
      TotalIs(a, wo, n - 1);
      hide C.Square, Bin, Frequency;
    }
  }

  /** Smoothing keeps the energy of the frame. */
  lemma {:induction false} FrameEnergy(a: seq<real>, a': seq<real>, wo: real, l: nat, sqrt: real -> real)
    requires Smoothed(a, a', wo, l, sqrt) && IsRoot(sqrt)
    ensures TotalEnergy(a', l) == TotalEnergy(a, l)
  {
    TotalIs(a, wo, l);
    TotalIs(a', wo, l);
    hide *;
    BinEnergy(a, a', wo, l, sqrt, -1);
    BinEnergy(a, a', wo, l, sqrt, 0);
    BinEnergy(a, a', wo, l, sqrt, 1);
    BinEnergy(a, a', wo, l, sqrt, 2);
    BinEnergy(a, a', wo, l, sqrt, 3);
    BinEnergy(a, a', wo, l, sqrt, 4);
    BinEnergy(a, a', wo, l, sqrt, 5);
  }
}
