/** `GetNfactor`: the time-based N-factor schedule of the Yacoin family.
    A coin profile fixes a start time and a range [minN, maxN]; the factor
    grows with the number of doublings of the time elapsed since the start
    (`l`, counted by a halving loop) and the two bits below its leading one
    (`s & 3`), as (l * 170 + s * 25 - 2320) / 100, clamped to the range and
    returned as an `unsigned char`.

    Timestamps and profile constants are `unsigned int` values, that is
    naturals below 2^32. */
module NFactor {
  import opened Bytes

  datatype Option<T> = None | Some(value: T)

  // ---------------------------------------------------------------------------
  // Profiles

  /** One row of the coin table: the short code matched with `strcmp`, the
      long name matched with `strcasecmp`, the chain start time and the
      bounds of the factor. */
  datatype Coin = Coin(code: string, name: string, start: nat, minN: nat, maxN: nat)

  /** Yacoin, the defaults. */
  const Yacoin := Coin("YAC", "Yacoin", 1367991200, 4, 30)

  /** The coin table, in the order the names are tried. */
  const Coins: seq<Coin> := [
    Yacoin,
    Coin("YBC", "YBCoin", 1372386273, 4, 30),
    Coin("ZZC", "ZZCoin", 1375817223, 12, 30),
    Coin("FEC", "FreeCoin", 1375801200, 6, 32),
    Coin("ONC", "OneCoin", 1371119462, 6, 30),
    Coin("QQC", "QQCoin", 1387769316, 4, 30),
    Coin("GPL", "GoldPressedLatinum", 1377557832, 4, 30),
    Coin("MRC", "MicroCoin", 1389028879, 4, 30),
    Coin("APC", "AppleCoin", 1384720832, 4, 30),
    Coin("CPR", "Copperbars", 1376184687, 4, 30),
    Coin("CACH", "CacheCoin", 1388949883, 4, 30),
    Coin("UTC", "UltraCoin", 1388361600, 4, 30),
    Coin("VEL", "VelocityCoin", 1387769316, 4, 30),
    Coin("ITC", "InternetCoin", 1388385602, 4, 30),
    Coin("RAD", "RadioactiveCoin", 1389196388, 4, 30),
    Coin("LEO", "LEOCoin", 1402845776, 4, 30)
  ]

  /** What the `jane_params` option string selects: nothing (the empty
      string), a name to look up in the table, three numbers
      `start,minN,maxN`, or a single number used as the factor itself. */
  datatype Profile =
    | Default
    | Named(text: string)
    | Triple(start: nat, minN: nat, maxN: nat)
    | BareOverride(n: nat)

  /** A schedule: a start time with clamping bounds, or a fixed factor. */
  datatype Schedule =
    | Clamped(start: nat, minN: nat, maxN: nat)
    | Fixed(n: nat)

  /** `tolower` of the C locale. */
  function Lower(c: char): char
  {
    if 'A' <= c <= 'Z' then (c as int + 32) as char else c
  }

  /** `strcasecmp(a, b) == 0` */
  predicate SameIgnoringCase(a: string, b: string)
  {
    |a| == |b| && forall i :: 0 <= i < |a| ==> Lower(a[i]) == Lower(b[i])
  }

  /** `!strcmp(p, code) || !strcasecmp(p, name)` */
  predicate Selects(p: string, c: Coin)
  {
    p == c.code || SameIgnoringCase(p, c.name)
  }

  /** The chain of `else if` tests: the first row whose code or name the
      text selects. */
  function Lookup(p: string, cs: seq<Coin>): (r: Option<Coin>)
    ensures r.None? <==> forall i :: 0 <= i < |cs| ==> !Selects(p, cs[i])
    ensures r.Some? ==> exists i :: (0 <= i < |cs| && cs[i] == r.value &&
      Selects(p, cs[i]) && forall j :: 0 <= j < i ==> !Selects(p, cs[j]))
  {
    if cs == [] then None
    else if Selects(p, cs[0]) then Some(cs[0])
    else
      var r := Lookup(p, cs[1..]);
      if r.Some? then
        var i :| 0 <= i < |cs[1..]| && cs[1..][i] == r.value &&
          Selects(p, cs[1..][i]) && forall j :: 0 <= j < i ==> !Selects(p, cs[1..][j]);
        assert cs[i + 1] == r.value;
        assert forall j :: 0 < j < i + 1 ==> cs[j] == cs[1..][j - 1];
        r
      else
        assert forall i :: 0 < i < |cs| ==> cs[i] == cs[1..][i - 1];
        r
  }

  function ScheduleOf(c: Coin): Schedule
  {
    Clamped(c.start, c.minN, c.maxN)
  }

  /** The profile part of `GetNfactor`: Yacoin unless the table or the
      numbers say otherwise; a name that is in no row falls back to Yacoin. */
  function Resolve(profile: Profile): Schedule
  {
    match profile
    case Default => ScheduleOf(Yacoin)
    case Named(text) =>
      (match Lookup(text, Coins)
       case Some(c) => ScheduleOf(c)
       case None => ScheduleOf(Yacoin))
    case Triple(start, minN, maxN) => Clamped(start, minN, maxN)
    case BareOverride(n) => Fixed(n)
  }

  // ---------------------------------------------------------------------------
  // The schedule

  /** `l` after the halving loop: how often s is halved before s >> 1 is at
      most 3. */
  function Octave(s: nat): nat
  {
    if s / 2 > 3 then 1 + Octave(s / 2) else 0
  }

  /** `s` after the halving loop. */
  function Top(s: nat): nat
  {
    if s / 2 > 3 then Top(s / 2) else s
  }

  /** l * 170 + (s & 3) * 25 */
  function Scaled(s: nat): nat
  {
    170 * Octave(s) + 25 * (Top(s) % 4)
  }

  /** C's `/` on int: the quotient truncated toward zero. */
  function CDiv(a: int, b: nat): int
    requires b > 0
  {
    if a >= 0 then a / b else -((-a) / b)
  }

  /** `n` after `if (n < 0) n = 0`, for s seconds since the start, with the
      subtraction done in signed arithmetic. */
  function Level(s: nat): nat
  {
    SignedLevel(Scaled(s))
  }

  /** `n` for the sum x = l * 170 + s * 25, in signed arithmetic. */
  function SignedLevel(x: nat): nat
  {
    var n := CDiv(x - 2320, 100);
    if n < 0 then 0 else n
  }

  function Clamp(n: nat, lo: nat, hi: nat): nat
  {
    if n < lo then lo else if n > hi then hi else n
  }

  /** The value `GetNfactor` returns for a timestamp, reduced to the
      `unsigned char` result type. */
  function Nfactor(t: nat, sched: Schedule): (r: nat)
    ensures r < 256
  {
    match sched
    case Fixed(n) => n % 256
    case Clamped(start, lo, hi) =>
      if t <= start then lo % 256 else Clamp(Level(t - start), lo, hi) % 256
  }

  // ---------------------------------------------------------------------------
  // GetNfactor

  /** GetNfactor(nTimestamp) under the option string's profile. */
  method GetNfactor(nTimestamp: nat, profile: Profile) returns (r: nat)
    ensures r == Nfactor(nTimestamp, Resolve(profile))
  {
    var sched := Resolve(profile);
    r := ScheduledNfactor(nTimestamp, sched);
  }

  /** The body of `GetNfactor` once the profile has chosen the schedule. */
  method ScheduledNfactor(nTimestamp: nat, sched: Schedule) returns (r: nat)
    ensures r == Nfactor(nTimestamp, sched)
  {
    if sched.Fixed? {
      return sched.n % 256;
    }
    var start, minN, maxN := sched.start, sched.minN, sched.maxN;
    if nTimestamp <= start {
      return minN % 256;
    }
    var l, s := Halve(nTimestamp - start);
    s := s % 4;
    var scaled: int := l * 170 + s * 25;
    var n := CDiv(scaled - 2320, 100);
    if n < 0 {
      n := 0;
    }
    var nfactor: nat := n;
    if nfactor < minN {
      return minN % 256;
    }
    if nfactor > maxN {
      return maxN % 256;
    }
    return nfactor % 256;
  }

  /** The halving loop of `GetNfactor`: `s >>= 1` while `(s >> 1) > 3`,
      counting the steps in `l`. */
  method Halve(s0: nat) returns (l: nat, s: nat)
    ensures l == Octave(s0) && s == Top(s0)
  {
    s, l := s0, 0;
    while s / 2 > 3
      invariant l + Octave(s) == Octave(s0)
      invariant Top(s) == Top(s0)
    {
      l := l + 1;
      s := s / 2;
    }
  }

  // ---------------------------------------------------------------------------
  // Properties

  /** The halving loop keeps the three leading bits of s: for s >= 4, Top(s)
      is in [4, 8) and s lies in [Top(s) * 2^l, (Top(s) + 1) * 2^l) for
      l = Octave(s); below 8 the loop does not run. */
  lemma {:induction false} LeadingBits(s: nat)
    ensures s < 8 ==> Octave(s) == 0 && Top(s) == s
    ensures s >= 4 ==> 4 <= Top(s) < 8
    ensures s >= 4 ==> Top(s) * Pow2(Octave(s)) <= s < (Top(s) + 1) * Pow2(Octave(s))
  {
    if s / 2 > 3 {
      var h := s / 2;
      LeadingBits(h);
      var t, p := Top(h), Pow2(Octave(h));
      assert Top(s) == t && Pow2(Octave(s)) == 2 * p;
      ScaleRange(t, p, h, s);
    }
  }

  /** Doubling an interval [t * p, (t + 1) * p) that holds s / 2. */
  lemma ScaleRange(t: nat, p: nat, h: nat, s: nat)
    requires h == s / 2 && t * p <= h < (t + 1) * p
    ensures t * (2 * p) <= s < (t + 1) * (2 * p)
  {
    assert t * (2 * p) == 2 * (t * p);
    assert (t + 1) * (2 * p) == 2 * ((t + 1) * p);
  }

  /** Below 2^(k+3) the loop halves at most k times. */
  lemma {:induction false} OctaveBelow(s: nat, k: nat)
    requires s < Pow2(k + 3)
    ensures Octave(s) <= k
  {
    assert Pow2(3) == 8;
    if s / 2 > 3 {
      assert k > 0;
      assert Pow2(k + 3) == 2 * Pow2(k + 2);
      OctaveBelow(s / 2, k - 1);
    }
  }

  /** From 2^(k+2) on the loop halves at least k times. */
  lemma {:induction false} OctaveAbove(s: nat, k: nat)
    requires s >= Pow2(k + 2)
    ensures Octave(s) >= k
  {
    if k > 0 {
      assert Pow2(k + 2) == 2 * Pow2(k + 1);
      assert Pow2(k + 1) >= 4 by {
        Pow2Add(k - 1, 2);
      }
      OctaveAbove(s / 2, k - 1);
    }
  }

  /** For a 32-bit elapsed time, l <= 29, so l * 170 + s * 25 <= 5005 and
      the factor is at most 26: the `n > 255` warning cannot be reached. */
  lemma LevelBound(s: nat)
    requires s < Word32
    ensures Scaled(s) <= 5005
    ensures Level(s) <= 26
  {
    Pow2Word();
    OctaveBelow(s, 29);
  }

  /** Below 65536 seconds l <= 13, so l * 170 + s * 25 < 2320 and the level
      is 0; from 65536 seconds on l >= 14 and the sum is at least 2320. */
  lemma EarlyLevel(s: nat)
    ensures s < 0x1_0000 ==> Scaled(s) < 2320 && Level(s) == 0
    ensures s >= 0x1_0000 ==> Scaled(s) >= 2320
  {
    Pow2Short();
    if s < 0x1_0000 {
      OctaveBelow(s, 13);
    } else {
      OctaveAbove(s, 14);
    }
  }

  /** l * 170 + (s & 3) * 25 does not decrease as s grows from 4 on. */
  lemma {:induction false} ScaledMonotone(s1: nat, s2: nat)
    requires 4 <= s1 <= s2
    ensures Scaled(s1) <= Scaled(s2)
  {
    if s1 < 8 {
      LeadingBits(s1);
      if s2 >= 8 {
        assert Octave(s2) >= 1;
      } else {
        LeadingBits(s2);
      }
    } else {
      assert Octave(s1) == 1 + Octave(s1 / 2) && Top(s1) == Top(s1 / 2);
      assert Octave(s2) == 1 + Octave(s2 / 2) && Top(s2) == Top(s2 / 2);
      ScaledMonotone(s1 / 2, s2 / 2);
    }
  }

  /** The level does not decrease as the elapsed time grows. */
  lemma LevelMonotone(s1: nat, s2: nat)
    requires s1 <= s2
    ensures Level(s1) <= Level(s2)
  {
    if s1 >= 4 {
      ScaledMonotone(s1, s2);
    } else {
      LeadingBits(s1);
    }
  }

  /** Before the start the factor is minN; with minN <= maxN < 256 it always
      lies in [minN, maxN]; a fixed factor is returned as it is, unclamped. */
  lemma NfactorRange(t: nat, sched: Schedule)
    ensures sched.Fixed? ==> Nfactor(t, sched) == sched.n % 256
    ensures sched.Clamped? && t <= sched.start ==> Nfactor(t, sched) == sched.minN % 256
    ensures sched.Clamped? && sched.minN <= sched.maxN < 256 ==>
      sched.minN <= Nfactor(t, sched) <= sched.maxN
  {
  }

  /** Clamping to [lo, hi] keeps the order of its argument. */
  lemma ClampMonotone(n1: nat, n2: nat, lo: nat, hi: nat)
    requires n1 <= n2 && lo <= hi
    ensures lo <= Clamp(n1, lo, hi) <= Clamp(n2, lo, hi) <= hi
  {
  }

  /** With minN <= maxN < 256 the factor does not decrease over time. */
  lemma NfactorMonotone(t1: nat, t2: nat, sched: Schedule)
    requires t1 <= t2
    requires sched.Clamped? ==> sched.minN <= sched.maxN < 256
    ensures Nfactor(t1, sched) <= Nfactor(t2, sched)
  {
    if sched.Clamped? && t2 > sched.start {
      var start, lo, hi := sched.start, sched.minN, sched.maxN;
      if t1 > start {
        LevelMonotone(t1 - start, t2 - start);
        ClampOrder(Level(t1 - start), Level(t2 - start), lo, hi);
      } else {
        ClampOrder(0, Level(t2 - start), lo, hi);
      }
    }
  }

  /** Below 256 the reduction to `unsigned char` keeps the clamp's order. */
  lemma ClampOrder(n1: nat, n2: nat, lo: nat, hi: nat)
    requires n1 <= n2 && lo <= hi < 256
    ensures lo % 256 <= Clamp(n1, lo, hi) % 256 <= Clamp(n2, lo, hi) % 256
  {
    ClampMonotone(n1, n2, lo, hi);
  }

  /** Every table row has minN <= 12 and minN <= maxN. */
  lemma CoinBounds(i: nat)
    requires i < |Coins|
    ensures Coins[i].minN <= 12 && Coins[i].minN <= Coins[i].maxN
  {
  }

  /** The defaults and every name give a clamped schedule from a table row. */
  lemma ResolveFromTable(profile: Profile)
    requires profile.Default? || profile.Named?
    ensures Resolve(profile).Clamped?
    ensures Resolve(profile).minN <= 12 && Resolve(profile).minN <= Resolve(profile).maxN
  {
    if profile.Named? {
      var r := Lookup(profile.text, Coins);
      if r.Some? {
        var i :| 0 <= i < |Coins| && Coins[i] == r.value;
        CoinBounds(i);
      } else {
        CoinBounds(0);
      }
    } else {
      CoinBounds(0);
    }
  }

  /** Through the table (or the defaults) the factor never exceeds 26 for a
      32-bit timestamp, so the `Nfactor > scrypt_maxN` failure of the search
      needs three numbers or a bare override; FreeCoin's maxN of 32 is never
      reached. */
  lemma TableFactorsAtMost26(t: nat, profile: Profile)
    requires t < Word32
    requires profile.Default? || profile.Named?
    ensures Nfactor(t, Resolve(profile)) <= 26
  {
    ResolveFromTable(profile);
    SmallMinNFactor(t, Resolve(profile));
  }

  /** Long names are matched whatever their case, short codes only as
      written: "freecoin" selects FreeCoin, while "fec" selects no row and
      falls back to Yacoin. */
  lemma NameCaseRules()
    ensures Resolve(Named("freecoin")) == Clamped(1375801200, 6, 32)
    ensures Resolve(Named("fec")) == Resolve(Default)
  {
    assert Selects("freecoin", Coins[3]);
    assert forall i :: 0 <= i < 3 ==> !Selects("freecoin", Coins[i]);
    assert forall i :: 0 <= i < |Coins| ==> !Selects("fec", Coins[i]);
  }

  /** A clamped schedule with minN <= 12 and minN <= maxN gives at most 26. */
  lemma SmallMinNFactor(t: nat, sched: Schedule)
    requires t < Word32
    requires sched.Clamped? && sched.minN <= 12 && sched.minN <= sched.maxN
    ensures Nfactor(t, sched) <= 26
  {
    if t > sched.start {
      LevelBound(t - sched.start);
      ClampAtMost(Level(t - sched.start), sched.minN, sched.maxN);
    }
  }

  /** A level of at most 26 clamped from below by minN <= 12 stays at most 26. */
  lemma ClampAtMost(n: nat, lo: nat, hi: nat)
    requires n <= 26 && lo <= 12 && lo <= hi
    ensures Clamp(n, lo, hi) % 256 <= 26
  {
  }

  // ---------------------------------------------------------------------------
  // The subtraction as written

  /** The width of `unsigned long`: 64 bits on LP64 systems (64-bit Linux
      and macOS), 32 bits on LLP64 (64-bit Windows) and on 32-bit builds. */
  datatype LongWidth = Long64 | Long32

  function LongModulus(w: LongWidth): nat
  {
    if w == Long64 then Lane64 else Word32
  }

  /** Conversion of an unsigned value to `int`: the low 32 bits read as two's
      complement. */
  function ToInt32(v: nat): int
    requires v < Word32
  {
    if v < 0x8000_0000 then v else v - Word32
  }

  /** `n` as the source computes it: `s` is `unsigned long`, so the sum minus
      2320 and its quotient by 100 are unsigned, and the quotient is then
      converted to `int` before the `n < 0` test. */
  function LevelAsWritten(w: LongWidth, s: nat): nat
  {
    WrappedLevel(w, Scaled(s))
  }

  /** `n` for the sum x, with the subtraction and division unsigned. */
  function WrappedLevel(w: LongWidth, x: nat): nat
  {
    var u := (x - 2320) % LongModulus(w);
    var n := ToInt32((u / 100) % Word32);
    if n < 0 then 0 else n
  }

  function NfactorAsWritten(w: LongWidth, t: nat, sched: Schedule): (r: nat)
    ensures r < 256
  {
    match sched
    case Fixed(n) => n % 256
    case Clamped(start, lo, hi) =>
      if t <= start then lo % 256 else Clamp(LevelAsWritten(w, t - start), lo, hi) % 256
  }

  /** With a 64-bit `unsigned long` the wrapped difference divided by 100 is
      still at least 2^31 in its low 32 bits, so it converts to a negative
      int, the clamp sets it to 0, and the source agrees with the signed
      reading. */
  lemma LevelAsWrittenOn64BitLong(s: nat)
    requires s < Word32
    ensures LevelAsWritten(Long64, s) == Level(s)
  {
    LevelBound(s);
    WrappedLevelOn64(Scaled(s));
  }

  /** For every sum the search can reach, the 64-bit unsigned computation
      gives the signed level: a negative difference wraps to a quotient
      whose low 32 bits have bit 31 set, and a non-negative one is small. */
  lemma WrappedLevelOn64(x: nat)
    requires x <= 5005
    ensures WrappedLevel(Long64, x) == SignedLevel(x)
  {
    if x < 2320 {
      var u := Lane64 + x - 2320;
      DivModUnique(x - 2320, Lane64, -1, u);
      var q := u / 100;
      assert 184467440737095492 <= q <= 184467440737095516;
      DivModUnique(q, Word32, 42949672, q - 42949672 * Word32);
    } else {
      DivModUnique(x - 2320, Lane64, 0, x - 2320);
    }
  }

  lemma NfactorAsWrittenOn64BitLong(t: nat, sched: Schedule)
    requires t < Word32
    ensures NfactorAsWritten(Long64, t, sched) == Nfactor(t, sched)
  {
    if sched.Clamped? && t > sched.start {
      LevelAsWrittenOn64BitLong(t - sched.start);
    }
  }

  /** With a 32-bit `unsigned long`, less than 65536 seconds after the start
      the wrapped quotient is a positive int above 42 million, so the factor
      is maxN instead of minN. */
  lemma NfactorAsWrittenOn32BitLong(t: nat, sched: Schedule)
    requires sched.Clamped? && sched.start < t < sched.start + 0x1_0000
    requires sched.minN <= sched.maxN < 42949649
    ensures NfactorAsWritten(Long32, t, sched) == sched.maxN % 256
    ensures Nfactor(t, sched) == Clamp(0, sched.minN, sched.maxN) % 256
  {
    var s := t - sched.start;
    EarlyLevel(s);
    WrappedLevelOn32(Scaled(s));
  }

  /** A negative difference wrapped to 32 bits and divided by 100 is a
      positive int of at least 42949649. */
  lemma WrappedLevelOn32(x: nat)
    requires x < 2320
    ensures WrappedLevel(Long32, x) >= 42949649
  {
    var u := Word32 + x - 2320;
    DivModUnique(x - 2320, Word32, -1, u);
    assert 42949649 <= u / 100 <= 42949672;
  }

  /** Yacoin one second after its start: 30 on a 32-bit `unsigned long`,
      where 4 is meant. */
  lemma YacoinOneSecondIn()
    ensures NfactorAsWritten(Long32, 1367991201, Resolve(Default)) == 30
    ensures Nfactor(1367991201, Resolve(Default)) == 4
  {
    NfactorAsWrittenOn32BitLong(1367991201, Resolve(Default));
  }
}
