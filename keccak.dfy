/** The Keccak-f[1600] permutation as `keccak_block` runs it: 25 lanes of 64
    bits, one 72-byte rate block XORed into lanes 0..8, then 24 rounds of
    theta, rho, pi, chi and iota (section 3.2 of FIPS 202).

    Each step mapping is first defined out of place by the formulas of FIPS
    202 sections 3.2.1-3.2.5, iota with the source's table of round
    constants; the in-place methods that follow the source's statement order
    are proved to compute exactly these mappings. */
module Keccak {
  import opened Bytes

  /** SCRYPT_KECCAK_F / 64 lanes of state. */
  const StateLanes: nat := 25
  /** SCRYPT_HASH_BLOCK_SIZE: rate r = 1600 - 1024 = 576 bits, 72 bytes. */
  const RateBytes: nat := 72
  /** The rate block covers lanes 0..8. */
  const RateLanes: nat := 9
  const NumRounds: nat := 24

  /** A permutation state: lane (x, y) is at index x + 5y. */
  type Lanes = s: seq<u64> | |s| == 25 witness seq(25, _ => 0)

  function ZeroState(): (z: Lanes)
    ensures forall i :: 0 <= i < 25 ==> z[i] == 0
  {
    seq(25, _ => 0)
  }

  /** keccak_round_constants: RC[ir] for rounds 0..23, as the source lists
      them (not derived here from rc(t) of Algorithm 5 of FIPS 202). */
  const RoundConstants: seq<u64> := [
    0x0000000000000001, 0x0000000000008082,
    0x800000000000808a, 0x8000000080008000,
    0x000000000000808b, 0x0000000080000001,
    0x8000000080008081, 0x8000000000008009,
    0x000000000000008a, 0x0000000000000088,
    0x0000000080008009, 0x000000008000000a,
    0x000000008000808b, 0x800000000000008b,
    0x8000000000008089, 0x8000000000008003,
    0x8000000000008002, 0x8000000000000080,
    0x000000000000800a, 0x800000008000000a,
    0x8000000080008081, 0x8000000000008080,
    0x0000000080000001, 0x8000000080008008
  ]

  // ---------------------------------------------------------------------------
  // rho offsets and pi sources

  /** The rho rotation offset of lane x + 5y (Table 2 of FIPS 202). */
  const RhoOffsets: seq<nat> := [0, 1, 62, 28, 27] + [36, 44, 6, 55, 20] + [3, 10, 43, 25, 39] +
                                [41, 45, 15, 21, 8] + [18, 2, 61, 56, 14]

  /** The lanes visited by the walk of Algorithm 2 of FIPS 202, as (x, y). */
  const RhoWalk: seq<(nat, nat)> :=
    [(1, 0), (0, 2), (2, 1), (1, 2), (2, 3), (3, 3)] + [(3, 0), (0, 1), (1, 3), (3, 1), (1, 4), (4, 4)] +
    [(4, 0), (0, 3), (3, 4), (4, 3), (3, 2), (2, 2)] + [(2, 0), (0, 4), (4, 2), (2, 4), (4, 1), (1, 1)]

  /** The walk of Algorithm 2 of FIPS 202: it starts at (1, 0) and steps
      (x, y) := (y, (2x + 3y) mod 5). */
  lemma RhoWalkSteps()
    ensures RhoWalk[0] == (1, 0)
    ensures forall t :: 0 <= t < 23 ==>
      RhoWalk[t + 1] == (RhoWalk[t].1, (2 * RhoWalk[t].0 + 3 * RhoWalk[t].1) % 5)
  {
  }

  /** Step t of the walk rotates its lane by (t + 1)(t + 2)/2 mod 64, and the
      lane the walk never visits, (0, 0), is not rotated. */
  lemma RhoOffsetsFollowWalk()
    ensures forall t :: 0 <= t < 24 ==>
      RhoWalk[t].0 < 5 && RhoWalk[t].1 < 5 &&
      RhoOffsets[RhoWalk[t].0 + 5 * RhoWalk[t].1] == ((t + 1) * (t + 2) / 2) % 64
    ensures RhoOffsets[0] == 0
  {
    forall t | 0 <= t < 24
      ensures RhoWalk[t].0 < 5 && RhoWalk[t].1 < 5
      ensures RhoOffsets[RhoWalk[t].0 + 5 * RhoWalk[t].1] == ((t + 1) * (t + 2) / 2) % 64
    {
      RhoOffsetAt(t);
    }
  }

  /** Step t of the walk, one step at a time. */
  lemma RhoOffsetAt(t: nat)
    requires t < 24
    ensures RhoWalk[t].0 < 5 && RhoWalk[t].1 < 5
    ensures RhoOffsets[RhoWalk[t].0 + 5 * RhoWalk[t].1] == ((t + 1) * (t + 2) / 2) % 64
  {
    if t < 6 {
      assert t == 0 || t == 1 || t == 2 || t == 3 || t == 4 || t == 5;
    } else if t < 12 {
      assert t == 6 || t == 7 || t == 8 || t == 9 || t == 10 || t == 11;
    } else if t < 18 {
      assert t == 12 || t == 13 || t == 14 || t == 15 || t == 16 || t == 17;
    } else {
      assert t == 18 || t == 19 || t == 20 || t == 21 || t == 22 || t == 23;
    }
  }

  /** The walk visits each of the 24 lanes other than (0, 0) once. */
  lemma RhoWalkVisitsEachLaneOnce()
    ensures forall t :: 0 <= t < 24 ==> RhoWalk[t] != (0, 0)
    ensures forall t, t' :: 0 <= t < t' < 24 ==> RhoWalk[t] != RhoWalk[t']
  {
  }

  /** pi: lane i of the result is lane PiSources[i] of the input. */
  const PiSources: seq<nat> := [0, 6, 12, 18, 24] + [3, 9, 10, 16, 22] + [1, 7, 13, 19, 20] +
                               [4, 5, 11, 17, 23] + [2, 8, 14, 15, 21]

  /** The table is the pi mapping of FIPS 202 section 3.2.3:
      A'[x, y] = A[(x + 3y) mod 5, x]. */
  lemma PiSourcesAreFips(x: nat, y: nat)
    requires x < 5 && y < 5
    ensures PiSources[x + 5 * y] == (x + 3 * y) % 5 + 5 * x
  {
    assert y == 0 || y == 1 || y == 2 || y == 3 || y == 4;
    assert x == 0 || x == 1 || x == 2 || x == 3 || x == 4;
  }

  /** pi moves every lane to a different place. */
  lemma PiIsPermutation()
    ensures forall i :: 0 <= i < 25 ==> PiSources[i] < 25
    ensures forall i, j :: 0 <= i < j < 25 ==> PiSources[i] != PiSources[j]
  {
  }

  // ---------------------------------------------------------------------------
  // The step mappings, out of place

  /** theta, first half: the parity C[x] of column x. */
  function ColumnParity(a: Lanes, x: nat): u64
    requires x < 5
  {
    Xor(Xor(Xor(Xor(a[x], a[x + 5]), a[x + 10]), a[x + 15]), a[x + 20])
  }

  /** theta, second half: D[x] = C[x - 1] ^ rot(C[x + 1], 1). */
  function ThetaEffect(a: Lanes, x: nat): u64
    requires x < 5
  {
    Xor(ColumnParity(a, (x + 4) % 5), Rotl64(ColumnParity(a, (x + 1) % 5), 1))
  }

  /** theta: A'[x, y] = A[x, y] ^ D[x]. */
  function Theta(a: Lanes): Lanes
  {
    seq(25, i requires 0 <= i < 25 => Xor(a[i], ThetaEffect(a, i % 5)))
  }

  /** Lanes of column x XORed with d, the others as they are. */
  function XorColumnOf(a: Lanes, x: nat, d: u64): (r: Lanes)
    requires x < 5
  {
    seq(25, i requires 0 <= i < 25 => if i % 5 == x then Xor(a[i], d) else a[i])
  }

  /** The state after the column updates of theta for columns 0..k-1. */
  function ThetaUpTo(a: Lanes, k: nat): Lanes
    requires k <= 5
  {
    if k == 0 then a else XorColumnOf(ThetaUpTo(a, k - 1), k - 1, ThetaEffect(a, k - 1))
  }

  /** After k column updates, exactly the lanes of columns below k carry
      their theta effect. */
  lemma {:induction false} ThetaUpToLane(a: Lanes, k: nat, i: nat)
    requires k <= 5 && i < 25
    ensures ThetaUpTo(a, k)[i] == if i % 5 < k then Xor(a[i], ThetaEffect(a, i % 5)) else a[i]
  {
    if k > 0 {
      ThetaUpToLane(a, k - 1, i);
    }
  }

  /** The five column updates are theta. */
  lemma ThetaByColumns(a: Lanes)
    ensures ThetaUpTo(a, 5) == Theta(a)
  {
    forall i | 0 <= i < 25
      ensures ThetaUpTo(a, 5)[i] == Theta(a)[i]
    {
      ThetaUpToLane(a, 5, i);
    }
    LanesEqual(ThetaUpTo(a, 5), Theta(a));
  }

  /** Two states with the same lanes are equal. */
  lemma LanesEqual(x: Lanes, y: Lanes)
    requires forall i :: 0 <= i < 25 ==> x[i] == y[i]
    ensures x == y
  {
  }

  /** rho followed by pi: every lane is rotated by its rho offset and moved
      to its pi destination. */
  function RhoPi(a: Lanes): Lanes
  {
    seq(25, i requires 0 <= i < 25 => Rotl64(a[PiSources[i]], RhoOffsets[PiSources[i]]))
  }

  /** Lane i of rho-pi, once the two tables have been read. */
  lemma RhoPiLane(a: Lanes, i: nat, src: nat, n: nat)
    requires i < 25 && PiSources[i] == src && RhoOffsets[src] == n
    ensures RhoPi(a)[i] == Rotl64(a[src], n)
  {
  }

  /** Row y of the source's chain: its five statements agree with the
      table form. */
  lemma RhoPiRow0(a: Lanes, b: Lanes)
    requires b[0] == Rotl64(a[0], 0)
    requires b[1] == Rotl64(a[6], 44)
    requires b[2] == Rotl64(a[12], 43)
    requires b[3] == Rotl64(a[18], 21)
    requires b[4] == Rotl64(a[24], 14)
    ensures forall i :: 0 <= i < 5 ==> b[i] == RhoPi(a)[i]
  {
    RhoPiLane(a, 0, 0, 0);
    RhoPiLane(a, 1, 6, 44);
    RhoPiLane(a, 2, 12, 43);
    RhoPiLane(a, 3, 18, 21);
    RhoPiLane(a, 4, 24, 14);
  }

  lemma RhoPiRow1(a: Lanes, b: Lanes)
    requires b[5] == Rotl64(a[3], 28)
    requires b[6] == Rotl64(a[9], 20)
    requires b[7] == Rotl64(a[10], 3)
    requires b[8] == Rotl64(a[16], 45)
    requires b[9] == Rotl64(a[22], 61)
    ensures forall i :: 5 <= i < 10 ==> b[i] == RhoPi(a)[i]
  {
    RhoPiLane(a, 5, 3, 28);
    RhoPiLane(a, 6, 9, 20);
    RhoPiLane(a, 7, 10, 3);
    RhoPiLane(a, 8, 16, 45);
    RhoPiLane(a, 9, 22, 61);
  }

  lemma RhoPiRow2(a: Lanes, b: Lanes)
    requires b[10] == Rotl64(a[1], 1)
    requires b[11] == Rotl64(a[7], 6)
    requires b[12] == Rotl64(a[13], 25)
    requires b[13] == Rotl64(a[19], 8)
    requires b[14] == Rotl64(a[20], 18)
    ensures forall i :: 10 <= i < 15 ==> b[i] == RhoPi(a)[i]
  {
    RhoPiLane(a, 10, 1, 1);
    RhoPiLane(a, 11, 7, 6);
    RhoPiLane(a, 12, 13, 25);
    RhoPiLane(a, 13, 19, 8);
    RhoPiLane(a, 14, 20, 18);
  }

  lemma RhoPiRow3(a: Lanes, b: Lanes)
    requires b[15] == Rotl64(a[4], 27)
    requires b[16] == Rotl64(a[5], 36)
    requires b[17] == Rotl64(a[11], 10)
    requires b[18] == Rotl64(a[17], 15)
    requires b[19] == Rotl64(a[23], 56)
    ensures forall i :: 15 <= i < 20 ==> b[i] == RhoPi(a)[i]
  {
    RhoPiLane(a, 15, 4, 27);
    RhoPiLane(a, 16, 5, 36);
    RhoPiLane(a, 17, 11, 10);
    RhoPiLane(a, 18, 17, 15);
    RhoPiLane(a, 19, 23, 56);
  }

  lemma RhoPiRow4(a: Lanes, b: Lanes)
    requires b[20] == Rotl64(a[2], 62)
    requires b[21] == Rotl64(a[8], 55)
    requires b[22] == Rotl64(a[14], 39)
    requires b[23] == Rotl64(a[15], 41)
    requires b[24] == Rotl64(a[21], 2)
    ensures forall i :: 20 <= i < 25 ==> b[i] == RhoPi(a)[i]
  {
    RhoPiLane(a, 20, 2, 62);
    RhoPiLane(a, 21, 8, 55);
    RhoPiLane(a, 22, 14, 39);
    RhoPiLane(a, 23, 15, 41);
    RhoPiLane(a, 24, 21, 2);
  }

  /** chi: A'[x, y] = A[x, y] ^ (~A[x + 1, y] & A[x + 2, y]). */
  function Chi(a: Lanes): Lanes
  {
    seq(25, i requires 0 <= i < 25 => ChiLane(a, i % 5, i / 5))
  }

  function ChiLane(a: Lanes, x: nat, y: nat): u64
    requires x < 5 && y < 5
  {
    Xor(a[x + 5 * y], And(Not(a[(x + 1) % 5 + 5 * y]), a[(x + 2) % 5 + 5 * y]))
  }

  function ChiRowUpdate(a: Lanes, y: nat): Lanes
    requires y < 5
  {
    seq(25, i requires 0 <= i < 25 => if i / 5 == y then ChiLane(a, i % 5, y) else a[i])
  }

  lemma ChiByRows(a: Lanes)
    ensures ChiRowUpdate(ChiRowUpdate(ChiRowUpdate(ChiRowUpdate(ChiRowUpdate(a, 0), 1), 2), 3), 4) == Chi(a)
  {
  }

  /** iota: lane (0, 0) ^= RC[ir]. */
  function Iota(a: Lanes, ir: nat): Lanes
    requires ir < NumRounds
  {
    a[0 := Xor(a[0], RoundConstants[ir])]
  }

  function Round(a: Lanes, ir: nat): Lanes
    requires ir < NumRounds
  {
    Iota(Chi(RhoPi(Theta(a))), ir)
  }

  /** The first n rounds, in order 0, 1, ..., n - 1. */
  function Permute(a: Lanes, n: nat): Lanes
    requires n <= NumRounds
    decreases n, 1, a
  {
    if n == 0 then a else PermuteStep(a, n)
  }

  function PermuteStep(a: Lanes, n: nat): Lanes
    requires 0 < n <= NumRounds
    decreases n, 0, a
  {
    Round(Permute(a, n - 1), n - 1)
  }

  /** Round n - 1 follows the first n - 1 rounds. */
  lemma PermuteNext(a: Lanes, n: nat)
    requires n < NumRounds
    ensures Permute(a, n + 1) == Round(Permute(a, n), n)
  {
  }

  /** Keccak-f[1600]: all 24 rounds. */
  function KeccakF(a: Lanes): Lanes
  {
    Permute(a, NumRounds)
  }

  /** The rate block, read as nine little-endian lanes, XORed into lanes 0..8. */
  function AbsorbBlock(a: Lanes, block: seq<byte>): Lanes
    requires |block| == RateBytes
  {
    seq(25, i requires 0 <= i < 25 => if i < RateLanes then Xor(a[i], LoadLE64(block[8 * i..8 * i + 8])) else a[i])
  }

  /** One call of `keccak_block`: absorb one rate block, then permute. */
  function BlockFunction(a: Lanes, block: seq<byte>): Lanes
    requires |block| == RateBytes
  {
    KeccakF(AbsorbBlock(a, block))
  }

  // ---------------------------------------------------------------------------
  // Properties of the step mappings

  /** Absorbing touches the nine rate lanes only, and each bit of a rate lane
      flips exactly where the corresponding bit of the eight input bytes,
      read little-endian, is set. */
  lemma AbsorbBlockTouchesRateOnly(a: Lanes, block: seq<byte>, i: nat, k: nat)
    requires |block| == RateBytes && i < 25 && k < 64
    ensures RateLanes <= i ==> AbsorbBlock(a, block)[i] == a[i]
    ensures i < RateLanes ==>
      (Bit(AbsorbBlock(a, block)[i] as nat, k) <==> Bit(a[i] as nat, k) != Bit(LoadLE(block[8 * i..8 * i + 8]), k))
  {
    if i < RateLanes {
      XorBit(a[i], LoadLE64(block[8 * i..8 * i + 8]), k);
    }
  }

  /** iota changes no lane but lane 0, and flips exactly the bits of lane 0
      that are set in its round constant. */
  lemma IotaTouchesLaneZeroOnly(a: Lanes, ir: nat, k: nat)
    requires ir < NumRounds && k < 64
    ensures forall i :: 0 < i < 25 ==> Iota(a, ir)[i] == a[i]
    ensures Bit(Iota(a, ir)[0] as nat, k) <==> Bit(a[0] as nat, k) != Bit(RoundConstants[ir] as nat, k)
  {
    XorBit(a[0], RoundConstants[ir], k);
  }

  /** rho and pi leave lane (0, 0) where it is, unrotated. */
  lemma RhoPiFixesLaneZero(a: Lanes)
    ensures RhoPi(a)[0] == a[0]
  {
  }

  // ---------------------------------------------------------------------------
  // keccak_block, in place

  /** One statement line of theta: `s[x] ^= d; s[x + 5] ^= d; ...` over
      column x. */
  method XorColumn(s: array<u64>, x: nat, d: u64)
    requires s.Length == 25 && x < 5
    modifies s
    ensures s[..] == XorColumnOf(old(s[..]), x, d)
  {
    s[x] := Xor(s[x], d);
    s[x + 5] := Xor(s[x + 5], d);
    s[x + 10] := Xor(s[x + 10], d);
    s[x + 15] := Xor(s[x + 15], d);
    s[x + 20] := Xor(s[x + 20], d);
  }

  /** The theta statements of `keccak_block`: column parities t0..t4, the
      theta effects u0..u4, then every lane XORed with the effect of its
      column. */
  method ThetaInPlace(s: array<u64>)
    requires s.Length == 25
    modifies s
    ensures s[..] == Theta(old(s[..]))
  {
    ghost var a: Lanes := s[..];
    var u0, u1, u2, u3, u4 := ThetaEffects(s);
    ThetaByColumns(a);
    ThetaColumn(s, a, 0, u0);
    ThetaColumn(s, a, 1, u1);
    ThetaColumn(s, a, 2, u2);
    ThetaColumn(s, a, 3, u3);
    ThetaColumn(s, a, 4, u4);
  }

  /** The statements of `keccak_block` that XOR u_k into column k. */
  method ThetaColumn(s: array<u64>, ghost a: Lanes, k: nat, d: u64)
    requires s.Length == 25 && k < 5
    requires s[..] == ThetaUpTo(a, k) && d == ThetaEffect(a, k)
    modifies s
    ensures s[..] == ThetaUpTo(a, k + 1)
  {
    XorColumn(s, k, d);
  }

  /** The column parities t0..t4 and the theta effects u0..u4 of
      `keccak_block`, read from the state. */
  method ThetaEffects(s: array<u64>) returns (u0: u64, u1: u64, u2: u64, u3: u64, u4: u64)
    requires s.Length == 25
    ensures u0 == ThetaEffect(s[..], 0) && u1 == ThetaEffect(s[..], 1) && u2 == ThetaEffect(s[..], 2)
    ensures u3 == ThetaEffect(s[..], 3) && u4 == ThetaEffect(s[..], 4)
  {
    var t0 := Xor(Xor(Xor(Xor(s[0], s[5]), s[10]), s[15]), s[20]);
    var t1 := Xor(Xor(Xor(Xor(s[1], s[6]), s[11]), s[16]), s[21]);
    var t2 := Xor(Xor(Xor(Xor(s[2], s[7]), s[12]), s[17]), s[22]);
    var t3 := Xor(Xor(Xor(Xor(s[3], s[8]), s[13]), s[18]), s[23]);
    var t4 := Xor(Xor(Xor(Xor(s[4], s[9]), s[14]), s[19]), s[24]);
    u0 := Xor(t4, Rotl64(t1, 1));
    u1 := Xor(t0, Rotl64(t2, 1));
    u2 := Xor(t1, Rotl64(t3, 1));
    u3 := Xor(t2, Rotl64(t4, 1));
    u4 := Xor(t3, Rotl64(t0, 1));
  }

  /** One statement of the rho/pi chain: `s[dst] = ROTL64(s[src], n)`. */
  method RotateInto(s: array<u64>, dst: nat, src: nat, n: nat)
    requires s.Length == 25 && dst < 25 && src < 25
    modifies s
    ensures s[dst] == Rotl64(old(s[src]), n)
    ensures forall i :: 0 <= i < 25 && i != dst ==> s[i] == old(s[i])
  {
    s[dst] := Rotl64(s[src], n);
  }

  /** The source's rho/pi chain, which carries lane 1 round the 24-cycle of
      pi, rotating each lane as it moves. */
  method RhoPiChain(s: array<u64>)
    requires s.Length == 25
    modifies s
    ensures s[0] == old(s[0])
    ensures s[1] == Rotl64(old(s[6]), 44)
    ensures s[2] == Rotl64(old(s[12]), 43)
    ensures s[3] == Rotl64(old(s[18]), 21)
    ensures s[4] == Rotl64(old(s[24]), 14)
    ensures s[5] == Rotl64(old(s[3]), 28)
    ensures s[6] == Rotl64(old(s[9]), 20)
    ensures s[7] == Rotl64(old(s[10]), 3)
    ensures s[8] == Rotl64(old(s[16]), 45)
    ensures s[9] == Rotl64(old(s[22]), 61)
    ensures s[10] == Rotl64(old(s[1]), 1)
    ensures s[11] == Rotl64(old(s[7]), 6)
    ensures s[12] == Rotl64(old(s[13]), 25)
    ensures s[13] == Rotl64(old(s[19]), 8)
    ensures s[14] == Rotl64(old(s[20]), 18)
    ensures s[15] == Rotl64(old(s[4]), 27)
    ensures s[16] == Rotl64(old(s[5]), 36)
    ensures s[17] == Rotl64(old(s[11]), 10)
    ensures s[18] == Rotl64(old(s[17]), 15)
    ensures s[19] == Rotl64(old(s[23]), 56)
    ensures s[20] == Rotl64(old(s[2]), 62)
    ensures s[21] == Rotl64(old(s[8]), 55)
    ensures s[22] == Rotl64(old(s[14]), 39)
    ensures s[23] == Rotl64(old(s[15]), 41)
    ensures s[24] == Rotl64(old(s[21]), 2)
  {
    var v := s[1];
    RhoPiHead(s);
    RhoPiTail(s, v);
  }

  /** The first twelve statements of the chain. */
  method RhoPiHead(s: array<u64>)
    requires s.Length == 25
    modifies s
    ensures s[1] == Rotl64(old(s[6]), 44)
    ensures s[2] == Rotl64(old(s[12]), 43)
    ensures s[6] == Rotl64(old(s[9]), 20)
    ensures s[9] == Rotl64(old(s[22]), 61)
    ensures s[12] == Rotl64(old(s[13]), 25)
    ensures s[13] == Rotl64(old(s[19]), 8)
    ensures s[14] == Rotl64(old(s[20]), 18)
    ensures s[15] == Rotl64(old(s[4]), 27)
    ensures s[19] == Rotl64(old(s[23]), 56)
    ensures s[20] == Rotl64(old(s[2]), 62)
    ensures s[22] == Rotl64(old(s[14]), 39)
    ensures s[23] == Rotl64(old(s[15]), 41)
    ensures forall i :: 0 <= i < 25 && i !in {1, 2, 6, 9, 12, 13, 14, 15, 19, 20, 22, 23} ==> s[i] == old(s[i])
  {
    RotateInto(s,  1,  6, 44);
    RotateInto(s,  6,  9, 20);
    RotateInto(s,  9, 22, 61);
    RotateInto(s, 22, 14, 39);
    RotateInto(s, 14, 20, 18);
    RotateInto(s, 20,  2, 62);
    RotateInto(s,  2, 12, 43);
    RotateInto(s, 12, 13, 25);
    RotateInto(s, 13, 19,  8);
    RotateInto(s, 19, 23, 56);
    RotateInto(s, 23, 15, 41);
    RotateInto(s, 15,  4, 27);
  }

  /** The remaining statements of the chain; v is lane 1 as it was before
      the chain. */
  method RhoPiTail(s: array<u64>, v: u64)
    requires s.Length == 25
    modifies s
    ensures s[3] == Rotl64(old(s[18]), 21)
    ensures s[4] == Rotl64(old(s[24]), 14)
    ensures s[5] == Rotl64(old(s[3]), 28)
    ensures s[7] == Rotl64(old(s[10]), 3)
    ensures s[8] == Rotl64(old(s[16]), 45)
    ensures s[11] == Rotl64(old(s[7]), 6)
    ensures s[16] == Rotl64(old(s[5]), 36)
    ensures s[17] == Rotl64(old(s[11]), 10)
    ensures s[18] == Rotl64(old(s[17]), 15)
    ensures s[21] == Rotl64(old(s[8]), 55)
    ensures s[24] == Rotl64(old(s[21]), 2)
    ensures s[10] == Rotl64(v, 1)
    ensures forall i :: 0 <= i < 25 && i !in {3, 4, 5, 7, 8, 11, 16, 17, 18, 21, 24, 10} ==> s[i] == old(s[i])
  {
    RotateInto(s,  4, 24, 14);
    RotateInto(s, 24, 21,  2);
    RotateInto(s, 21,  8, 55);
    RotateInto(s,  8, 16, 45);
    RotateInto(s, 16,  5, 36);
    RotateInto(s,  5,  3, 28);
    RotateInto(s,  3, 18, 21);
    RotateInto(s, 18, 17, 15);
    RotateInto(s, 17, 11, 10);
    RotateInto(s, 11,  7,  6);
    RotateInto(s,  7, 10,  3);
    s[10] := Rotl64(v, 1);
  }

  method RhoPiInPlace(s: array<u64>)
    requires s.Length == 25
    modifies s
    ensures s[..] == RhoPi(old(s[..]))
  {
    ghost var a: Lanes := s[..];
    RhoPiChain(s);
    RhoPiRow0(a, s[..]);
    RhoPiRow1(a, s[..]);
    RhoPiRow2(a, s[..]);
    RhoPiRow3(a, s[..]);
    RhoPiRow4(a, s[..]);
    LanesEqual(s[..], RhoPi(a));
  }

  /** One source line of chi, on row y with r = 5y: the temporaries v and w
      keep the two lanes the last two updates need after they are overwritten. */
  method ChiRowLine(s: array<u64>, r: nat)
    requires s.Length == 25 && r + 5 <= 25
    modifies s
    ensures s[r] == Xor(old(s[r]), And(Not(old(s[r + 1])), old(s[r + 2])))
    ensures s[r + 1] == Xor(old(s[r + 1]), And(Not(old(s[r + 2])), old(s[r + 3])))
    ensures s[r + 2] == Xor(old(s[r + 2]), And(Not(old(s[r + 3])), old(s[r + 4])))
    ensures s[r + 3] == Xor(old(s[r + 3]), And(Not(old(s[r + 4])), old(s[r])))
    ensures s[r + 4] == Xor(old(s[r + 4]), And(Not(old(s[r])), old(s[r + 1])))
    ensures forall i :: 0 <= i < 25 && !(r <= i < r + 5) ==> s[i] == old(s[i])
  {
    var v := s[r];
    var w := s[r + 1];
    s[r] := Xor(s[r], And(Not(w), s[r + 2]));
    s[r + 1] := Xor(s[r + 1], And(Not(s[r + 2]), s[r + 3]));
    s[r + 2] := Xor(s[r + 2], And(Not(s[r + 3]), s[r + 4]));
    s[r + 3] := Xor(s[r + 3], And(Not(s[r + 4]), v));
    s[r + 4] := Xor(s[r + 4], And(Not(v), w));
  }

  method ChiRow(s: array<u64>, y: nat)
    requires s.Length == 25 && y < 5
    modifies s
    ensures s[..] == ChiRowUpdate(old(s[..]), y)
  {
    ghost var a: Lanes := s[..];
    ChiRowLine(s, 5 * y);
    forall i | 0 <= i < 25
      ensures s[i] == ChiRowUpdate(a, y)[i]
    {
      if i / 5 == y {
        var x := i % 5;
        assert i == 5 * y + x;
        assert x == 0 || x == 1 || x == 2 || x == 3 || x == 4;
      }
    }
    LanesEqual(s[..], ChiRowUpdate(a, y));
  }

  method ChiInPlace(s: array<u64>)
    requires s.Length == 25
    modifies s
    ensures s[..] == Chi(old(s[..]))
  {
    ChiByRows(s[..]);
    ChiRow(s, 0);
    ChiRow(s, 1);
    ChiRow(s, 2);
    ChiRow(s, 3);
    ChiRow(s, 4);
  }

  method IotaInPlace(s: array<u64>, ir: nat)
    requires s.Length == 25 && ir < NumRounds
    modifies s
    ensures s[..] == Iota(old(s[..]), ir)
  {
    s[0] := Xor(s[0], RoundConstants[ir]);
  }

  method AbsorbInPlace(s: array<u64>, block: seq<byte>)
    requires s.Length == 25 && |block| == RateBytes
    modifies s
    ensures s[..] == AbsorbBlock(old(s[..]), block)
  {
    ghost var start: Lanes := s[..];
    var i := 0;
    while i < RateLanes
      invariant 0 <= i <= RateLanes
      invariant forall k :: 0 <= k < i ==> s[k] == Xor(start[k], LoadLE64(block[8 * k..8 * k + 8]))
      invariant forall k :: i <= k < 25 ==> s[k] == start[k]
    {
      s[i] := Xor(s[i], LoadLE64(block[8 * i..8 * i + 8]));
      i := i + 1;
    }
  }

  method RoundInPlace(s: array<u64>, ir: nat)
    requires s.Length == 25 && ir < NumRounds
    modifies s
    ensures s[..] == Round(old(s[..]), ir)
  {
    ThetaInPlace(s);
    RhoPiInPlace(s);
    ChiInPlace(s);
    IotaInPlace(s, ir);
  }

  method KeccakBlock(s: array<u64>, block: seq<byte>)
    requires s.Length == 25 && |block| == RateBytes
    modifies s
    ensures s[..] == BlockFunction(old(s[..]), block)
  {
    AbsorbInPlace(s, block);
    ghost var absorbed: Lanes := s[..];
    var i := 0;
    while i < 24
      invariant 0 <= i <= 24
      invariant s[..] == Permute(absorbed, i)
    {
      RoundInPlace(s, i);
      PermuteNext(absorbed, i);
      i := i + 1;
    }
  }
}
