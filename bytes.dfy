/** The integer types and portable helpers the hashing code is written with:
    bytes, 32-bit words, 64-bit lanes with their bitwise operations and
    rotation, little- and big-endian loads and stores, and the 32-bit byte
    swap `bswap_32x4`.

    A lane is an integer in [0, 2^64). Its bitwise operations are defined
    bit by bit from the least significant end, and each is shown to act on
    every bit position as the C operator does (`XorBit`, `AndBit`, `NotBit`,
    `Rotl1Bit`). */
module Bytes {

  type byte = bv8
  type word = bv32

  /** 2^32, the modulus of the source's `uint32_t` arithmetic. */
  const Word32: nat := 0x1_0000_0000
  /** 2^64, the modulus of `uint64_t`. */
  const Lane64: nat := 0x1_0000_0000_0000_0000

  /** A `uint64_t` lane of the Keccak state. */
  newtype u64 = x: int | 0 <= x < 0x1_0000_0000_0000_0000

  function Zeros(n: nat): (z: seq<byte>)
    ensures |z| == n && forall k :: 0 <= k < n ==> z[k] == 0
  {
    seq(n, _ => 0)
  }

  // ---------------------------------------------------------------------------
  // Bits of a natural number

  function Pow2(n: nat): (p: nat)
    ensures p > 0
  {
    if n == 0 then 1 else 2 * Pow2(n - 1)
  }

  lemma {:induction false} Pow2Add(m: nat, n: nat)
    ensures Pow2(m + n) == Pow2(m) * Pow2(n)
  {
    if m > 0 {
      Pow2Add(m - 1, n);
    }
  }

  lemma Pow2Byte()
    ensures Pow2(8) == 256
  {
    assert Pow2(2) == 4;
    assert Pow2(4) == 16;
    assert Pow2(6) == 64;
  }

  lemma Pow2Short()
    ensures Pow2(16) == 0x1_0000
  {
    Pow2Byte();
    Pow2Add(8, 8);
  }

  lemma Pow2Word()
    ensures Pow2(32) == Word32
  {
    Pow2Short();
    Pow2Add(16, 16);
  }

  lemma Pow2Lane()
    ensures Pow2(64) == Lane64
    ensures Pow2(63) == Lane64 / 2
  {
    Pow2Word();
    Pow2Add(32, 32);
  }

  /** Bit k of x (bit 0 is the least significant). */
  function Bit(x: nat, k: nat): bool
  {
    if k == 0 then x % 2 == 1 else Bit(x / 2, k - 1)
  }

  /** A number below 2^n has no bit at position n or above. */
  lemma {:induction false} BitAbove(x: nat, n: nat, k: nat)
    requires x < Pow2(n) && n <= k
    ensures !Bit(x, k)
  {
    if k > 0 {
      if n == 0 {
        assert x == 0;
        BitAbove(x / 2, 0, k - 1);
      } else {
        BitAbove(x / 2, n - 1, k - 1);
      }
    }
  }

  /** Bit n of a number below 2^(n+1) says whether it reaches 2^n. */
  lemma {:induction false} BitTop(x: nat, n: nat)
    requires x < Pow2(n + 1)
    ensures Bit(x, n) <==> x >= Pow2(n)
  {
    if n > 0 {
      BitTop(x / 2, n - 1);
    }
  }

  /** The n low bits of a XOR b. */
  function XorBits(a: nat, b: nat, n: nat): (r: nat)
    decreases n, 1, a
  {
    if n == 0 then 0 else XorStep(a, b, n)
  }
  function XorStep(a: nat, b: nat, n: nat): (r: nat)
    requires n > 0
    decreases n, 0, a
  {
    (if a % 2 == b % 2 then 0 else 1) + 2 * XorBits(a / 2, b / 2, n - 1)
  }

  /** The n low bits of a AND b. */
  function AndBits(a: nat, b: nat, n: nat): (r: nat)
    decreases n, 1, a
  {
    if n == 0 then 0 else AndStep(a, b, n)
  }
  function AndStep(a: nat, b: nat, n: nat): (r: nat)
    requires n > 0
    decreases n, 0, a
  {
    (if a % 2 == 1 && b % 2 == 1 then 1 else 0) + 2 * AndBits(a / 2, b / 2, n - 1)
  }

  lemma {:induction false} XorBitsBound(a: nat, b: nat, n: nat)
    ensures XorBits(a, b, n) < Pow2(n)
  {
    if n > 0 { XorBitsBound(a / 2, b / 2, n - 1); }
  }
  lemma {:induction false} AndBitsBound(a: nat, b: nat, n: nat)
    ensures AndBits(a, b, n) < Pow2(n)
  {
    if n > 0 { AndBitsBound(a / 2, b / 2, n - 1); }
  }

  lemma {:induction false} XorBitsBit(a: nat, b: nat, n: nat, k: nat)
    requires k < n
    ensures Bit(XorBits(a, b, n), k) <==> Bit(a, k) != Bit(b, k)
  {
    if k > 0 {
      XorBitsBit(a / 2, b / 2, n - 1, k - 1);
    }
  }

  lemma {:induction false} AndBitsBit(a: nat, b: nat, n: nat, k: nat)
    requires k < n
    ensures Bit(AndBits(a, b, n), k) <==> Bit(a, k) && Bit(b, k)
  {
    if k > 0 {
      AndBitsBit(a / 2, b / 2, n - 1, k - 1);
    }
  }

  lemma {:induction false} ComplementBit(x: nat, n: nat, k: nat)
    requires x < Pow2(n) && k < n
    ensures Bit(Pow2(n) - 1 - x, k) <==> !Bit(x, k)
  {
    if k > 0 {
      assert (Pow2(n) - 1 - x) / 2 == Pow2(n - 1) - 1 - x / 2;
      ComplementBit(x / 2, n - 1, k - 1);
    }
  }

  // ---------------------------------------------------------------------------
  // uint64_t operations

  /** a ^ b */
  function Xor(a: u64, b: u64): u64
  {
    Pow2Lane();
    XorBitsBound(a as nat, b as nat, 64);
    XorBits(a as nat, b as nat, 64) as u64
  }

  /** a & b */
  function And(a: u64, b: u64): u64
  {
    Pow2Lane();
    AndBitsBound(a as nat, b as nat, 64);
    AndBits(a as nat, b as nat, 64) as u64
  }

  /** ~x */
  function Not(x: u64): u64
  {
    (Lane64 - 1 - x as nat) as u64
  }

  /** Rotation left by one position: the top bit re-enters at bit 0. */
  function Rotl1(x: u64): u64
  {
    ((2 * x as nat) % Lane64 + x as nat / 0x8000_0000_0000_0000) as u64
  }

  /** ROTL64(x, n): rotation left by n positions. */
  function Rotl64(x: u64, n: nat): u64
    decreases n, 1, x
  {
    if n == 0 then x else RotlStep(x, n)
  }
  function RotlStep(x: u64, n: nat): u64
    requires n > 0
    decreases n, 0, x
  {
    Rotl1(Rotl64(x, n - 1))
  }

  lemma XorBit(a: u64, b: u64, k: nat)
    requires k < 64
    ensures Bit(Xor(a, b) as nat, k) <==> Bit(a as nat, k) != Bit(b as nat, k)
  {
    XorBitsBit(a as nat, b as nat, 64, k);
  }

  lemma AndBit(a: u64, b: u64, k: nat)
    requires k < 64
    ensures Bit(And(a, b) as nat, k) <==> Bit(a as nat, k) && Bit(b as nat, k)
  {
    AndBitsBit(a as nat, b as nat, 64, k);
  }

  lemma NotBit(x: u64, k: nat)
    requires k < 64
    ensures Bit(Not(x) as nat, k) <==> !Bit(x as nat, k)
  {
    Pow2Lane();
    ComplementBit(x as nat, 64, k);
  }

  /** Rotating by one moves bit k to k + 1 and bit 63 to bit 0. */
  lemma Rotl1Bit(x: u64, k: nat)
    requires k < 64
    ensures Bit(Rotl1(x) as nat, (k + 1) % 64) <==> Bit(x as nat, k)
  {
    Pow2Lane();
    Rotl1Parts(x);
    if k == 63 {
      BitTop(x as nat, 63);
    } else {
      BitBelow(x as nat, 63, k);
    }
  }

  /** Rotl1(x) is 2 * (x mod 2^63) plus the top bit of x. */
  lemma Rotl1Parts(x: u64)
    ensures Rotl1(x) as nat % 2 == x as nat / 0x8000_0000_0000_0000
    ensures Rotl1(x) as nat / 2 == x as nat % 0x8000_0000_0000_0000
  {
    var h: nat := 0x8000_0000_0000_0000;
    var q, m := x as nat / h, x as nat % h;
    assert q <= 1;
    DivModUnique(2 * x as nat, Lane64, q, 2 * m);
    DivModUnique(Rotl1(x) as nat, 2, m, q);
  }

  /** Rotating left by n moves bit k to position k + n (mod 64). */
  lemma {:induction false} Rotl64Bit(x: u64, n: nat, k: nat)
    requires k < 64
    ensures Bit(Rotl64(x, n) as nat, (k + n) % 64) <==> Bit(x as nat, k)
  {
    if n > 0 {
      Rotl64Bit(x, n - 1, k);
      Rotl1Bit(Rotl64(x, n - 1), (k + n - 1) % 64);
      NextPosition(k + n - 1);
    }
  }

  lemma NextPosition(j: nat)
    ensures (j % 64 + 1) % 64 == (j + 1) % 64
  {
  }

  /** Bit k of x is bit k of x mod 2^n, for k below n. */
  lemma {:induction false} BitBelow(x: nat, n: nat, k: nat)
    requires k < n
    ensures Bit(x % Pow2(n), k) <==> Bit(x, k)
  {
    if k > 0 {
      assert (x % Pow2(n)) / 2 == (x / 2) % Pow2(n - 1) by {
        ModHalf(x, Pow2(n - 1));
      }
      BitBelow(x / 2, n - 1, k - 1);
    } else {
      ModHalf(x, Pow2(n - 1));
    }
  }

  /** Division by d > 0 is determined by any quotient and remainder. */
  lemma DivModUnique(x: int, d: int, m: int, r: int)
    requires d > 0 && x == d * m + r && 0 <= r < d
    ensures x / d == m && x % d == r
  {
    var q, s := x / d, x % d;
    assert d * (q - m) == r - s;
    if q > m {
      MulAtLeast(d, q - m);
    } else if q < m {
      MulAtLeast(d, m - q);
    }
  }

  lemma {:induction false} MulAtLeast(d: int, k: int)
    requires d > 0 && k >= 1
    ensures d * k >= d
  {
    if k > 1 {
      MulAtLeast(d, k - 1);
      assert d * k == d * (k - 1) + d;
    }
  }

  lemma ModHalf(x: nat, p: nat)
    requires p > 0
    ensures (x % (2 * p)) / 2 == (x / 2) % p
    ensures (x % (2 * p)) % 2 == x % 2
  {
    var a, t := x / 2, x % 2;
    var m, s := a / p, a % p;
    assert x == (2 * p) * m + (2 * s + t);
    DivModUnique(x, 2 * p, m, 2 * s + t);
  }

  // ---------------------------------------------------------------------------
  // Little-endian layout

  /** The bytes of b read as a little-endian number. */
  function LoadLE(b: seq<byte>): (v: nat)
  {
    if b == [] then 0 else b[0] as nat + 256 * LoadLE(b[1..])
  }

  /** The n low bytes of x, least significant first. */
  function StoreLE(x: nat, n: nat): (b: seq<byte>)
    ensures |b| == n
  {
    if n == 0 then [] else [LowByte(x)] + StoreLE(x / 256, n - 1)
  }

  /** The least significant byte of x. */
  function LowByte(x: nat): (b: byte)
    ensures b as nat == x % 256
  {
    ByteOf(x % 256)
  }

  /** The byte of value y: zero, incremented y times. */
  function ByteOf(y: nat): (b: byte)
    requires y < 256
    ensures b as nat == y
  {
    if y == 0 then 0
    else
      var p := ByteOf(y - 1);
      ByteSucc(p);
      p + 1
  }

  /** Below 255 a byte increments without wrapping. */
  lemma ByteSucc(b: byte)
    requires b as nat < 255
    ensures (b + 1) as nat == b as nat + 1
  {
  }

  /** A byte is determined by its value. */
  lemma ByteValueInjective(a: byte, b: byte)
    requires a as nat == b as nat
    ensures a == b
  {
    ByteRoundTrip(a);
    ByteRoundTrip(b);
  }

  lemma ByteRoundTrip(b: byte)
    ensures (b as nat) as byte == b
  {
  }

  lemma {:induction false} LoadLEBound(b: seq<byte>)
    ensures LoadLE(b) < Pow2(8 * |b|)
  {
    if b != [] {
      LoadLEBound(b[1..]);
      Pow2Add(8, 8 * (|b| - 1));
      Pow2Byte();
    }
  }

  /** Storing a number that fits and loading it back gives the number. */
  lemma {:induction false} LoadStoreLE(x: nat, n: nat)
    requires x < Pow2(8 * n)
    ensures LoadLE(StoreLE(x, n)) == x
  {
    if n == 0 {
      assert x == 0;
    } else {
      Pow2Add(8, 8 * (n - 1));
      Pow2Byte();
      LoadStoreLE(x / 256, n - 1);
      assert StoreLE(x, n)[1..] == StoreLE(x / 256, n - 1);
    }
  }

  /** Loading bytes and storing the number in as many bytes gives them back. */
  lemma {:induction false} StoreLoadLE(b: seq<byte>)
    ensures StoreLE(LoadLE(b), |b|) == b
  {
    if b != [] {
      StoreLoadLE(b[1..]);
      assert LoadLE(b) / 256 == LoadLE(b[1..]);
      ByteValueInjective(LowByte(LoadLE(b)), b[0]);
    }
  }

  /** U8TO64_LE: eight bytes read as a little-endian lane. */
  function LoadLE64(b: seq<byte>): (x: u64)
    requires |b| == 8
    ensures x as nat == LoadLE(b)
  {
    LoadLEBound(b);
    Pow2Lane();
    LoadLE(b) as u64
  }

  /** U64TO8_LE: a lane written as eight little-endian bytes. */
  function StoreLE64(x: u64): (b: seq<byte>)
    ensures |b| == 8
  {
    StoreLE(x as nat, 8)
  }

  lemma LoadStoreLE64(x: u64)
    ensures LoadLE64(StoreLE64(x)) == x
  {
    Pow2Lane();
    LoadStoreLE(x as nat, 8);
  }

  lemma StoreLoadLE64(b: seq<byte>)
    requires |b| == 8
    ensures StoreLE64(LoadLE64(b)) == b
  {
    StoreLoadLE(b);
  }

  // ---------------------------------------------------------------------------
  // 32-bit words

  /** A 32-bit word as four little-endian bytes (its layout in memory on the
      little-endian hosts the miner runs on). */
  function StoreLE32(x: word): (b: seq<byte>)
    ensures |b| == 4
  {
    [(x & 0xff) as byte, ((x >> 8) & 0xff) as byte, ((x >> 16) & 0xff) as byte, ((x >> 24) & 0xff) as byte]
  }

  function LoadLE32(b: seq<byte>): word
    requires |b| == 4
  {
    (b[0] as word) | ((b[1] as word) << 8) | ((b[2] as word) << 16) | ((b[3] as word) << 24)
  }

  lemma LoadStoreLE32(x: word)
    ensures LoadLE32(StoreLE32(x)) == x
  {
  }

  /** U32TO8_BE: a 32-bit counter as four big-endian bytes. */
  function StoreBE32(x: word): (b: seq<byte>)
    ensures |b| == 4
  {
    [((x >> 24) & 0xff) as byte, ((x >> 16) & 0xff) as byte, ((x >> 8) & 0xff) as byte, (x & 0xff) as byte]
  }

  function LoadBE32(b: seq<byte>): word
    requires |b| == 4
  {
    ((b[0] as word) << 24) | ((b[1] as word) << 16) | ((b[2] as word) << 8) | (b[3] as word)
  }

  lemma LoadStoreBE32(x: word)
    ensures LoadBE32(StoreBE32(x)) == x
  {
  }

  /** StoreBE32 of a counter below 2^32 given as a natural number. */
  function Be32(i: nat): (b: seq<byte>)
    requires i < Word32
    ensures |b| == 4
  {
    StoreBE32(i as word)
  }

  /** bswap_32x4: reverse the four bytes of a 32-bit word. */
  function Bswap32(x: word): word
  {
    ((x << 24) & 0xff000000) | ((x << 8) & 0x00ff0000) | ((x >> 8) & 0x0000ff00) | ((x >> 24) & 0x000000ff)
  }

  /** Byte-swapping twice gives the word back. */
  lemma Bswap32Involution(x: word)
    ensures Bswap32(Bswap32(x)) == x
  {
  }

  /** The byte-swapped word laid out little-endian is the word's big-endian
      encoding: this is why the header words, stored swapped, hash as the
      big-endian wire form. */
  lemma Bswap32LayoutIsBigEndian(x: word)
    ensures StoreLE32(Bswap32(x)) == StoreBE32(x)
  {
  }

  /** The little-endian bytes of a sequence of words, as `memcpy` of a
      `uint32_t` array sees them. */
  function WordsLE(ws: seq<word>): (b: seq<byte>)
    ensures |b| == 4 * |ws|
  {
    if ws == [] then [] else WordsLE(ws[..|ws| - 1]) + StoreLE32(ws[|ws| - 1])
  }

  /** Word `k` of the sequence occupies bytes 4k..4k+4 of its layout. */
  lemma {:induction false} WordsLEAt(ws: seq<word>, k: nat)
    requires k < |ws|
    ensures WordsLE(ws)[4 * k..4 * k + 4] == StoreLE32(ws[k])
  {
    if k < |ws| - 1 {
      WordsLEAt(ws[..|ws| - 1], k);
      assert ws[..|ws| - 1][k] == ws[k];
      assert WordsLE(ws)[..4 * (|ws| - 1)] == WordsLE(ws[..|ws| - 1]);
    }
  }

  /** The layout is injective: equal bytes mean equal words, which is why a
      byte-wise `memcmp` of two digests compares their words. */
  lemma WordsLEInjective(a: seq<word>, b: seq<word>)
    requires |a| == |b| && WordsLE(a) == WordsLE(b)
    ensures a == b
  {
    forall k | 0 <= k < |a| ensures a[k] == b[k] {
      WordsLEAt(a, k);
      WordsLEAt(b, k);
      LoadStoreLE32(a[k]);
      LoadStoreLE32(b[k]);
    }
  }
}
