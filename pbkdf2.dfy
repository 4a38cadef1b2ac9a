/** PBKDF2 with one iteration over HMAC-Keccak-512 (`scrypt_pbkdf2_1`,
    section 5.2 of RFC 8018 with c = 1), and the scrypt-jane composition
    PBKDF2 -> ROMix -> PBKDF2 (`scrypt_jane_hash_1_1`). */
module Pbkdf2 {
  import opened Bytes
  import opened Sponge
  import opened Hmac

  /** The largest output length the function accepts: its 32-bit block
      count must not overflow. */
  const MaxBytes: nat := 0xffff_ffff - (DigestBytes - 1)

  // ---------------------------------------------------------------------------
  // Specification, over any pseudorandom function with 64-byte outputs

  /** A PRF in the sense of RFC 8018: every output is one 64-byte block. */
  ghost predicate IsPrf(prf: seq<byte> -> seq<byte>)
  {
    forall m :: |prf(m)| == DigestBytes
  }

  /** HMAC-Keccak-512 keyed with the password: the PRF `scrypt_pbkdf2_1`
      uses. */
  function HmacPrf(password: seq<byte>): (prf: seq<byte> -> seq<byte>)
    ensures IsPrf(prf)
  {
    m => Mac(password, m)
  }

  /** prf is HMAC-Keccak-512 keyed with `key`. The equation is only
      instantiated where a MAC under that key is in sight, so that proofs
      about the blocks do not unfold the hash. */
  ghost predicate IsMacOf(prf: seq<byte> -> seq<byte>, key: seq<byte>)
  {
    forall m {:trigger Mac(key, m)} :: prf(m) == Mac(key, m)
  }

  /** T_i = U_1 = PRF(S || INT(i)), blocks counted from 1. */
  function Block(prf: seq<byte> -> seq<byte>, salt: seq<byte>, i: nat): (t: seq<byte>)
    requires IsPrf(prf) && 1 <= i < Word32
    ensures |t| == DigestBytes
  {
    prf(salt + Be32(i))
  }

  /** T_1 || T_2 || ... || T_n */
  function Blocks(prf: seq<byte> -> seq<byte>, salt: seq<byte>, n: nat): (b: seq<byte>)
    requires IsPrf(prf) && n < Word32
    ensures |b| == DigestBytes * n
  {
    if n == 0 then [] else Blocks(prf, salt, n - 1) + Block(prf, salt, n)
  }

  /** ceil(bytes / 64): the number of blocks an output of `bytes` bytes needs. */
  function BlockCount(bytes: nat): nat
  {
    (bytes + DigestBytes - 1) / DigestBytes
  }

  /** DK = T_1 || ... || T_l, truncated to `bytes` bytes. */
  function Derive(prf: seq<byte> -> seq<byte>, salt: seq<byte>, bytes: nat): (dk: seq<byte>)
    requires IsPrf(prf) && bytes <= MaxBytes
    ensures |dk| == bytes
  {
    CeilBlocks(bytes);
    Blocks(prf, salt, BlockCount(bytes))[..bytes]
  }

  /** PBKDF2-HMAC-Keccak-512 with one iteration. */
  function Pbkdf2(password: seq<byte>, salt: seq<byte>, bytes: nat): (dk: seq<byte>)
    requires bytes <= MaxBytes
    ensures |dk| == bytes
  {
    Derive(HmacPrf(password), salt, bytes)
  }

  // ---------------------------------------------------------------------------
  // Properties of the specification

  /** HmacPrf(key) is HMAC keyed with `key`. */
  lemma MacPrf(key: seq<byte>)
    ensures IsMacOf(HmacPrf(key), key)
  {
  }

  /** The block count is the least number of 64-byte blocks covering
      `bytes` bytes, and stays below 2^32. */
  lemma CeilBlocks(bytes: nat)
    requires bytes <= MaxBytes
    ensures DigestBytes * BlockCount(bytes) >= bytes
    ensures bytes > 0 ==> DigestBytes * (BlockCount(bytes) - 1) < bytes
    ensures BlockCount(bytes) < Word32
  {
    var n := BlockCount(bytes);
    var r := (bytes + DigestBytes - 1) % DigestBytes;
    assert bytes + DigestBytes - 1 == DigestBytes * n + r;
  }

  /** Block i of the concatenation sits at bytes 64(i-1) .. 64i, whatever
      the blocks before it are. */
  lemma {:induction false} BlocksAt(prf: seq<byte> -> seq<byte>, salt: seq<byte>, n: nat, i: nat)
    requires IsPrf(prf) && 1 <= i <= n < Word32
    ensures Blocks(prf, salt, n)[DigestBytes * (i - 1)..DigestBytes * i] == Block(prf, salt, i)
  {
    if i < n {
      BlocksAt(prf, salt, n - 1, i);
      assert DigestBytes * i <= DigestBytes * (n - 1);
      SliceOfAppend(Blocks(prf, salt, n - 1), Block(prf, salt, n), DigestBytes * (i - 1), DigestBytes * i);
    }
  }

  /** A slice that lies within x is the same slice of x + y. */
  lemma SliceOfAppend(x: seq<byte>, y: seq<byte>, lo: nat, hi: nat)
    requires lo <= hi <= |x|
    ensures (x + y)[lo..hi] == x[lo..hi]
  {
  }

  /** Fewer blocks are a prefix of more blocks. */
  lemma {:induction false} BlocksPrefix(prf: seq<byte> -> seq<byte>, salt: seq<byte>, m: nat, n: nat)
    requires IsPrf(prf) && m <= n < Word32
    ensures Blocks(prf, salt, m) == Blocks(prf, salt, n)[..DigestBytes * m]
  {
    if m < n {
      BlocksPrefix(prf, salt, m, n - 1);
      assert DigestBytes * m <= DigestBytes * (n - 1);
      SliceOfAppend(Blocks(prf, salt, n - 1), Block(prf, salt, n), 0, DigestBytes * m);
    }
  }

  /** The output for a shorter length is a prefix of the output for a
      longer one. */
  lemma DerivePrefix(prf: seq<byte> -> seq<byte>, salt: seq<byte>, short: nat, long: nat)
    requires IsPrf(prf) && short <= long <= MaxBytes
    ensures Derive(prf, salt, short) == Derive(prf, salt, long)[..short]
  {
    CeilBlocks(short);
    CeilBlocks(long);
    BlocksPrefix(prf, salt, BlockCount(short), BlockCount(long));
  }

  /** Byte k of the output is byte k % 64 of block k / 64 + 1: each block
      depends on the PRF, the salt and its own index only. */
  lemma DeriveByte(prf: seq<byte> -> seq<byte>, salt: seq<byte>, bytes: nat, k: nat)
    requires IsPrf(prf) && k < bytes <= MaxBytes
    ensures k / DigestBytes + 1 < Word32
    ensures Derive(prf, salt, bytes)[k] == Block(prf, salt, k / DigestBytes + 1)[k % DigestBytes]
  {
    CeilBlocks(bytes);
    var i := k / DigestBytes + 1;
    assert DigestBytes * (i - 1) <= k < DigestBytes * i;
    BlocksAt(prf, salt, BlockCount(bytes), i);
  }

  // ---------------------------------------------------------------------------
  // scrypt_pbkdf2_1

  /** Writes Pbkdf2(password, salt, bytes) to out[0 .. bytes) and nothing
      beyond. The 32-bit block count and the 64-bit remaining-byte counter
      are kept with their wrap-around. */
  method Pbkdf2One(password: seq<byte>, salt: seq<byte>, out: array<byte>, bytes: nat)
    requires bytes <= MaxBytes && bytes <= out.Length
    modifies out
    ensures out[..bytes] == Pbkdf2(password, salt, bytes)
    ensures out[bytes..] == old(out[bytes..])
  {
    var hmacPwSalt := KeyedSalt(password, salt);
    MacPrf(password);
    BlockLoop(hmacPwSalt, out, bytes, HmacPrf(password));
  }

  /** The block loop of `scrypt_pbkdf2_1`: block i is the MAC of the salt
      and BE32(i), computed on a fork of `hmac_pw_salt`; `out` advances by
      64 and `bytes` drops by 64 each time. */
  method BlockLoop(hmacPwSalt: HmacState, out: array<byte>, bytes: nat, ghost prf: seq<byte> -> seq<byte>)
    requires hmacPwSalt.Valid() && out !in hmacPwSalt.Repr()
    requires bytes <= MaxBytes && bytes <= out.Length
    requires IsPrf(prf) && IsMacOf(prf, hmacPwSalt.key)
    modifies out
    ensures out[..bytes] == Derive(prf, hmacPwSalt.message, bytes)
    ensures out[bytes..] == old(out[bytes..])
  {
    ghost var salt := hmacPwSalt.message;
    var blocks := BlockCount32(bytes);
    CeilBlocks(bytes);
    var remaining: nat := bytes;
    var offset: nat := 0;
    var i: nat := 1;
    while i <= blocks
      invariant 1 <= i <= blocks + 1 && offset == DigestBytes * (i - 1)
      invariant i <= blocks ==> remaining == bytes - offset && offset < bytes
      invariant remaining < Lane64
      invariant Written(out[..], prf, salt, i - 1, bytes, old(out[..]))
    {
      offset, remaining := WriteBlock(hmacPwSalt, prf, out, i, offset, remaining, bytes, old(out[..]));
      i := i + 1;
    }
  }

  /** One pass of the block loop: block i is computed and its first
      `min(bytes, 64)` bytes are copied to the current offset. */
  method WriteBlock(hmacPwSalt: HmacState, ghost prf: seq<byte> -> seq<byte>, out: array<byte>, i: nat,
                    offset: nat, remaining: nat, ghost bytes: nat, ghost orig: seq<byte>)
    returns (offset': nat, remaining': nat)
    requires hmacPwSalt.Valid() && out !in hmacPwSalt.Repr()
    requires IsPrf(prf) && IsMacOf(prf, hmacPwSalt.key)
    requires bytes <= MaxBytes && bytes <= out.Length && |orig| == out.Length
    requires 1 <= i <= BlockCount(bytes) && offset == DigestBytes * (i - 1) && remaining == bytes - offset
    requires Written(out[..], prf, hmacPwSalt.message, i - 1, bytes, orig)
    modifies out
    ensures offset' == offset + DigestBytes
    ensures i < BlockCount(bytes) ==> remaining' == bytes - offset' && offset' < bytes
    ensures remaining' < Lane64
    ensures Written(out[..], prf, hmacPwSalt.message, i, bytes, orig)
  {
    CeilBlocks(bytes);
    var ti := NextBlock(hmacPwSalt, prf, i);
    offset', remaining' := StoreBlock(out, prf, hmacPwSalt.message, i, ti, offset, remaining, bytes, orig);
  }

  /** The rest of the pass once block i is known: the copy, then
      `bytes -= 64` and `out += 64`. */
  method StoreBlock(out: array<byte>, ghost prf: seq<byte> -> seq<byte>, ghost salt: seq<byte>, ghost i: nat,
                    ti: seq<byte>, offset: nat, remaining: nat, ghost bytes: nat, ghost orig: seq<byte>)
    returns (offset': nat, remaining': nat)
    requires IsPrf(prf) && bytes <= MaxBytes && bytes <= out.Length && |orig| == out.Length
    requires 1 <= i <= BlockCount(bytes) && offset == DigestBytes * (i - 1) && remaining == bytes - offset
    requires ti == Block(prf, salt, i)
    requires out[..offset] == Blocks(prf, salt, i - 1)[..offset]
    requires out[offset..] == orig[offset..]
    modifies out
    ensures offset' == offset + DigestBytes
    ensures i < BlockCount(bytes) ==> remaining' == bytes - offset' && offset' < bytes
    ensures remaining' < Lane64
    ensures out[..Min(offset', bytes)] == Blocks(prf, salt, i)[..Min(offset', bytes)]
    ensures out[Min(offset', bytes)..] == orig[Min(offset', bytes)..]
  {
    LastBlock(bytes, i);
    var count := if remaining > DigestBytes then DigestBytes else remaining;
    EmitBlock(out, prf, salt, i, ti, offset, count, bytes, orig);
    assert offset + count == Min(offset + DigestBytes, bytes);
    offset' := offset + DigestBytes;
    remaining' := Sub64(remaining, DigestBytes);
  }

  /** After n blocks the first min(64 n, bytes) bytes of the output are
      T_1 || ... || T_n and the rest is as it was. */
  ghost predicate Written(out: seq<byte>, prf: seq<byte> -> seq<byte>, salt: seq<byte>, n: nat, bytes: nat,
                          orig: seq<byte>)
    requires IsPrf(prf) && n < Word32
  {
    var w := Min(DigestBytes * n, bytes);
    w <= |out| == |orig| && out[..w] == Blocks(prf, salt, n)[..w] && out[w..] == orig[w..]
  }

  /** `work = hmac_pw_salt`, then BE32(i) through `work` and
      `scrypt_hmac_finish`: block i of the derivation. */
  method NextBlock(hmacPwSalt: HmacState, ghost prf: seq<byte> -> seq<byte>, i: nat) returns (ti: seq<byte>)
    requires hmacPwSalt.Valid() && 1 <= i < Word32
    requires IsPrf(prf) && IsMacOf(prf, hmacPwSalt.key)
    ensures ti == Block(prf, hmacPwSalt.message, i)
  {
    ti := hmacPwSalt.ForkFinish(Be32(i));
  }

  /** `((uint32_t)bytes + 63) / 64` in 32-bit arithmetic: under the
      precondition nothing wraps and this is the block count. */
  method BlockCount32(bytes: nat) returns (n: nat)
    requires bytes <= MaxBytes
    ensures n == BlockCount(bytes)
  {
    n := ((bytes % Word32 + (DigestBytes - 1)) % Word32) / DigestBytes;
  }

  /** `x -= y` on a uint64_t. */
  method Sub64(x: nat, y: nat) returns (r: nat)
    requires x < Lane64 && y < Lane64
    ensures r < Lane64
    ensures y <= x ==> r == x - y
  {
    r := (x - y) % Lane64;
  }

  /** Every block but the last is copied whole; the last one is copied up
      to byte `bytes`. */
  lemma LastBlock(bytes: nat, i: nat)
    requires bytes <= MaxBytes && 1 <= i <= BlockCount(bytes)
    ensures i < BlockCount(bytes) ==> bytes - DigestBytes * (i - 1) > DigestBytes
    ensures i == BlockCount(bytes) ==> 0 < bytes - DigestBytes * (i - 1) <= DigestBytes
  {
    CeilBlocks(bytes);
  }

  /** The body of the block loop: `memcpy(out, ti, min(bytes, 64))` at the
      current offset, which extends the output written so far by the first
      bytes of block i. */
  method EmitBlock(out: array<byte>, ghost prf: seq<byte> -> seq<byte>, ghost salt: seq<byte>, ghost i: nat,
                   ti: seq<byte>, offset: nat, count: nat, ghost bytes: nat, ghost orig: seq<byte>)
    requires IsPrf(prf) && 1 <= i < Word32 && offset == DigestBytes * (i - 1) && offset < bytes <= out.Length
    requires count == Min(bytes - offset, DigestBytes) && ti == Block(prf, salt, i)
    requires |orig| == out.Length
    requires out[..offset] == Blocks(prf, salt, i - 1)[..offset]
    requires out[offset..] == orig[offset..]
    modifies out
    ensures out[..offset + count] == Blocks(prf, salt, i)[..offset + count]
    ensures out[offset + count..] == orig[offset + count..]
  {
    ghost var before := out[..];
    CopyOut(out, offset, ti, count);
    BlocksStep(prf, salt, i, orig, before, out[..], offset, count, bytes);
  }

  /** `hmac_pw` keyed with the password, then forked into `hmac_pw_salt`,
      which absorbs the salt. */
  method KeyedSalt(password: seq<byte>, salt: seq<byte>) returns (h: HmacState)
    ensures fresh(h.Repr()) && h.Valid() && h.key == password && h.message == salt
  {
    var hmacPw := new HmacState(password);
    h := hmacPw.Copy();
    h.Update(salt);
  }

  function Min(a: nat, b: nat): nat
  {
    if a <= b then a else b
  }

  /** memcpy(out + offset, src, count) */
  method CopyOut(out: array<byte>, offset: nat, src: seq<byte>, count: nat)
    requires count <= |src| && offset + count <= out.Length
    modifies out
    ensures out[..offset] == old(out[..offset])
    ensures out[offset..offset + count] == src[..count]
    ensures out[offset + count..] == old(out[offset + count..])
  {
    forall j | 0 <= j < count {
      out[offset + j] := src[j];
    }
  }

  /** One iteration of the block loop extends the written prefix by the
      first `count` bytes of block i. */
  lemma BlocksStep(prf: seq<byte> -> seq<byte>, salt: seq<byte>, i: nat, orig: seq<byte>, before: seq<byte>, after: seq<byte>,
                   offset: nat, count: nat, bytes: nat)
    requires IsPrf(prf) && 1 <= i < Word32 && offset == DigestBytes * (i - 1) && offset < bytes
    requires count == Min(bytes - offset, DigestBytes) && offset + count <= |before| == |after| == |orig|
    requires before[..offset] == Blocks(prf, salt, i - 1)[..offset]
    requires before[offset..] == orig[offset..]
    requires after[..offset] == before[..offset]
    requires after[offset..offset + count] == Block(prf, salt, i)[..count]
    requires after[offset + count..] == before[offset + count..]
    ensures Min(offset + DigestBytes, bytes) == offset + count
    ensures after[..offset + count] == Blocks(prf, salt, i)[..offset + count]
    ensures after[offset + count..] == orig[offset + count..]
  {
    assert Blocks(prf, salt, i) == Blocks(prf, salt, i - 1) + Block(prf, salt, i);
    AppendPrefix(Blocks(prf, salt, i - 1), Block(prf, salt, i), after, count);
    KeepSuffix(orig, before, after, offset, offset + count);
  }

  /** Writing the first `count` bytes of `t` right after a prefix `p` gives
      a prefix of `p + t`. */
  lemma AppendPrefix(p: seq<byte>, t: seq<byte>, after: seq<byte>, count: nat)
    requires count <= |t| && |p| + count <= |after|
    requires after[..|p|] == p && after[|p|..|p| + count] == t[..count]
    ensures after[..|p| + count] == (p + t)[..|p| + count]
  {
    assert after[..|p| + count] == after[..|p|] + after[|p|..|p| + count];
  }

  /** Bytes past `k >= offset` that neither write touched keep their
      original value. */
  lemma KeepSuffix(orig: seq<byte>, before: seq<byte>, after: seq<byte>, offset: nat, k: nat)
    requires offset <= k <= |before| == |after| == |orig|
    requires before[offset..] == orig[offset..] && after[k..] == before[k..]
    ensures after[k..] == orig[k..]
  {
    assert before[k..] == before[offset..][k - offset..];
    assert orig[k..] == orig[offset..][k - offset..];
  }

  // ---------------------------------------------------------------------------
  // scrypt_jane_hash_1_1

  /** The bytes ROMix works on at a time, SCRYPT_BLOCK_BYTES * SCRYPT_R * 2:
      the 128-byte chunk of the r = 1 build, the size the search's CPU check
      passes to ROMix. */
  const ChunkBytes: nat := 128

  /** ROMix for a given N, applied to one chunk: it keeps the chunk's length. */
  ghost predicate IsMix(romix: (seq<byte>, nat) -> seq<byte>)
  {
    forall c, n :: |romix(c, n)| == |c|
  }

  /** Chunks 0 .. i-1 of x, each mixed on its own by ROMix. */
  function MixPrefix(x: seq<byte>, romix: (seq<byte>, nat) -> seq<byte>, n: nat, i: nat): (y: seq<byte>)
    requires IsMix(romix) && ChunkBytes * i <= |x|
    ensures |y| == ChunkBytes * i
  {
    if i == 0 then []
    else
      var lo, hi := ChunkBytes * (i - 1), ChunkBytes * i;
      assert hi == lo + ChunkBytes;
      MixPrefix(x, romix, n, i - 1) + romix(x[lo..hi], n)
  }

  /** The scrypt-jane key derivation with ROMix left abstract: X is PBKDF2
      of the password and salt, each of the p chunks of X is mixed on its
      own, and the output is PBKDF2 of the password with X as salt. */
  function JaneHash(password: seq<byte>, salt: seq<byte>, romix: (seq<byte>, nat) -> seq<byte>, n: nat,
                    p: nat, bytes: nat): (h: seq<byte>)
    requires IsMix(romix) && ChunkBytes * p <= MaxBytes && bytes <= MaxBytes
    ensures |h| == bytes
  {
    var x := Pbkdf2(password, salt, ChunkBytes * p);
    Pbkdf2(password, MixPrefix(x, romix, n, p), bytes)
  }

  /** Mixing touches each chunk separately: chunk i of the result is ROMix
      of chunk i of the input. */
  lemma {:induction false} MixPrefixAt(x: seq<byte>, romix: (seq<byte>, nat) -> seq<byte>, n: nat, p: nat, i: nat)
    requires IsMix(romix) && ChunkBytes * p <= |x| && i < p
    ensures ChunkBytes * (i + 1) <= ChunkBytes * p
    ensures MixPrefix(x, romix, n, p)[ChunkBytes * i..ChunkBytes * (i + 1)]
         == romix(x[ChunkBytes * i..ChunkBytes * (i + 1)], n)
  {
    var lo, hi := ChunkBytes * (p - 1), ChunkBytes * p;
    assert hi == lo + ChunkBytes;
    assert ChunkBytes * (i + 1) == ChunkBytes * i + ChunkBytes;
    var y := MixPrefix(x, romix, n, p);
    var front := MixPrefix(x, romix, n, p - 1);
    assert y == front + romix(x[lo..hi], n);
    if i < p - 1 {
      MixPrefixAt(x, romix, n, p - 1, i);
      assert ChunkBytes * (i + 1) <= lo;
      assert y[ChunkBytes * i..ChunkBytes * (i + 1)] == front[ChunkBytes * i..ChunkBytes * (i + 1)];
    } else {
      assert ChunkBytes * i == lo;
    }
  }

  /** scrypt_jane_hash_1_1: PBKDF2 into X, ROMix on each chunk of X in
      place, PBKDF2 of X into out. */
  method ScryptJaneHash(password: seq<byte>, salt: seq<byte>, romix: (seq<byte>, nat) -> seq<byte>, n: nat,
                        p: nat, out: array<byte>, bytes: nat, x: array<byte>)
    requires IsMix(romix) && ChunkBytes * p <= MaxBytes && bytes <= MaxBytes
    requires x.Length == ChunkBytes * p && bytes <= out.Length && out != x
    modifies out, x
    ensures out[..bytes] == JaneHash(password, salt, romix, n, p, bytes)
    ensures out[bytes..] == old(out[bytes..])
  {
    Pbkdf2One(password, salt, x, ChunkBytes * p);
    assert x[..] == x[..ChunkBytes * p];
    ghost var x0 := x[..];
    var i := 0;
    while i < p
      invariant 0 <= i <= p
      invariant ChunkBytes * i <= x.Length
      invariant x[..ChunkBytes * i] == MixPrefix(x0, romix, n, i)
      invariant x[ChunkBytes * i..] == x0[ChunkBytes * i..]
      invariant out[..] == old(out[..])
    {
      MixChunk(x, x0, romix, n, i, p);
      i := i + 1;
    }
    assert x[..] == MixPrefix(x0, romix, n, p);
    Pbkdf2One(password, x[..], out, bytes);
  }

  /** One more chunk: mix chunk i and append it. */
  lemma MixPrefixStep(x: seq<byte>, romix: (seq<byte>, nat) -> seq<byte>, n: nat, i: nat, lo: nat, hi: nat)
    requires IsMix(romix) && lo == ChunkBytes * i && hi == ChunkBytes * (i + 1) && hi <= |x|
    ensures lo <= hi
    ensures MixPrefix(x, romix, n, i + 1) == MixPrefix(x, romix, n, i) + romix(x[lo..hi], n)
  {
  }

  /** scrypt_ROMix_1 on chunk i of X, in place. */
  method MixChunk(x: array<byte>, ghost x0: seq<byte>, romix: (seq<byte>, nat) -> seq<byte>, n: nat,
                  i: nat, p: nat)
    requires IsMix(romix) && i < p && x.Length == ChunkBytes * p == |x0|
    requires x[..ChunkBytes * i] == MixPrefix(x0, romix, n, i)
    requires x[ChunkBytes * i..] == x0[ChunkBytes * i..]
    modifies x
    ensures ChunkBytes * (i + 1) <= x.Length
    ensures x[..ChunkBytes * (i + 1)] == MixPrefix(x0, romix, n, i + 1)
    ensures x[ChunkBytes * (i + 1)..] == x0[ChunkBytes * (i + 1)..]
  {
    var lo, hi := ChunkBytes * i, ChunkBytes * (i + 1);
    assert hi == lo + ChunkBytes;
    assert hi <= ChunkBytes * p;
    var mixed := romix(x[lo..hi], n);
    assert x[lo..hi] == x0[lo..hi];
    ghost var prev := x[..];
    CopyOut(x, lo, mixed, ChunkBytes);
    MixPrefixStep(x0, romix, n, i, lo, hi);
    assert x[..hi] == x[..lo] + x[lo..hi];
    assert x[hi..] == prev[hi..];
  }
}
