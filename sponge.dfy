/** The Keccak-512 sponge of scrypt-jane: `scrypt_hash_state` with its
    25-lane state, the 72-byte `buffer` of a partial block and its
    `leftover` count; `scrypt_hash_init`, `scrypt_hash_update`,
    `scrypt_hash_finish` and the one-shot `scrypt_hash`.

    The digest is the original Keccak submission's: the message is padded
    with 0x01 ... 0x80 (not the 0x06 domain suffix of SHA3-512), and the 64
    digest bytes are lanes 0..7 written little-endian. */
module Sponge {
  import opened Bytes
  import opened Keccak

  /** SCRYPT_HASH_DIGEST_SIZE */
  const DigestBytes: nat := 64

  // ---------------------------------------------------------------------------
  // Specification

  /** The state reached from a by absorbing m, a whole number of rate blocks,
      one `keccak_block` per block. */
  function AbsorbBlocks(a: Lanes, m: seq<byte>): Lanes
    requires |m| % RateBytes == 0
    decreases |m|
  {
    if m == [] then a else AbsorbBlocks(BlockFunction(a, m[..RateBytes]), m[RateBytes..])
  }

  /** The bytes of m that fill whole blocks. */
  function FullBlocks(m: seq<byte>): (f: seq<byte>)
    ensures |f| <= |m| && f == m[..|f|]
    ensures |f| % RateBytes == 0 && |m| - |f| < RateBytes
  {
    BlockBoundary(|m|);
    m[..|m| - |m| % RateBytes]
  }

  /** Cutting a length down to a multiple of the block size. */
  lemma BlockBoundary(n: nat)
    ensures (n - n % RateBytes) % RateBytes == 0
  {
    DivModUnique(n - n % RateBytes, RateBytes, n / RateBytes, 0);
  }

  /** A length that is r past a block boundary, plus what is missing of that
      block, is on the next boundary. */
  lemma NextBoundary(n: nat)
    requires n % RateBytes != 0
    ensures (n + (RateBytes - n % RateBytes)) % RateBytes == 0
  {
    DivModUnique(n + (RateBytes - n % RateBytes), RateBytes, n / RateBytes + 1, 0);
  }

  /** A whole block past a boundary is a boundary, and what follows a
      boundary is its remainder. */
  lemma PastBoundary(n: nat, r: nat)
    requires n % RateBytes == 0
    ensures (n + RateBytes) % RateBytes == 0
    ensures r < RateBytes ==> (n + r) % RateBytes == r
  {
    DivModUnique(n + RateBytes, RateBytes, n / RateBytes + 1, 0);
    if r < RateBytes {
      DivModUnique(n + r, RateBytes, n / RateBytes, r);
    }
  }

  /** The bytes of m after its last whole block: what `buffer` holds. */
  function Tail(m: seq<byte>): (t: seq<byte>)
    ensures |t| < RateBytes && FullBlocks(m) + t == m
  {
    m[|m| - |m| % RateBytes..]
  }

  /** The state after absorbing every whole block of m from the zero state. */
  function Absorb(m: seq<byte>): Lanes
  {
    AbsorbBlocks(ZeroState(), FullBlocks(m))
  }

  /** The final block: the tail, a 0x01 byte, zeros, and 0x80 ORed into the
      last byte of the block. */
  function Pad(tail: seq<byte>): seq<byte>
    requires |tail| < RateBytes
  {
    var p := tail + [0x01] + Zeros(RateBytes - |tail| - 1);
    p[RateBytes - 1 := p[RateBytes - 1] | 0x80]
  }

  /** Lanes written one after another, each as eight little-endian bytes. */
  function LanesLE(ls: seq<u64>): (b: seq<byte>)
    ensures |b| == 8 * |ls|
  {
    if ls == [] then [] else LanesLE(ls[..|ls| - 1]) + StoreLE64(ls[|ls| - 1])
  }

  /** The digest: lanes 0..7 of the state, little-endian. */
  function Squeeze(a: Lanes): seq<byte>
  {
    LanesLE(a[..8])
  }

  /** The sponge run from state a over m: one `keccak_block` per whole
      block of m, then one on the padded rest. */
  function SpongeRun(a: Lanes, m: seq<byte>): Lanes
    decreases |m|
  {
    if |m| < RateBytes then BlockFunction(a, Pad(m))
    else SpongeRun(BlockFunction(a, m[..RateBytes]), m[RateBytes..])
  }

  /** Keccak-512 of m, as `scrypt_hash` computes it. */
  function Keccak512(m: seq<byte>): (d: seq<byte>)
    ensures |d| == DigestBytes
  {
    Squeeze(SpongeRun(ZeroState(), m))
  }

  // ---------------------------------------------------------------------------
  // Properties of the specification

  /** Absorbing two runs of whole blocks one after the other is absorbing
      their concatenation. */
  lemma {:induction false} AbsorbBlocksAppend(a: Lanes, m1: seq<byte>, m2: seq<byte>)
    requires |m1| % RateBytes == 0 && |m2| % RateBytes == 0
    ensures AbsorbBlocks(a, m1 + m2) == AbsorbBlocks(AbsorbBlocks(a, m1), m2)
    decreases |m1|
  {
    if m1 == [] {
      assert m1 + m2 == m2;
    } else {
      assert |m1| >= RateBytes;
      var b := BlockFunction(a, m1[..RateBytes]);
      assert (m1 + m2)[..RateBytes] == m1[..RateBytes];
      assert (m1 + m2)[RateBytes..] == m1[RateBytes..] + m2;
      assert AbsorbBlocks(a, m1 + m2) == AbsorbBlocks(b, m1[RateBytes..] + m2);
      AbsorbBlocksAppend(b, m1[RateBytes..], m2);
    }
  }

  /** The sponge run over whole blocks f followed by a short tail t is the
      absorption of f followed by one `keccak_block` on the padded tail. */
  lemma {:induction false} SpongeRunSplit(a: Lanes, f: seq<byte>, t: seq<byte>)
    requires |f| % RateBytes == 0 && |t| < RateBytes
    ensures SpongeRun(a, f + t) == BlockFunction(AbsorbBlocks(a, f), Pad(t))
    decreases |f|
  {
    if f == [] {
      assert f + t == t;
    } else {
      DivModUnique(|f| - RateBytes, RateBytes, |f| / RateBytes - 1, 0);
      var b := BlockFunction(a, f[..RateBytes]);
      assert (f + t)[..RateBytes] == f[..RateBytes];
      assert (f + t)[RateBytes..] == f[RateBytes..] + t;
      SpongeRunSplit(b, f[RateBytes..], t);
    }
  }

  /** Keccak-512 is the absorption of the whole blocks of m from the zero
      state, one more block function on the padded tail, and the squeeze of
      lanes 0..7. */
  lemma Keccak512Stages(m: seq<byte>)
    ensures SpongeRun(ZeroState(), m) == BlockFunction(Absorb(m), Pad(Tail(m)))
    ensures Keccak512(m) == Squeeze(BlockFunction(Absorb(m), Pad(Tail(m))))
  {
    SpongeRunSplit(ZeroState(), FullBlocks(m), Tail(m));
  }

  /** Absorbing one more block is one more `keccak_block`. */
  lemma AbsorbOneMore(a: Lanes, m: seq<byte>, block: seq<byte>)
    requires |m| % RateBytes == 0 && |block| == RateBytes
    ensures AbsorbBlocks(a, m + block) == BlockFunction(AbsorbBlocks(a, m), block)
  {
    AbsorbBlocksAppend(a, m, block);
    assert block[..RateBytes] == block && block[RateBytes..] == [];
  }

  /** Appending bytes that do not complete a block leaves the absorbed state
      alone and extends the tail. */
  lemma AppendWithinBlock(m: seq<byte>, x: seq<byte>)
    requires |m| % RateBytes + |x| < RateBytes
    ensures |m + x| % RateBytes == |m| % RateBytes + |x|
    ensures FullBlocks(m + x) == FullBlocks(m)
    ensures Tail(m + x) == Tail(m) + x
  {
    var f := FullBlocks(m);
    assert |m + x| % RateBytes == |m| % RateBytes + |x| by {
      DivModUnique(|m + x|, RateBytes, |f| / RateBytes, |m| % RateBytes + |x|);
    }
    assert (m + x)[..|f|] == m[..|f|];
  }

  /** The tail and the final block: the tail is kept, a 0x01 follows it,
      then zeros, and the last byte has 0x80 ORed in, which gives the single
      byte 0x81 when the tail is 71 bytes long. */
  lemma PadLayout(tail: seq<byte>)
    requires |tail| < RateBytes
    ensures |Pad(tail)| == RateBytes
    ensures Pad(tail)[..|tail|] == tail
    ensures |tail| < RateBytes - 1 ==> Pad(tail)[|tail|] == 0x01 && Pad(tail)[RateBytes - 1] == 0x80
    ensures |tail| == RateBytes - 1 ==> Pad(tail)[RateBytes - 1] == 0x81
    ensures forall k :: |tail| < k < RateBytes - 1 ==> Pad(tail)[k] == 0
  {
    var p := tail + [0x01] + Zeros(RateBytes - |tail| - 1);
    assert p[..|tail|] == tail;
  }

  /** Lane i of the state is read back from bytes 8i..8i+8 of the digest. */
  lemma {:induction false} LanesLEAt(ls: seq<u64>, i: nat)
    requires i < |ls|
    ensures LanesLE(ls)[8 * i..8 * i + 8] == StoreLE64(ls[i])
    ensures LoadLE64(LanesLE(ls)[8 * i..8 * i + 8]) == ls[i]
  {
    var n := |ls| - 1;
    if i < n {
      LanesLEAt(ls[..n], i);
      assert LanesLE(ls)[..8 * n] == LanesLE(ls[..n]);
      assert ls[..n][i] == ls[i];
    }
    LoadStoreLE64(ls[i]);
  }

  // ---------------------------------------------------------------------------
  // scrypt_hash_state

  class HashState {
    /** uint64_t state[25] */
    const state: array<u64>
    /** uint32_t leftover: the number of bytes waiting in `buffer` */
    var leftover: nat
    /** uint8_t buffer[72]; bytes past `leftover` may be stale */
    const buffer: array<byte>
    /** Every byte absorbed since initialisation. */
    ghost var absorbed: seq<byte>

    /** The fields are the sponge of `absorbed`: its whole blocks are in the
        state, the rest is at the front of the buffer. */
    ghost predicate Valid()
      reads this, state, buffer
    {
      state.Length == StateLanes && buffer.Length == RateBytes &&
      leftover == |absorbed| % RateBytes &&
      state[..] == Absorb(absorbed) &&
      buffer[..leftover] == Tail(absorbed)
    }

    /** scrypt_hash_init: a zeroed state. */
    constructor ()
      ensures Valid() && fresh(state) && fresh(buffer)
      ensures absorbed == [] && leftover == 0
    {
      state := new u64[StateLanes](_ => 0);
      buffer := new byte[RateBytes](_ => 0);
      leftover := 0;
      absorbed := [];
      new;
      assert state[..] == ZeroState();
    }

    /** The struct copy `b = a` of a hashing context: fresh arrays holding
        the same state and buffer. */
    method Copy() returns (c: HashState)
      requires Valid()
      ensures fresh(c) && fresh(c.state) && fresh(c.buffer)
      ensures c.Valid() && c.absorbed == absorbed && c.leftover == leftover
      ensures c.buffer[..] == buffer[..]
    {
      c := new HashState();
      forall i | 0 <= i < StateLanes {
        c.state[i] := state[i];
      }
      forall i | 0 <= i < RateBytes {
        c.buffer[i] := buffer[i];
      }
      c.leftover := leftover;
      c.absorbed := absorbed;
      assert c.state[..] == state[..];
      assert c.buffer[..] == buffer[..];
    }

    /** scrypt_hash_update: fill a pending partial block first, then absorb
        whole blocks straight from the input, then keep what is left in
        `buffer`. */
    method Update(input: seq<byte>)
      requires Valid()
      modifies this, state, buffer
      ensures Valid() && absorbed == old(absorbed) + input
      ensures leftover < RateBytes
    {
      ghost var before := absorbed;
      var pos, finished := UpdatePending(input);
      if finished {
        return;
      }

      ghost var mid := pos;
      pos := AbsorbWholeBlocks(input, pos);
      AbsorbBlocksAppend(ZeroState(), absorbed[..|before| + mid], input[mid..pos]);
      assert absorbed[..|before| + mid] + input[mid..pos] == absorbed[..|before| + pos];
      DivModUnique(|before| + pos, RateBytes, (|before| + mid) / RateBytes + (pos - mid) / RateBytes, 0);

      assert absorbed[|before| + pos..] == input[pos..];
      KeepLeftover(input, pos, |before| + pos);
    }

    /** The end of `scrypt_hash_update`: the bytes after the last whole
        block are kept in `buffer`. */
    method KeepLeftover(input: seq<byte>, pos: nat, ghost n: nat)
      requires state.Length == StateLanes && buffer.Length == RateBytes
      requires pos <= |input| && |input| - pos < RateBytes
      requires n % RateBytes == 0 && n <= |absorbed| && absorbed[n..] == input[pos..]
      requires state[..] == AbsorbBlocks(ZeroState(), absorbed[..n])
      modifies this, buffer
      ensures Valid() && absorbed == old(absorbed) && leftover < RateBytes
    {
      leftover := |input| - pos;
      if leftover != 0 {
        forall k | 0 <= k < leftover {
          buffer[k] := input[pos + k];
        }
      }
      PastBoundary(n, leftover);
      assert FullBlocks(absorbed) == absorbed[..n];
      assert buffer[..leftover] == input[pos..];
    }

    /** The first branch of `scrypt_hash_update`: when a partial block is
        pending, top it up from the input; `finished` is the early return
        taken when the block is still not full. Otherwise the completed block
        is absorbed and the input is consumed up to `pos`. */
    method UpdatePending(input: seq<byte>) returns (pos: nat, finished: bool)
      requires Valid()
      modifies this, state, buffer
      ensures absorbed == old(absorbed) + input && pos <= |input|
      ensures state.Length == StateLanes && buffer.Length == RateBytes
      ensures finished ==> Valid()
      ensures !finished ==> (|old(absorbed)| + pos) % RateBytes == 0
      ensures !finished ==> state[..] == AbsorbBlocks(ZeroState(), absorbed[..|old(absorbed)| + pos])
    {
      ghost var before := absorbed;
      absorbed := absorbed + input;
      pos, finished := 0, false;
      if leftover != 0 {
        var want := RateBytes - leftover;
        want := if want < |input| then want else |input|;
        FillBuffer(input[..want]);
        if leftover < RateBytes {
          assert input[..want] == input;
          AppendWithinBlock(before, input);
          finished := true;
          return;
        }
        pos := want;
        ghost var block := buffer[..];
        assert block == Tail(before) + input[..want];
        KeccakBlock(state, buffer[..]);
        AbsorbOneMore(ZeroState(), FullBlocks(before), block);
        NextBoundary(|before|);
        assert FullBlocks(before) + block == absorbed[..|before| + pos];
      } else {
        assert FullBlocks(before) == absorbed[..|before|];
      }
    }

    /** The loop of `scrypt_hash_update`: `keccak_block` straight on the
        input while at least one whole block of it remains. */
    method AbsorbWholeBlocks(input: seq<byte>, from: nat) returns (pos: nat)
      requires state.Length == StateLanes && from <= |input|
      modifies state
      ensures from <= pos <= |input| && |input| - pos < RateBytes
      ensures (pos - from) % RateBytes == 0
      ensures state[..] == AbsorbBlocks(old(state[..]), input[from..pos])
    {
      ghost var start: Lanes := state[..];
      pos := from;
      var inlen: nat := |input| - from;
      assert input[from..pos] == [];
      while inlen >= RateBytes
        invariant from <= pos && pos + inlen == |input|
        invariant (pos - from) % RateBytes == 0
        invariant state[..] == AbsorbBlocks(start, input[from..pos])
      {
        KeccakBlock(state, input[pos..pos + RateBytes]);
        AbsorbOneMore(start, input[from..pos], input[pos..pos + RateBytes]);
        assert input[from..pos] + input[pos..pos + RateBytes] == input[from..pos + RateBytes];
        PastBoundary(pos - from, 0);
        pos := pos + RateBytes;
        inlen := inlen - RateBytes;
      }
    }

    /** The first branch of `scrypt_hash_update`: `memcpy` of the bytes that
        fit into the pending block, and `leftover += want`. */
    method FillBuffer(part: seq<byte>)
      requires buffer.Length == RateBytes && leftover + |part| <= RateBytes
      modifies this`leftover, buffer
      ensures leftover == old(leftover) + |part|
      ensures buffer[..leftover] == old(buffer[..leftover]) + part
    {
      forall k | 0 <= k < |part| {
        buffer[leftover + k] := part[k];
      }
      leftover := leftover + |part|;
    }

    /** The padding statements of `scrypt_hash_finish`. */
    method PadBuffer()
      requires buffer.Length == RateBytes && leftover < RateBytes
      modifies buffer
      ensures buffer[..] == Pad(old(buffer[..leftover]))
    {
      ghost var tail := buffer[..leftover];
      buffer[leftover] := 0x01;
      forall k | leftover + 1 <= k < RateBytes {
        buffer[k] := 0;
      }
      buffer[RateBytes - 1] := buffer[RateBytes - 1] | 0x80;
      assert buffer[..leftover] == tail;
    }

    /** The output loop of `scrypt_hash_finish`: `U64TO8_LE` of lanes 0..7. */
    method WriteDigest() returns (digest: seq<byte>)
      requires state.Length == StateLanes
      ensures |digest| == DigestBytes
      ensures forall i :: 0 <= i < 8 ==> LoadLE64(digest[8 * i..8 * i + 8]) == state[i]
      ensures digest == Squeeze(state[..])
    {
      digest := [];
      var i := 0;
      while i < DigestBytes
        invariant 0 <= i <= DigestBytes && i % 8 == 0
        invariant digest == LanesLE(state[..i / 8])
      {
        assert state[..i / 8 + 1][..i / 8] == state[..i / 8];
        digest := digest + StoreLE64(state[i / 8]);
        i := i + 8;
      }
      assert state[..8] == state[..][..8];
      forall i | 0 <= i < 8
        ensures LoadLE64(digest[8 * i..8 * i + 8]) == state[i]
      {
        LanesLEAt(state[..8], i);
      }
    }

    /** scrypt_hash_finish: pad the tail into the last block, absorb it, and
        write lanes 0..7 out little-endian. */
    method Finish() returns (digest: seq<byte>)
      requires Valid()
      modifies state, buffer
      ensures digest == Keccak512(old(absorbed))
      ensures buffer[..] == Pad(Tail(old(absorbed)))
      ensures state[..] == BlockFunction(Absorb(old(absorbed)), buffer[..])
    {
      PadBuffer();
      KeccakBlock(state, buffer[..]);
      digest := WriteDigest();
      Keccak512Stages(old(absorbed));
    }
  }

  /** What a context holds is determined by the bytes it has absorbed, so
      feeding a message to `scrypt_hash_update` in several calls leaves the
      same state, leftover count and pending bytes as one call on the
      concatenation. */
  lemma SameInputSameContext(h1: HashState, h2: HashState)
    requires h1.Valid() && h2.Valid() && h1.absorbed == h2.absorbed
    ensures h1.state[..] == h2.state[..]
    ensures h1.leftover == h2.leftover
    ensures h1.buffer[..h1.leftover] == h2.buffer[..h2.leftover]
  {
  }

  /** scrypt_hash: initialise, absorb the whole message, finish. */
  method Hash(m: seq<byte>) returns (digest: seq<byte>)
    ensures digest == Keccak512(m)
    ensures |digest| == DigestBytes
  {
    var st := new HashState();
    st.Update(m);
    assert st.absorbed == m;
    digest := st.Finish();
  }
}
