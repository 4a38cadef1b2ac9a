/** HMAC over the Keccak-512 sponge (`scrypt_hmac_state`,
    `scrypt_hmac_init`, `scrypt_hmac_update`, `scrypt_hmac_finish`): the
    construction of section 2 of RFC 2104 with block size B = 72 and output
    size L = 64. */
module Hmac {
  import opened Bytes
  import opened Keccak
  import opened Sponge

  const InnerByte: byte := 0x36
  const OuterByte: byte := 0x5c

  // ---------------------------------------------------------------------------
  // Specification

  /** K': the key zero-padded to a block, or, when it is longer than a
      block, its Keccak-512 digest zero-padded to a block. */
  function KeyBlock(key: seq<byte>): (k: seq<byte>)
    ensures |k| == RateBytes
  {
    if |key| <= RateBytes then key + Zeros(RateBytes - |key|)
    else Keccak512(key) + Zeros(RateBytes - DigestBytes)
  }

  /** Every byte of k XORed with p. */
  function XorBytes(k: seq<byte>, p: byte): (r: seq<byte>)
    ensures |r| == |k|
  {
    seq(|k|, j requires 0 <= j < |k| => k[j] ^ p)
  }

  /** K' XOR ipad */
  function InnerPad(key: seq<byte>): seq<byte>
  {
    XorBytes(KeyBlock(key), InnerByte)
  }

  /** K' XOR opad */
  function OuterPad(key: seq<byte>): seq<byte>
  {
    XorBytes(KeyBlock(key), OuterByte)
  }

  /** HMAC(K, m) = H(K' ^ opad || H(K' ^ ipad || m)). */
  function Mac(key: seq<byte>, m: seq<byte>): (mac: seq<byte>)
    ensures |mac| == DigestBytes
  {
    Keccak512(OuterPad(key) + Keccak512(InnerPad(key) + m))
  }

  // ---------------------------------------------------------------------------
  // Properties of the specification

  /** The outer pad is made from the inner one by XOR with 0x5c ^ 0x36,
      which gives K' ^ 0x5c byte for byte. */
  lemma OuterPadFromInner(key: seq<byte>)
    ensures XorBytes(InnerPad(key), OuterByte ^ InnerByte) == OuterPad(key)
  {
    var k := KeyBlock(key);
    forall j | 0 <= j < RateBytes
      ensures XorBytes(InnerPad(key), OuterByte ^ InnerByte)[j] == OuterPad(key)[j]
    {
      assert (k[j] ^ InnerByte) ^ (OuterByte ^ InnerByte) == k[j] ^ OuterByte;
    }
  }

  /** A key of at most one block is used as it is: the first |key| bytes of
      K' are the key and the rest are zero; a longer key is replaced by its
      digest. */
  lemma KeyBlockLayout(key: seq<byte>)
    ensures |key| <= RateBytes ==> KeyBlock(key)[..|key|] == key
    ensures |key| <= RateBytes ==> forall j :: |key| <= j < RateBytes ==> KeyBlock(key)[j] == 0
    ensures |key| > RateBytes ==> KeyBlock(key)[..DigestBytes] == Keccak512(key)
    ensures |key| > RateBytes ==> forall j :: DigestBytes <= j < RateBytes ==> KeyBlock(key)[j] == 0
  {
    if |key| <= RateBytes {
      assert KeyBlock(key)[..|key|] == key;
    } else {
      assert KeyBlock(key)[..DigestBytes] == Keccak512(key);
    }
  }

  // ---------------------------------------------------------------------------
  // scrypt_hmac_state

  class HmacState {
    const inner: HashState
    const outer: HashState
    /** The key the context was initialised with. */
    ghost var key: seq<byte>
    /** The message bytes given to `Update` so far. */
    ghost var message: seq<byte>

    /** Every object the context owns. */
    ghost function Repr(): set<object>
    {
      {this, inner, outer, inner.state, inner.buffer, outer.state, outer.buffer}
    }

    /** The inner context has absorbed K' ^ ipad and the message, the outer
        one K' ^ opad; the two own separate arrays. */
    ghost predicate Valid()
      reads this, inner, outer, inner.state, inner.buffer, outer.state, outer.buffer
    {
      inner != outer && inner.state != outer.state && inner.buffer != outer.buffer &&
      inner.Valid() && outer.Valid() &&
      inner.absorbed == InnerPad(key) + message &&
      outer.absorbed == OuterPad(key)
    }

    /** scrypt_hmac_init: both contexts absorb one 72-byte pad block. */
    constructor (k: seq<byte>)
      ensures Valid() && key == k && message == []
      ensures inner.leftover == 0 && outer.leftover == 0
      ensures fresh(Repr())
    {
      var i, o := InitPads(k);
      inner, outer := i, o;
      key, message := k, [];
    }

    /** A context made of two hashing contexts. */
    constructor Of(i: HashState, o: HashState, ghost k: seq<byte>, ghost m: seq<byte>)
      requires i != o && i.state != o.state && i.buffer != o.buffer
      requires i.Valid() && o.Valid()
      requires i.absorbed == InnerPad(k) + m && o.absorbed == OuterPad(k)
      ensures Valid() && inner == i && outer == o && key == k && message == m
    {
      inner, outer := i, o;
      key, message := k, m;
    }

    /** The struct copy `work = hmac_pw_salt`: an independent context in the
        same state. */
    method Copy() returns (c: HmacState)
      requires Valid()
      ensures fresh(c.Repr())
      ensures c.Valid() && c.key == key && c.message == message
    {
      var i := inner.Copy();
      var o := outer.Copy();
      assert i != o && i.state != o.state && i.buffer != o.buffer;
      assert i.Valid() && i.absorbed == InnerPad(key) + message;
      c := new HmacState.Of(i, o, key, message);
    }

    /** scrypt_hmac_update: the message goes to the inner context. */
    method Update(m: seq<byte>)
      requires Valid()
      modifies this, inner, inner.state, inner.buffer
      ensures Valid() && key == old(key) && message == old(message) + m
    {
      assert (InnerPad(key) + message) + m == InnerPad(key) + (message + m);
      inner.Update(m);
      message := message + m;
    }

    /** `work = hmac_pw_salt`, then `scrypt_hmac_update(&work, m)` and
        `scrypt_hmac_finish(&work)`: the MAC of the message so far followed by
        m, computed on a fork so that this context stays as it is. */
    method ForkFinish(m: seq<byte>) returns (mac: seq<byte>)
      requires Valid()
      ensures mac == Mac(key, message + m)
    {
      var work := Copy();
      work.Update(m);
      mac := work.Finish();
    }

    /** scrypt_hmac_finish: finish the inner hash, feed it to the outer
        context and finish that. Both contexts are left as
        `scrypt_hash_finish` leaves them: the padded tail in the buffer and
        the state after the last block; the outer one has also absorbed the
        inner digest. */
    method Finish() returns (mac: seq<byte>)
      requires Valid()
      modifies inner.state, inner.buffer, outer, outer.state, outer.buffer
      ensures mac == Mac(key, message)
      ensures inner.buffer[..] == Pad(Tail(InnerPad(key) + message))
      ensures inner.state[..] == BlockFunction(Absorb(InnerPad(key) + message), inner.buffer[..])
      ensures outer.absorbed == OuterPad(key) + Keccak512(InnerPad(key) + message)
      ensures outer.buffer[..] == Pad(Tail(outer.absorbed))
      ensures outer.state[..] == BlockFunction(Absorb(outer.absorbed), outer.buffer[..])
    {
      var innerHash := inner.Finish();
      outer.Update(innerHash);
      mac := outer.Finish();
    }
  }

  /** The body of `scrypt_hmac_init`: the inner context absorbs K' ^ ipad,
      the outer one K' ^ opad. */
  method InitPads(k: seq<byte>) returns (i: HashState, o: HashState)
    ensures fresh(i) && fresh(i.state) && fresh(i.buffer)
    ensures fresh(o) && fresh(o.state) && fresh(o.buffer)
    ensures i != o && i.state != o.state && i.buffer != o.buffer
    ensures i.Valid() && i.absorbed == InnerPad(k) + []
    ensures o.Valid() && o.absorbed == OuterPad(k)
  {
    i := new HashState();
    o := new HashState();
    var pad := KeyPad(k);
    XorInPlace(pad, InnerByte);
    i.Update(pad[..]);
    XorInPlace(pad, OuterByte ^ InnerByte);
    OuterPadFromInner(k);
    o.Update(pad[..]);
  }

  /** The first part of `scrypt_hmac_init`: a zeroed block holding the key,
      or the digest of a key longer than a block. */
  method KeyPad(k: seq<byte>) returns (pad: array<byte>)
    ensures fresh(pad) && pad[..] == KeyBlock(k)
  {
    pad := new byte[RateBytes](_ => 0);
    if |k| <= RateBytes {
      forall j | 0 <= j < |k| {
        pad[j] := k[j];
      }
    } else {
      var d := Hash(k);
      forall j | 0 <= j < DigestBytes {
        pad[j] := d[j];
      }
    }
  }

  /** The pad loops of `scrypt_hmac_init`: `pad[i] ^= p` for every byte. */
  method XorInPlace(pad: array<byte>, p: byte)
    modifies pad
    ensures pad[..] == XorBytes(old(pad[..]), p)
  {
    var i := 0;
    while i < pad.Length
      invariant 0 <= i <= pad.Length
      invariant forall j :: 0 <= j < i ==> pad[j] == old(pad[j]) ^ p
      invariant forall j :: i <= j < pad.Length ==> pad[j] == old(pad[j])
    {
      pad[i] := pad[i] ^ p;
      i := i + 1;
    }
  }
}
