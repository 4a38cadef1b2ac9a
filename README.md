# scrypt-jane (Keccak-512 flavour) for the ccminer scrypt-jane search

This project models the host-side core of ccminer's `scrypt-jane.cpp`, the
miner for Yacoin-family coins whose proof of work is scrypt with Keccak-512
as its hash. The model has seven modules, one per layer of the file:

- `Bytes`: the integer types the code is written in. These are bytes,
  `uint32_t` words and `uint64_t` lanes. The module gives the lanes' bitwise
  operations and rotation, proved bit by bit against the C operators, and
  the little- and big-endian loads and stores. It also has `bswap_32x4`.
- `Keccak`: `keccak_block`, i.e. Keccak-f[1600] as the source runs it.
  - One 72-byte block is XORed into lanes 0..8, followed by 24 rounds of
    theta, rho/pi, chi and iota.
  - Each step is an in-place method on the 25-lane array that follows the
    source's statement order.
  - Each method is proved equal to the step mapping of section 3.2 of
    FIPS 202, which is written out of place. Iota XORs in the source's
    table of round constants (see Left out).
- `Sponge`: the `scrypt_hash_state` context as a class.
  - The 25-lane `state` array, the 72-byte `buffer` and its `leftover` count
    are fields.
  - It has `scrypt_hash_init`, `scrypt_hash_update` (pending bytes, whole
    blocks, leftover bytes), `scrypt_hash_finish` (0x01 ... 0x80 padding and
    the little-endian digest) and the one-shot `scrypt_hash`.
  - All of them are proved against a functional Keccak-512 sponge.
- `Hmac`: `scrypt_hmac_state` as a class holding two hashing contexts.
  - The struct copies the source makes (`hmac_pw_salt = hmac_pw`,
    `work = hmac_pw_salt`) are `Copy`.
  - Init, update and finish are proved to compute HMAC as section 2 of
    RFC 2104 defines it, with B = 72 and L = 64.
- `Pbkdf2`: `scrypt_pbkdf2_1` and `scrypt_jane_hash_1_1`.
  - `scrypt_pbkdf2_1` is PBKDF2 with one iteration (section 5.2 of RFC 8018
    with c = 1). The output is written block by block into a caller's array,
    with the last block truncated.
  - `scrypt_jane_hash_1_1` is the composition PBKDF2, then ROMix on every
    128-byte chunk, then PBKDF2.
- `NFactor`: `GetNfactor`, the time-based N-factor schedule.
  - It covers the coin table with its `strcmp`/`strcasecmp` matching, the
    halving loop, the `(l * 170 + s * 25 - 2320) / 100` formula, the clamp
    and the `unsigned char` result.
  - It also covers the formula as the source evaluates it, in `unsigned
    long` arithmetic (see Findings).
- `Search`: the bookkeeping of `scanhash_scrypt_jane`.
  - It chooses the N-factor and the header size, and fails fatally beyond
    `scrypt_maxN`.
  - It fills the two alternating `cur`/`nxt` slots of lanes with
    consecutive nonces.
  - The acceptance gate is the word-7 pre-filter, then `fulltest`, then a
    CPU recomputation of the candidate's hash compared with `memcmp`.
  - It writes back `hashes_done` and the nonce.

Three things are parameters of the model because their code is not part of
it:
- the device (`gpu`: the digest the device returns for a lane's header);
- its synchronisation result (`syncOk`);
- the cancellation flag (`restart`).

`fulltest` is an uninterpreted predicate. ROMix (`scrypt_ROMix_1`, whose
code is not part of this model) is a function parameter that keeps the
length of its 128-byte chunk.

`ROTL64`, `U8TO64_LE`, `U64TO8_LE` and `U32TO8_BE` come from portable
headers that are not part of this model. They are modelled with their usual
meaning: rotate left on 64 bits, little-endian and big-endian load and
store.

## Model

| member | source | states |
|---|---|---|
| Bytes.XorBit | scrypt-jane.cpp:80-84 | each bit of the modelled lane XOR is the XOR of the operands' bits, as C `^` on `uint64_t` |
| Bytes.AndBit | scrypt-jane.cpp:114-118 | each bit of the modelled lane AND is the AND of the operands' bits, as C `&` |
| Bytes.NotBit | scrypt-jane.cpp:114-118 | each bit of the modelled complement is the negation of the operand's bit, as C `~` on 64 bits |
| Bytes.Rotl1Bit | scrypt-jane.cpp:73-77 | rotating by one moves bit k to bit (k + 1) mod 64 |
| Bytes.Rotl64Bit | scrypt-jane.cpp:88-111 | `ROTL64(x, n)` moves bit k of x to bit (k + n) mod 64, for every k |
| Bytes.LoadStoreLE | scrypt-jane.cpp:60-62 | reading back the n little-endian bytes of any x below 2^(8n) gives x |
| Bytes.StoreLoadLE | scrypt-jane.cpp:168-170 | writing back the value of any byte string as little-endian bytes of the same length gives the string |
| Bytes.LoadStoreLE64 | scrypt-jane.cpp:62 | `U8TO64_LE` undoes `U64TO8_LE` on every lane |
| Bytes.StoreLoadLE64 | scrypt-jane.cpp:169 | `U64TO8_LE` undoes `U8TO64_LE` on every 8 bytes |
| Bytes.LoadStoreBE32 | scrypt-jane.cpp:262 | the 4 bytes `U32TO8_BE` writes for a block index read back big-endian as that index |
| Bytes.Bswap32Involution | scrypt-jane.cpp:449-450 | `bswap_32x4` applied twice gives the word back |
| Bytes.Bswap32LayoutIsBigEndian | scrypt-jane.cpp:449-450 | the little-endian bytes of a byte-swapped word are the big-endian bytes of the word |
| Bytes.WordsLEAt | scrypt-jane.cpp:788 | word k of a digest occupies bytes 4k..4k+3 of its memory image, little-endian |
| Bytes.WordsLEInjective | scrypt-jane.cpp:788 | two digests with equal 32-byte memory images are equal word for word, so the `memcmp` compares the words |
| Keccak.RhoWalkSteps | scrypt-jane.cpp:86-111 | the lanes rotated by the rho/pi chain follow the walk (x, y) -> (y, 2x + 3y mod 5) from (1, 0) |
| Keccak.RhoOffsetsFollowWalk | scrypt-jane.cpp:86-111 | the rotation of the t-th lane on the walk is (t + 1)(t + 2)/2 mod 64, and lane 0 is not rotated (FIPS 202 section 3.2.2) |
| Keccak.RhoOffsetAt | scrypt-jane.cpp:86-111 | the same for one step t of the walk |
| Keccak.RhoWalkVisitsEachLaneOnce | scrypt-jane.cpp:86-111 | the 24 steps of the walk visit 24 distinct lanes, none of them lane (0, 0) |
| Keccak.PiSourcesAreFips | scrypt-jane.cpp:86-111 | lane (x, y) of the result is taken from lane ((x + 3y) mod 5, x), as pi in FIPS 202 section 3.2.3 |
| Keccak.PiIsPermutation | scrypt-jane.cpp:86-111 | the 25 source lanes of rho/pi are distinct lanes of the state |
| Keccak.ThetaUpToLane | scrypt-jane.cpp:80-84 | after the first k column updates, the lanes of those columns hold a ^ d[x] and the others are unchanged |
| Keccak.ThetaByColumns | scrypt-jane.cpp:65-84 | updating the five columns one after another gives theta of FIPS 202 section 3.2.1 |
| Keccak.ChiByRows | scrypt-jane.cpp:113-118 | the five row updates together are chi of FIPS 202 section 3.2.4 |
| Keccak.AbsorbBlockTouchesRateOnly | scrypt-jane.cpp:60-62 | absorbing a block XORs bytes 8i..8i+7 of the block into lane i (i < 9), bit by bit, and leaves the capacity lanes 9..24 unchanged |
| Keccak.IotaTouchesLaneZeroOnly | scrypt-jane.cpp:120-121 | iota flips exactly the bits of the round constant in lane 0 and changes no other lane |
| Keccak.RhoPiFixesLaneZero | scrypt-jane.cpp:86-111 | rho/pi leaves lane 0 as it is |
| Keccak.XorColumn | scrypt-jane.cpp:80-84 | XORing d into the five lanes of column x changes exactly those lanes |
| Keccak.ThetaEffects | scrypt-jane.cpp:66-77 | u[x] is the parity of column x - 1 XOR the parity of column x + 1 rotated by one |
| Keccak.ThetaColumn | scrypt-jane.cpp:80-84 | one column update extends the theta prefix by one column |
| Keccak.ThetaInPlace | scrypt-jane.cpp:65-84 | the in-place theta turns the state a into Theta(a) |
| Keccak.RotateInto | scrypt-jane.cpp:88-110 | `s[dst] = ROTL64(s[src], n)` sets that lane and no other |
| Keccak.RhoPiHead | scrypt-jane.cpp:87-99 | the first twelve assignments of the chain set their lanes from the old state and leave the rest as they were |
| Keccak.RhoPiTail | scrypt-jane.cpp:100-111 | the last twelve assignments, with `v` the saved `s[1]`, set their lanes from the old state and leave the rest as they were |
| Keccak.RhoPiChain | scrypt-jane.cpp:86-111 | after the chain every lane is the rotation of the right old lane, although each assignment overwrites a lane the chain still needs |
| Keccak.RhoPiInPlace | scrypt-jane.cpp:86-111 | the in-place chain turns the state a into RhoPi(a) |
| Keccak.ChiRowLine | scrypt-jane.cpp:114-118 | one line of chi, which saves s[5y] and s[5y+1] in v and w, updates the row from its old values only and leaves the other rows unchanged |
| Keccak.ChiRow | scrypt-jane.cpp:114-118 | one row line of chi computes ChiRowUpdate of row y |
| Keccak.ChiInPlace | scrypt-jane.cpp:113-118 | the five lines of chi turn the state a into Chi(a) |
| Keccak.IotaInPlace | scrypt-jane.cpp:120-121 | XORing the round constant into lane 0 turns the state into Iota(a, round) |
| Keccak.AbsorbInPlace | scrypt-jane.cpp:60-62 | the absorb loop turns the state into AbsorbBlock(a, block) |
| Keccak.RoundInPlace | scrypt-jane.cpp:64-122 | one loop iteration computes Round(a, i) = iota(chi(rho/pi(theta(a)))) |
| Keccak.KeccakBlock | scrypt-jane.cpp:55-123 | `keccak_block` turns the state into Keccak-f[1600] of the state with the block absorbed |
| Sponge.FullBlocks | scrypt-jane.cpp:146-151 | the whole blocks of a message are a prefix of it, a multiple of 72 bytes long, leaving less than 72 bytes |
| Sponge.Tail | scrypt-jane.cpp:153-156 | the bytes left after the whole blocks are fewer than 72, and the blocks followed by them are the message |
| Sponge.Keccak512 | scrypt-jane.cpp:159-171 | the digest is 64 bytes long |
| Sponge.AbsorbBlocksAppend | scrypt-jane.cpp:146-151 | absorbing two runs of whole blocks is absorbing the first and then the second |
| Sponge.SpongeRunSplit | scrypt-jane.cpp:129-171 | the sponge over blocks f followed by a short tail t is the absorption of f followed by one block function on the padded tail |
| Sponge.Keccak512Stages | scrypt-jane.cpp:182-189 | the digest of m is the squeeze of the block function on the state after the whole blocks and on the padded tail |
| Sponge.AbsorbOneMore | scrypt-jane.cpp:142-143 | absorbing one more block after whole blocks is one more `keccak_block` |
| Sponge.AppendWithinBlock | scrypt-jane.cpp:133-141 | input that does not complete the pending block adds to the tail and leaves the whole blocks unchanged |
| Sponge.PadLayout | scrypt-jane.cpp:163-166 | the padded block is the tail, then 0x01, then zeros, then 0x80 in its last byte, or 0x81 there when the tail is 71 bytes |
| Sponge.LanesLEAt | scrypt-jane.cpp:168-170 | digest bytes 8i..8i+7 are lane i little-endian, and read back as that lane |
| Sponge.HashState.constructor | scrypt-jane.cpp:125-127 | a new context holds the zero state, no leftover bytes and has absorbed nothing |
| Sponge.HashState.Copy | scrypt-jane.cpp:256 | the struct copy is a fresh context with the same state, absorbed message, leftover count and buffer |
| Sponge.HashState.Update | scrypt-jane.cpp:129-157 | `scrypt_hash_update` appends its input to the absorbed message, keeping the state as the absorption of the whole blocks and the buffer as the tail |
| Sponge.HashState.UpdatePending | scrypt-jane.cpp:133-144 | the pending part either leaves the context consistent (the block is still incomplete) or completes the block and absorbs it |
| Sponge.HashState.FillBuffer | scrypt-jane.cpp:136-137 | the memcpy into the buffer appends the bytes after the leftover ones and raises the count by their number |
| Sponge.HashState.AbsorbWholeBlocks | scrypt-jane.cpp:146-151 | the loop absorbs the input from `from` in whole blocks, stopping with fewer than 72 bytes left |
| Sponge.HashState.KeepLeftover | scrypt-jane.cpp:153-156 | the remaining input becomes the buffer's tail and the context is consistent again |
| Sponge.HashState.PadBuffer | scrypt-jane.cpp:163-165 | the buffer becomes Pad of its leftover bytes |
| Sponge.HashState.WriteDigest | scrypt-jane.cpp:168-170 | the 64 output bytes are lanes 0..7 written little-endian |
| Sponge.HashState.Finish | scrypt-jane.cpp:159-171 | `scrypt_hash_finish` returns Keccak-512 of everything absorbed |
| Sponge.SameInputSameContext | scrypt-jane.cpp:129-157 | two consistent contexts that absorbed the same bytes have the same state, leftover count and pending bytes |
| Sponge.Hash | scrypt-jane.cpp:182-189 | `scrypt_hash` returns Keccak-512 of its message |
| Hmac.OuterPadFromInner | scrypt-jane.cpp:216-217 | XORing the inner pad with 0x5c ^ 0x36 gives K' ^ 0x5c |
| Hmac.KeyBlockLayout | scrypt-jane.cpp:200-206 | a key of at most 72 bytes is used as it is and zero-padded; a longer key is replaced by its 64-byte digest, zero-padded |
| Hmac.KeyPad | scrypt-jane.cpp:194-206 | the pad array holds K' |
| Hmac.XorInPlace | scrypt-jane.cpp:210-211 | the pad loop XORs every byte of the pad with p |
| Hmac.InitPads | scrypt-jane.cpp:197-218 | the inner context absorbs K' ^ 0x36 and the outer K' ^ 0x5c, in separate arrays |
| Hmac.HmacState.constructor | scrypt-jane.cpp:192-219 | `scrypt_hmac_init` gives a context for the key with no message absorbed |
| Hmac.HmacState.Copy | scrypt-jane.cpp:263 | the struct copy is an independent context with the same key and message |
| Hmac.HmacState.Update | scrypt-jane.cpp:221-225 | `scrypt_hmac_update` appends to the message |
| Hmac.HmacState.Finish | scrypt-jane.cpp:227-236 | `scrypt_hmac_finish` returns H(K' ^ opad, H(K' ^ ipad, message)), the HMAC of the key and the message, and leaves both contexts as `scrypt_hash_finish` leaves them, the outer one having absorbed the inner digest |
| Hmac.HmacState.ForkFinish | scrypt-jane.cpp:263-265 | copying a context, updating the copy and finishing it gives the HMAC of the message so far followed by the new bytes, without changing the original |
| Pbkdf2.Pbkdf2 | scrypt-jane.cpp:242-272 | the derived key has exactly the requested length |
| Pbkdf2.CeilBlocks | scrypt-jane.cpp:259 | `blocks` is the least number of 64-byte blocks covering the output, and it fits a `uint32_t` |
| Pbkdf2.BlocksAt | scrypt-jane.cpp:260-271 | block i sits at bytes 64(i - 1)..64i of the concatenated blocks |
| Pbkdf2.BlocksPrefix | scrypt-jane.cpp:260-271 | the first m blocks are a prefix of the first n blocks |
| Pbkdf2.DerivePrefix | scrypt-jane.cpp:268 | a shorter output is a prefix of a longer one for the same password and salt |
| Pbkdf2.DeriveByte | scrypt-jane.cpp:260-271 | output byte k is byte k mod 64 of block k / 64 + 1 |
| Pbkdf2.KeyedSalt | scrypt-jane.cpp:252-257 | `hmac_pw_salt` is the HMAC context of the password that has absorbed the salt |
| Pbkdf2.BlockCount32 | scrypt-jane.cpp:259 | the 32-bit computation of `blocks` gives the ceiling of bytes / 64 |
| Pbkdf2.NextBlock | scrypt-jane.cpp:262-266 | `ti` is T_i = PRF(salt and the big-endian i) |
| Pbkdf2.LastBlock | scrypt-jane.cpp:268 | every block but the last has more than 64 bytes still to write, and the last has 1 to 64 |
| Pbkdf2.CopyOut | scrypt-jane.cpp:268 | the memcpy writes the first `count` bytes of the source at `offset` and changes nothing else |
| Pbkdf2.EmitBlock | scrypt-jane.cpp:268 | after the copy, the output holds the first i blocks up to the requested length, and the rest of the array is untouched |
| Pbkdf2.StoreBlock | scrypt-jane.cpp:268-270 | the copy and the counters advance the written prefix by one block and step `out`/`bytes` by 64 in `uint64_t` arithmetic |
| Pbkdf2.Sub64 | scrypt-jane.cpp:270 | `bytes -= 64` in 64-bit unsigned arithmetic is the difference whenever it does not underflow |
| Pbkdf2.WriteBlock | scrypt-jane.cpp:261-270 | one loop iteration extends the derived prefix written to `out` from i - 1 blocks to i blocks |
| Pbkdf2.BlockLoop | scrypt-jane.cpp:259-271 | the block loop writes exactly the derived key into out[0..bytes] and leaves the rest of the array as it was |
| Pbkdf2.Pbkdf2One | scrypt-jane.cpp:242-272 | `scrypt_pbkdf2_1` writes PBKDF2-HMAC-Keccak-512 with one iteration into out[0..bytes] and nothing after it |
| Pbkdf2.JaneHash | scrypt-jane.cpp:832-858 | the scrypt-jane hash has the requested length |
| Pbkdf2.MixPrefixAt | scrypt-jane.cpp:848-849 | chunk i of the mixed buffer is ROMix of chunk i of the original |
| Pbkdf2.MixChunk | scrypt-jane.cpp:849 | one `scrypt_ROMix_1` call mixes chunk i in place and leaves the later chunks untouched |
| Pbkdf2.ScryptJaneHash | scrypt-jane.cpp:832-858 | `scrypt_jane_hash_1_1` writes PBKDF2(password, ROMix of each chunk of PBKDF2(password, salt)) into out[0..bytes] and nothing after it |
| NFactor.Lookup | scrypt-jane.cpp:349-400 | the chain of `else if` selects the first row matched by code (`strcmp`) or by name (`strcasecmp`), and none exactly when no row matches |
| NFactor.Nfactor | scrypt-jane.cpp:338-430 | the factor fits the `unsigned char` result |
| NFactor.Halve | scrypt-jane.cpp:411-415 | the halving loop ends with `l` the number of halvings and `s` the top of the value |
| NFactor.ScheduledNfactor | scrypt-jane.cpp:408-429 | the body after the profile step returns the schedule's factor for the timestamp |
| NFactor.GetNfactor | scrypt-jane.cpp:338-430 | `GetNfactor` returns the schedule's factor under the profile the option string selects |
| NFactor.LeadingBits | scrypt-jane.cpp:411-417 | the loop keeps the three leading bits: for s >= 4, s lies in [top * 2^l, (top + 1) * 2^l) with top in [4, 8) |
| NFactor.LevelBound | scrypt-jane.cpp:411-419 | for any 32-bit elapsed time the sum is at most 5005 and the level at most 26 |
| NFactor.EarlyLevel | scrypt-jane.cpp:411-421 | less than 65536 seconds after the start the sum is below 2320 and the level is 0; after that the sum is at least 2320 |
| NFactor.LevelMonotone | scrypt-jane.cpp:411-421 | the level never decreases as the elapsed time grows |
| NFactor.ClampMonotone | scrypt-jane.cpp:426-429 | clamping to [minN, maxN] keeps the order and the bounds |
| NFactor.NfactorRange | scrypt-jane.cpp:401-429 | a bare number is returned unbounded, at or before the start the factor is minN, and otherwise it is in [minN, maxN] |
| NFactor.NfactorMonotone | scrypt-jane.cpp:408-429 | for a schedule with minN <= maxN < 256, the factor never decreases over time |
| NFactor.CoinBounds | scrypt-jane.cpp:349-400 | every row of the coin table has minN at most 12 and minN <= maxN |
| NFactor.ResolveFromTable | scrypt-jane.cpp:344-400 | the defaults and every name give a clamped schedule with minN <= 12 and minN <= maxN |
| NFactor.TableFactorsAtMost26 | scrypt-jane.cpp:344-429 | for every 32-bit timestamp, the defaults and every name give a factor of at most 26, below `scrypt_maxN` |
| NFactor.SmallMinNFactor | scrypt-jane.cpp:408-429 | a clamped schedule with minN <= 12 gives at most 26 for any 32-bit timestamp |
| NFactor.NameCaseRules | scrypt-jane.cpp:362-364 | "freecoin" selects FreeCoin through `strcasecmp`, while "fec" matches neither the case-sensitive code nor the name and falls back to Yacoin |
| NFactor.NfactorAsWritten | scrypt-jane.cpp:408-429 | the factor computed in `unsigned long` arithmetic fits the `unsigned char` result |
| NFactor.WrappedLevelOn64 | scrypt-jane.cpp:418-421 | with a 64-bit `unsigned long`, the wrapped quotient converts to a negative `int` when the sum is below 2320, so the unsigned and the signed readings agree for every reachable sum |
| NFactor.LevelAsWrittenOn64BitLong | scrypt-jane.cpp:411-421 | with a 64-bit `unsigned long`, the level as written equals the intended level for every 32-bit elapsed time |
| NFactor.NfactorAsWrittenOn64BitLong | scrypt-jane.cpp:408-429 | with a 64-bit `unsigned long`, `GetNfactor` as written returns the intended factor for every 32-bit timestamp |
| NFactor.WrappedLevelOn32 | scrypt-jane.cpp:418-421 | with a 32-bit `unsigned long`, a sum below 2320 wraps to a positive level of at least 42949649 |
| NFactor.NfactorAsWrittenOn32BitLong | scrypt-jane.cpp:408-429 | with a 32-bit `unsigned long`, in the first 65536 seconds after the start the source returns maxN where minN is intended |
| NFactor.YacoinOneSecondIn | scrypt-jane.cpp:344-347 | Yacoin's defaults one second after the start give 30 as written on a 32-bit `unsigned long`, where 4 is intended |
| Search.LaneHeader | scrypt-jane.cpp:774-776 | a lane's header is the work's words byte-swapped, with the last word the byte-swapped nonce |
| Search.CpuHash | scrypt-jane.cpp:778-780 | the CPU hash of a candidate is 32 bytes |
| Search.SlotsAlternate | scrypt-jane.cpp:637-638 | after any number of iterations `cur` is the iteration's parity and `nxt` the other slot |
| Search.FlipSwaps | scrypt-jane.cpp:815-816 | `(x + 1) & 1` exchanges the two slots |
| Search.FirstAccepted | scrypt-jane.cpp:767-813 | the first lane from i on whose nonce passes the gate lies in [i, count), is accepted, and every lane before it from i is rejected; there is none exactly when every lane of [i, count) is rejected |
| Search.NoneAcceptedConcat | scrypt-jane.cpp:647-650 | a nonces from base followed by c nonces from where they end are the a + c nonces from base, so the rejections of consecutive slots combine |
| Search.NonceAtAdd | scrypt-jane.cpp:647-650 | handing out a nonces by `n++` and then c more is handing out a + c, in 32-bit arithmetic |
| Search.ElapsedCounts | scrypt-jane.cpp:825 | `n - pdata[nonce word]` after m increments of n from the work's nonce is m mod 2^32, whatever that nonce is |
| Search.RunFrom | scrypt-jane.cpp:640-818 | a run of the do-while from an iteration begins at least that iteration and ends no later than the iteration at which the restart flag is raised |
| Search.RunFromStep | scrypt-jane.cpp:815-818 | an iteration whose synchronisations succeed, whose scan finds nothing and after which the loop condition holds leaves the run to the next iteration, which starts one slot further on with the old n as the first nonce of slot `cur` |
| Search.RunFromCounts | scrypt-jane.cpp:640-818 | n ends one slot of `throughput` nonces past the work's nonce per iteration begun, the nonce written back is n unless a lane passed, and the loop condition held after every iteration but the last |
| Search.SlotRejected | scrypt-jane.cpp:767-813 | a scan that finds nothing extends the rejected prefix of nonces by the slot it scanned |
| Search.WinnerFirst | scrypt-jane.cpp:767-803 | the winner of a scan, after a rejected prefix, is the first accepted nonce from the work's nonce on and lies in the scanned slot |
| Search.RunFromFound | scrypt-jane.cpp:767-803 | a winner is accepted, is the first accepted nonce from the work's nonce on, and lies in the slot launched at the next-to-last iteration begun, the one the last iteration scanned |
| Search.RunFromExhausted | scrypt-jane.cpp:818-826 | a run that ends on the loop condition has rejected every nonce handed out except those of the last slot launched, which is never scanned |
| Search.RunFromStops | scrypt-jane.cpp:818 | a run that ends on the loop condition ends because n passed `max_nonce` or the restart flag was up after its last iteration |
| Search.RunFromFailed | scrypt-jane.cpp:668-764 | a run that ends on a failed synchronisation (the host-side one at 668-670, or either device-side one at 735-737 and 762-764) found nothing, has rejected every nonce but those of the last two slots launched, and some synchronisation did fail |
| Search.RunEnds | scrypt-jane.cpp:640-828 | a whole run from the work's nonce begins at least one iteration; n ends `its * throughput` nonces past the work's nonce, so `hashes_done` is `its * throughput` mod 2^32 on both exits; the loop condition held after every iteration but the last; and the winner, exhaustion and failure facts above hold of the run |
| Search.Buffers | scrypt-jane.cpp:603-623 | two slots of `throughput` lanes each (603-604), where every lane starts with the work's header words byte-swapped up to the nonce word (619-623) |
| Search.FillLanes | scrypt-jane.cpp:647-650 | lane i of slot `nxt` gets nonce n + i byte-swapped, `n` ends `throughput` further on, and nothing else changes |
| Search.HashLanes | scrypt-jane.cpp:672-676 | every lane of a slot gets the device digest of the lane's header, and the other slot is unchanged |
| Search.HostStep | scrypt-jane.cpp:643-705 | the host branch fills slot `nxt` with the next nonces; after a successful synchronisation, slot `cur` holds the digests of its lanes |
| Search.DeviceStep | scrypt-jane.cpp:706-765 | the device branch succeeds exactly when both synchronisations succeed, and then slot `nxt` holds the digests of the next nonces |
| Search.Launch | scrypt-jane.cpp:641-765 | one launch records `nonce[nxt] = n` and advances `n` by `throughput`; it succeeds exactly when its one (host side) or two (device side) synchronisations succeed, and counts them; when it succeeds, slot `cur` holds its lanes' digests and slot `nxt` is prepared for the next iteration |
| Search.CpuCheck | scrypt-jane.cpp:771-780 | the CPU recomputation is the scrypt-jane hash of the candidate's header |
| Search.TestLane | scrypt-jane.cpp:769-790 | the gate for one lane succeeds exactly when its nonce is accepted |
| Search.ScanLanes | scrypt-jane.cpp:767-813 | the scan returns the nonce of the first lane, in lane order, that passes the gate, and reports none exactly when no nonce of the slot is accepted |
| Search.Iterate | scrypt-jane.cpp:640-813 | one iteration launches slot `nxt`; from the second iteration on, when the launch succeeds, it reports a hit exactly when slot `cur` has an accepted lane, and the winner is the first such lane's nonce; otherwise slot `nxt` is left prepared |
| Search.SearchLoop | scrypt-jane.cpp:637-826 | the do-while ends as the run of the loop from the work's nonce does: the same found flag, the winner or n as the nonce to write back, and `hashes_done` equal to n minus the work's nonce; a winner is accepted |
| Search.ScanHash | scrypt-jane.cpp:459-829 | `scanhash_scrypt_jane` fails fatally exactly when the N-factor exceeds 30 and returns -1 exactly when there is no throughput. It changes only the nonce word, and that only when it gets past both checks. Otherwise its outcome, the nonce it writes back and `hashes_done` are those of the run from the work's nonce under N = 2^(Nfactor + 1), so RunEnds applies: a written winner is accepted and the first accepted nonce, and `hashes_done` counts every nonce handed out |

## Left out

- The CUDA device is a parameter, `gpu`. This covers buffers, transfers,
  kernels, `prepare_keccak512`/`pre_keccak512`/`post_keccak512` and the
  serialise/core/done calls. The model takes the device's digest for a
  lane to be that function of the lane's header, in both the `parallel < 2`
  branch and the all-device branch.
- The host half of the `parallel < 2` branch is folded into `gpu`. That
  half runs PBKDF2 on the host before the device's ROMix and PBKDF2 after
  it. The model keeps only where its digests land.
- Device synchronisation results (`cuda_scrypt_sync`) are the oracle
  `syncOk`, asked once per synchronisation.
- `fulltest` is an uninterpreted predicate.
- `work_set_target_ratio` and the timing calls (`gettimeofday`) are left
  out.
- ROMix (`scrypt_ROMix_1`) is not part of this model. It is a function
  parameter that keeps the length of its chunk (`IsMix`).
- Only the build with r = 1 and p = 1 is modelled, with 128-byte chunks.
  `scrypt_jane_hash_1_1` is modelled for any p.
- The option string's parsing is abstracted into the `Profile` datatype,
  including the `sscanf` calls, partial matches and overflowing numbers.
- A name that no row matches and that is not a number falls back to
  Yacoin, as the source does. The log message it prints is left out.
- Logging and the debug prints are left out. These include the `n > 255`
  warning of `GetNfactor` and every `applog`/`gpulog` of
  `scanhash_scrypt_jane`.
- `bswap_64x16` is not used by the modelled code.
- The `s_Nfactor`/`opt_nfactor` bookkeeping is left out, along with the
  doubling of `device_lookup_gap` on an N-factor increase.
- Device initialisation (`init[]`, `cuda_throughput`) and
  `free_scrypt_jane` are left out. `throughput` is a parameter below 2^31.
- Memory allocation and release, and the aligned allocator, are left out.
- `scrypt_fatal_error`: the default handler ends the process
  (scrypt-jane.cpp:276-279). The model returns the `Fatal` outcome with the
  work unchanged. A handler installed through
  `scrypt_set_fatal_error_default` that returns is not modelled. With it
  the source would go on to `1 << (Nfactor + 1)` with Nfactor above 30.
- `scryptjane_hash` is left out: it is the CPU wrapper around
  `scrypt_jane_hash_1_1` with 80-byte inputs. The search's own CPU check is
  modelled as `Search.CpuHash` and `Search.CpuCheck`.
- `N = 1 << (Nfactor + 1)` is written as `Pow2(Nfactor + 1)`. At
  `Nfactor == 30`, which `scrypt_maxN` lets through, the shift is `1 << 31`
  on a 32-bit `int`. That does not fit: on the usual targets it gives
  INT_MIN, which the assignment to the `uint32_t N` turns into 2^31. The
  model uses 2^31, the value `N` receives, and does not model the signed
  overflow in between. The 32-bit `unsigned long` reading of `GetNfactor`
  (see Findings) returns 30 for Yacoin, so this case is reachable.
- Search.ScanHash: requires the cancellation flag to be raised at some
  iteration. The source loop need not end otherwise, and the model has no
  way to express that.
- Search.ScanHash: the CPU hash is stated through a ghost function `cpu`
  equal to `CpuHash` (`IsCpuHash`), so that the proofs see it only where it
  is computed.
- Pbkdf2.Pbkdf2One: `bytes` is required to be at most 0xffffffff - 63. This
  is the bound the source states for its callers, and the model does not
  follow what a larger value would do.
- Pbkdf2.BlockLoop: the PRF is stated through a ghost function equal to
  HMAC under the password (`IsMacOf`), for the same reason.
- The host is taken to be little-endian. `WordsLE` gives the byte image
  of a `uint32_t` array on such a host. It stands for the
  `(unsigned char *)tdata` casts (scrypt-jane.cpp:778, 780) and for the
  32-byte `memcmp` (scrypt-jane.cpp:788). A big-endian host is not modelled.
- Keccak.KeccakBlock: the 64-bit lane type is unbounded integers
  restricted to [0, 2^64). The bitwise operations are defined arithmetically
  and proved bit by bit rather than taken as machine operations.
- The restart flag is written by another thread. The model reads it as
  `restart(k)`, the value the loop condition sees after iteration k. The
  do-while runs its body once before it reads the flag, so even an
  immediate restart hands out `throughput` nonces and reports them in
  `hashes_done`.
- Keccak.IotaInPlace: the round constants are the source's table
  `keccak_round_constants`. They are not derived from the `rc(t)` function
  of Algorithm 5 of FIPS 202.

## Findings

| source | as written | input that shows it | evidently intended | confidence | as-written member | corrected member |
|---|---|---|---|---|---|---|
| scrypt-jane.cpp:411-421 | `s` is `unsigned long`, so `l * 170 + s * 25 - 2320` is computed unsigned. Below 2320 it wraps, and the quotient by 100 is converted to `int`. With a 32-bit `unsigned long` (LLP64 Windows, 32-bit builds) the converted value is positive, above 42 million, so `n < 0` does not fire and the clamp returns maxN | Yacoin defaults, `nTimestamp` = 1367991201 (one second after the start): 30 as written | a negative difference gives `n = 0`, so minN = 4 is returned for the first 65536 seconds | not executed | NFactor.NfactorAsWrittenOn32BitLong, NFactor.YacoinOneSecondIn | NFactor.GetNfactor, NFactor.NfactorAsWrittenOn64BitLong |
