/** The host-side bookkeeping of `scanhash_scrypt_jane`: the choice of the
    N-factor and header size, the two slots `cur`/`nxt` that alternate
    between the device and the host, the nonces handed to each lane, the
    word-7 pre-filter followed by `fulltest` and a CPU recomputation of the
    candidate's hash, and the `hashes_done` count with the nonce written
    back into the work.

    The device is not modelled: the digest it returns for a lane is the
    oracle `gpu` applied to the lane's header, and whether a device
    synchronisation succeeds is the oracle `syncOk`, asked once per
    synchronisation. The cancellation flag read at the bottom of every
    iteration is the oracle `restart`, `fulltest` is an uninterpreted
    predicate, and ROMix is the abstract `romix` of the key derivation. */
module Search {
  import opened Bytes
  import opened NFactor
  import opened Pbkdf2

  /** scrypt_maxN */
  const ScryptMaxN: nat := 30
  /** The factor of block versions 7 and later, fixed since the hard fork. */
  const ForkNfactor: nat := 21
  /** Words of a device digest. */
  const DigestWords: nat := 8

  /** The outcome of a call: the process stops on `scrypt_fatal_error`, the
      call returns -1 without a device, 1 with a solution, 0 otherwise. */
  datatype Outcome = Fatal | NoThroughput | Found | Exhausted

  /** `block_header_size / 4`: 20 words before version 7, 21 after. */
  function HeaderWords(blockVersion: int): nat
  {
    if blockVersion < 7 then 20 else 21
  }

  /** The N-factor of a block: from the schedule and the byte-swapped
      timestamp word 17 before version 7, 21 from then on. */
  function BlockNfactor(blockVersion: int, profile: Profile, timeWord: word): nat
  {
    if blockVersion < 7 then Nfactor(Bswap32(timeWord) as nat, Resolve(profile)) else ForkNfactor
  }

  /** The header of the lane with the given nonce: the work's header words
      byte-swapped, with the last one replaced by the swapped nonce. */
  function LaneHeader(pdata: seq<word>, hw: nat, nonce: word): (h: seq<word>)
    requires 1 <= hw <= |pdata|
    ensures |h| == hw && h[hw - 1] == Bswap32(nonce)
    ensures forall z :: 0 <= z < hw - 1 ==> h[z] == Bswap32(pdata[z])
  {
    seq(hw - 1, z requires 0 <= z < hw - 1 => Bswap32(pdata[z])) + [Bswap32(nonce)]
  }

  /** A device digest: eight words for every header. */
  ghost predicate IsDigester(gpu: seq<word> -> seq<word>)
  {
    forall h :: |gpu(h)| == DigestWords
  }

  /** The CPU's hash of a header, as its 32 bytes: PBKDF2 of the header
      with itself as salt to 128 bytes, ROMix, then PBKDF2 of the header
      with that as salt to 32 bytes. */
  function CpuHash(header: seq<word>, romix: (seq<byte>, nat) -> seq<byte>, n: nat): (d: seq<byte>)
    requires IsMix(romix)
    ensures |d| == 32
  {
    JaneHash(WordsLE(header), WordsLE(header), romix, n, 1, 32)
  }

  /** cpu is the CPU hash as a function value: cpu(h, n) is CpuHash(h,
      romix, n) for every header and N. The search is stated over such a
      function, so that its proofs see the CPU hash only where it is
      computed. */
  ghost predicate IsCpuHash(cpu: (seq<word>, nat) -> seq<byte>, romix: (seq<byte>, nat) -> seq<byte>)
  {
    IsMix(romix) &&
    forall h: seq<word>, n: nat {:trigger CpuHash(h, romix, n)} :: cpu(h, n) == CpuHash(h, romix, n)
  }

  /** The acceptance gate for a digest: word 7 at most the target's word 7,
      `fulltest`, and the CPU hash equal byte for byte. */
  predicate Accepts(d: seq<word>, target: seq<word>, fulltest: (seq<word>, seq<word>) -> bool,
                    cpu: seq<byte>)
    requires |d| == DigestWords && |target| == DigestWords
  {
    d[7] <= target[7] && fulltest(d, target) && cpu == WordsLE(d)
  }

  /** What the gate of a lane depends on: the work's header words and the
      header size, the target, the device digest, `fulltest`, the CPU hash
      and N. */
  datatype Gate = Gate(pdata: seq<word>, hw: nat, target: seq<word>, gpu: seq<word> -> seq<word>,
                       fulltest: (seq<word>, seq<word>) -> bool, cpu: (seq<word>, nat) -> seq<byte>,
                       bigN: nat)

  /** A gate over a header of at least hw words, an eight-word target and
      a device digest. */
  ghost predicate GateOk(g: Gate)
  {
    1 <= g.hw <= |g.pdata| && |g.target| == DigestWords && IsDigester(g.gpu)
  }

  /** The gate, applied to the lane with the given nonce. */
  ghost predicate NonceAccepted(g: Gate, nonce: word)
    requires GateOk(g)
  {
    var h := LaneHeader(g.pdata, g.hw, nonce);
    Accepts(g.gpu(h), g.target, g.fulltest, g.cpu(h, g.bigN))
  }

  /** None of the count nonces from base on passes the gate. */
  ghost predicate NoneAccepted(g: Gate, base: word, count: nat)
    requires GateOk(g)
  {
    forall j {:trigger NonceAccepted(g, NonceAt(base, j))} :: 0 <= j < count ==> !NonceAccepted(g, NonceAt(base, j))
  }

  /** The first lane, from lane i on, of a slot of count lanes whose first
      nonce is base, whose nonce passes the gate: lanes are tried in order
      and the first that passes wins. */
  ghost function FirstAccepted(g: Gate, base: word, i: nat, count: nat): (r: Option<nat>)
    requires GateOk(g)
    decreases count - i
    ensures r.Some? ==> i <= r.value < count && NonceAccepted(g, NonceAt(base, r.value))
    ensures r.Some? ==> forall j {:trigger NonceAccepted(g, NonceAt(base, j))} :: i <= j < r.value ==> !NonceAccepted(g, NonceAt(base, j))
    ensures r.None? ==> forall j {:trigger NonceAccepted(g, NonceAt(base, j))} :: i <= j < count ==> !NonceAccepted(g, NonceAt(base, j))
  {
    if i >= count then None
    else if NonceAccepted(g, NonceAt(base, i)) then Some(i)
    else FirstAccepted(g, base, i + 1, count)
  }

  /** The lanes of two consecutive slots are the lanes of one: a nonces
      from base, then c nonces from where those end, make a + c nonces from
      base. */
  lemma NoneAcceptedConcat(g: Gate, base: word, a: nat, c: nat)
    requires GateOk(g) && NoneAccepted(g, base, a) && NoneAccepted(g, NonceAt(base, a), c)
    ensures NoneAccepted(g, base, a + c)
  {
    forall j | 0 <= j < a + c
      ensures !NonceAccepted(g, NonceAt(base, j))
    {
      if j >= a {
        NonceAtAdd(base, a, j - a);
      }
    }
  }

  /** Lane i of slot k of a buffer holds the words w. */
  ghost predicate LaneIs(a: array3<word>, k: nat, i: nat, w: seq<word>)
    reads a
    requires k < a.Length0 && i < a.Length1 && |w| == a.Length2
  {
    forall z :: 0 <= z < a.Length2 ==> a[k, i, z] == w[z]
  }

  /** The words of lane i of slot k. */
  function Lane(a: array3<word>, k: nat, i: nat): (w: seq<word>)
    reads a
    requires k < a.Length0 && i < a.Length1
    ensures |w| == a.Length2
  {
    seq(a.Length2, z requires 0 <= z < a.Length2 reads a => a[k, i, z])
  }

  /** The nonce of lane i of a slot whose first lane has nonce base: base
      incremented i times in 32-bit arithmetic, as `n++` does lane by lane. */
  function NonceAt(base: word, i: nat): word
  {
    if i == 0 then base else NonceAt(base, i - 1) + 1
  }

  /** `to - from` in 32-bit arithmetic: the nonces counted from `from` up
      to `to`. */
  function Elapsed(from: word, to: word): word
  {
    to - from
  }

  /** Handing out a nonces and then c more is handing out a + c. */
  lemma {:induction false} NonceAtAdd(base: word, a: nat, c: nat)
    ensures NonceAt(NonceAt(base, a), c) == NonceAt(base, a + c)
  {
    if c > 0 {
      NonceAtAdd(base, a, c - 1);
    }
  }

  /** The nonces counted from base to base incremented m times do not
      depend on base: they are 0 incremented m times, that is m in 32-bit
      arithmetic. */
  lemma {:induction false} ElapsedCounts(base: word, m: nat)
    ensures Elapsed(base, NonceAt(base, m)) == NonceAt(0, m)
  {
    if m > 0 {
      ElapsedCounts(base, m - 1);
      var x, y := NonceAt(base, m - 1), NonceAt(0, m - 1);
      ElapsedStep(base, x, y);
      assert NonceAt(base, m) == x + 1;
      assert NonceAt(0, m) == y + 1;
    }
  }

  /** One more nonce counts one more. */
  lemma ElapsedStep(from: word, to: word, count: word)
    requires Elapsed(from, to) == count
    ensures Elapsed(from, to + 1) == count + 1
  {
  }

  /** `(x + 1) & 1` on a slot index. */
  function Flip(x: nat): nat
  {
    (x + 1) % 2
  }

  // ---------------------------------------------------------------------------
  // Properties of the slot alternation

  /** The slots alternate: starting from cur = 0, nxt = 1, after any number
      of flips the two are 0 and 1 in some order and cur is the parity of
      the iteration count. */
  lemma {:induction false} SlotsAlternate(iteration: nat)
    ensures Slot(iteration, 0) == iteration % 2
    ensures Slot(iteration, 1) == 1 - iteration % 2
  {
    if iteration > 0 {
      SlotsAlternate(iteration - 1);
    }
  }

  /** One flip of both slots exchanges them and keeps cur the parity of
      the iteration count. */
  lemma FlipSwaps(cur: nat, iteration: nat)
    requires cur == iteration % 2
    ensures Flip(cur) == 1 - cur && Flip(1 - cur) == cur
    ensures Flip(cur) == (iteration + 1) % 2
  {
  }

  /** A slot index after the given number of flips. */
  function Slot(iteration: nat, start: nat): nat
  {
    if iteration == 0 then start else Flip(Slot(iteration - 1, start))
  }

  // ---------------------------------------------------------------------------
  // The do-while as a function of its oracles

  /** The do-while's condition: n is at most max_nonce and the thread's
      restart flag, whose value is `restarted`, is down. */
  predicate LoopGoesOn(n: word, maxNonce: word, restarted: bool)
  {
    n <= maxNonce && !restarted
  }

  /** Whether the synchronisations of one iteration succeed, the first of
      them being number `calls`: one on the host side (after the copy back
      of slot `nxt`), two on the device side (after the core and after the
      copy back). */
  predicate SyncsOk(parallel: int, syncOk: nat -> bool, calls: nat)
  {
    if parallel < 2 then syncOk(calls) else syncOk(calls) && syncOk(calls + 1)
  }

  /** The synchronisations asked once an iteration has run to its end. */
  function NextCalls(parallel: int, calls: nat): nat
  {
    if parallel < 2 then calls + 1 else calls + 2
  }

  /** The scan at the given iteration of slot `cur`, whose first nonce is
      base: nothing at the first iteration, whose slot `cur` was never
      launched, and the first lane that passes the gate after it. */
  ghost function Scan(g: Gate, base: word, throughput: nat, iteration: nat): Option<nat>
    requires GateOk(g)
  {
    if iteration > 0 then FirstAccepted(g, base, 0, throughput) else None
  }

  /** How a run of the do-while ends: whether a lane passed the gate,
      whether the run stopped on a failed synchronisation, the nonce written
      back into the work (the winner, or n), n itself, and the number of
      iterations begun. */
  datatype Ending = Ending(found: bool, failed: bool, last: word, n: word, its: nat)

  /** Whether the iteration from the given state goes round again: its
      synchronisations succeed, its scan finds nothing and the loop
      condition holds after it. */
  ghost predicate GoesOn(g: Gate, throughput: nat, maxNonce: word, parallel: int, syncOk: nat -> bool,
                         restart: nat -> bool, iteration: nat, n: word, base: word, calls: nat)
    requires GateOk(g)
  {
    SyncsOk(parallel, syncOk, calls) && Scan(g, base, throughput, iteration).None? &&
    LoopGoesOn(NonceAt(n, throughput), maxNonce, restart(iteration + 1))
  }

  /** The last iteration of a run, the one that does not go round again:
      it fails when its synchronisations fail, finds the winner of its scan
      when there is one, and otherwise ends on the loop condition; n ends
      one slot further on. */
  ghost function LastIteration(g: Gate, throughput: nat, parallel: int, syncOk: nat -> bool,
                               iteration: nat, n: word, base: word, calls: nat): Ending
    requires GateOk(g)
  {
    var next := NonceAt(n, throughput);
    var hit := Scan(g, base, throughput, iteration);
    if !SyncsOk(parallel, syncOk, calls) then Ending(false, true, next, next, iteration + 1)
    else if hit.Some? then Ending(true, false, NonceAt(base, hit.value), next, iteration + 1)
    else Ending(false, false, next, next, iteration + 1)
  }

  /** The do-while from the top of an iteration: `iteration` iterations
      done, n the next nonce to hand out, base the first nonce of slot
      `cur` and `calls` synchronisations asked so far. An iteration hands
      out `throughput` nonces and stops when its synchronisations fail,
      then scans slot `cur` and stops on the first lane that passes the
      gate, and goes round again while the loop condition holds. The
      restart flag is raised at iteration K, which bounds the run. */
  ghost function RunFrom(g: Gate, throughput: nat, maxNonce: word, parallel: int, syncOk: nat -> bool,
                         restart: nat -> bool, K: nat, iteration: nat, n: word, base: word, calls: nat)
    : (e: Ending)
    requires GateOk(g) && iteration < K && restart(K)
    decreases K - iteration
    ensures iteration < e.its <= K
  {
    if GoesOn(g, throughput, maxNonce, parallel, syncOk, restart, iteration, n, base, calls) then
      RunFrom(g, throughput, maxNonce, parallel, syncOk, restart, K, iteration + 1, NonceAt(n, throughput), n,
              NextCalls(parallel, calls))
    else
      LastIteration(g, throughput, parallel, syncOk, iteration, n, base, calls)
  }

  /** An iteration at which the restart flag is raised. */
  ghost function SomeRestart(restart: nat -> bool): (k: nat)
    requires exists k :: k >= 1 && restart(k)
    ensures k >= 1 && restart(k)
  {
    var k :| k >= 1 && restart(k); k
  }

  /** The whole do-while, from the work's nonce start. */
  ghost function Run(g: Gate, throughput: nat, maxNonce: word, parallel: int, syncOk: nat -> bool,
                     restart: nat -> bool, start: word): Ending
    requires GateOk(g) && exists k :: k >= 1 && restart(k)
  {
    RunFrom(g, throughput, maxNonce, parallel, syncOk, restart, SomeRestart(restart), 0, start, start, 0)
  }

  /** The first iteration scans nothing, so the run does not depend on
      the first nonce given for slot `cur`. */
  lemma RunFromFirst(g: Gate, throughput: nat, maxNonce: word, parallel: int, syncOk: nat -> bool,
                     restart: nat -> bool, K: nat, n: word, base: word, base': word, calls: nat)
    requires GateOk(g) && 0 < K && restart(K)
    ensures RunFrom(g, throughput, maxNonce, parallel, syncOk, restart, K, 0, n, base, calls) ==
            RunFrom(g, throughput, maxNonce, parallel, syncOk, restart, K, 0, n, base', calls)
  {
  }

  /** An iteration that goes round again leaves the run to the next one. */
  lemma RunFromStep(g: Gate, throughput: nat, maxNonce: word, parallel: int, syncOk: nat -> bool,
                    restart: nat -> bool, K: nat, iteration: nat, n: word, base: word, calls: nat)
    requires GateOk(g) && iteration < K && restart(K)
    requires GoesOn(g, throughput, maxNonce, parallel, syncOk, restart, iteration, n, base, calls)
    ensures iteration + 1 < K
    ensures RunFrom(g, throughput, maxNonce, parallel, syncOk, restart, K, iteration, n, base, calls)
      == RunFrom(g, throughput, maxNonce, parallel, syncOk, restart, K, iteration + 1, NonceAt(n, throughput), n,
                 NextCalls(parallel, calls))
  {
    assert iteration + 1 != K;
  }

  /** The do-while's condition held at the bottom of each of the first
      `its - 1` iterations: after iteration k, n had moved k slots past
      start, was at most max_nonce, and the restart flag was down. */
  ghost predicate Continued(start: word, throughput: nat, maxNonce: word, restart: nat -> bool, its: nat)
  {
    forall k :: 1 <= k < its ==> LoopGoesOn(NonceAt(start, k * throughput), maxNonce, restart(k))
  }

  /** One more slot of `throughput` nonces. */
  lemma NextSlot(start: word, slots: nat, throughput: nat)
    ensures NonceAt(NonceAt(start, slots * throughput), throughput) == NonceAt(start, (slots + 1) * throughput)
  {
    NonceAtAdd(start, slots * throughput, throughput);
    assert slots * throughput + throughput == (slots + 1) * throughput;
  }

  /** The loop condition holding after iteration its extends Continued by
      that iteration. */
  lemma ContinuedStep(start: word, throughput: nat, maxNonce: word, restart: nat -> bool, its: nat)
    requires Continued(start, throughput, maxNonce, restart, its)
    requires LoopGoesOn(NonceAt(start, its * throughput), maxNonce, restart(its))
    ensures Continued(start, throughput, maxNonce, restart, its + 1)
  {
    forall k | 1 <= k < its + 1
      ensures LoopGoesOn(NonceAt(start, k * throughput), maxNonce, restart(k))
    {
      if k == its {
        assert NonceAt(start, k * throughput) == NonceAt(start, its * throughput);
        assert restart(k) == restart(its);
      } else {
        assert k < its;
      }
    }
  }

  /** A run counts its nonces: from an iteration whose n is `iteration`
      slots past start, n ends one slot past start per iteration begun,
      the nonce written back is n unless a lane passed, and the loop
      condition held after every iteration but the last. */
  lemma {:induction false} RunFromCounts(g: Gate, throughput: nat, maxNonce: word, parallel: int,
                                         syncOk: nat -> bool, restart: nat -> bool, K: nat,
                                         iteration: nat, n: word, base: word, calls: nat, start: word)
    requires GateOk(g) && iteration < K && restart(K)
    requires n == NonceAt(start, iteration * throughput)
    requires Continued(start, throughput, maxNonce, restart, iteration + 1)
    decreases K - iteration
    ensures var e := RunFrom(g, throughput, maxNonce, parallel, syncOk, restart, K, iteration, n, base, calls);
      e.n == NonceAt(start, e.its * throughput) && (!e.found ==> e.last == e.n) &&
      Continued(start, throughput, maxNonce, restart, e.its)
  {
    NextSlot(start, iteration, throughput);
    if GoesOn(g, throughput, maxNonce, parallel, syncOk, restart, iteration, n, base, calls) {
      RunFromStep(g, throughput, maxNonce, parallel, syncOk, restart, K, iteration, n, base, calls);
      ContinuedStep(start, throughput, maxNonce, restart, iteration + 1);
      RunFromCounts(g, throughput, maxNonce, parallel, syncOk, restart, K, iteration + 1, NonceAt(n, throughput), n,
                    NextCalls(parallel, calls), start);
    }
  }

  /** Every nonce of the first `slots` slots of `throughput` nonces from
      start has been rejected. */
  ghost predicate SlotsRejected(g: Gate, start: word, throughput: nat, slots: nat)
    requires GateOk(g)
  {
    NoneAccepted(g, start, slots * throughput)
  }

  /** After a scan that finds nothing, every nonce handed out before the
      slot that is still in flight has been rejected. */
  lemma SlotRejected(g: Gate, start: word, throughput: nat, iteration: nat, base: word)
    requires GateOk(g) && Scan(g, base, throughput, iteration).None?
    requires iteration > 0 ==> (base == NonceAt(start, (iteration - 1) * throughput) &&
      SlotsRejected(g, start, throughput, iteration - 1))
    ensures SlotsRejected(g, start, throughput, iteration)
  {
    if iteration > 0 {
      NoneAcceptedConcat(g, start, (iteration - 1) * throughput, throughput);
      assert (iteration - 1) * throughput + throughput == iteration * throughput;
    }
  }

  /** Nonce `last` is the first nonce from start on that passes the gate,
      and lies in the slot launched at iteration its - 1, the one scanned
      at iteration its. */
  ghost predicate FirstWinner(g: Gate, start: word, throughput: nat, its: nat, last: word)
    requires GateOk(g)
  {
    its >= 2 && NonceAccepted(g, last) &&
    exists j: nat :: (its - 2) * throughput <= j < (its - 1) * throughput &&
      last == NonceAt(start, j) && NoneAccepted(g, start, j)
  }

  /** The winner of the scan at iteration its - 1 is the first nonce from
      start on that passes the gate. */
  lemma WinnerFirst(g: Gate, start: word, throughput: nat, iteration: nat, base: word, i: nat)
    requires GateOk(g) && iteration > 0
    requires base == NonceAt(start, (iteration - 1) * throughput)
    requires SlotsRejected(g, start, throughput, iteration - 1)
    requires FirstAccepted(g, base, 0, throughput) == Some(i)
    ensures FirstWinner(g, start, throughput, iteration + 1, NonceAt(base, i))
  {
    var j := (iteration - 1) * throughput + i;
    NonceAtAdd(start, (iteration - 1) * throughput, i);
    NoneAcceptedConcat(g, start, (iteration - 1) * throughput, i);
    assert (iteration - 1) * throughput + throughput == iteration * throughput;
    assert j < iteration * throughput && NonceAt(base, i) == NonceAt(start, j) && NoneAccepted(g, start, j);
  }

  /** A winner is the first nonce from start on that passes the gate, and
      lies in the slot before the last one launched. */
  lemma {:induction false} RunFromFound(g: Gate, throughput: nat, maxNonce: word, parallel: int,
                                        syncOk: nat -> bool, restart: nat -> bool, K: nat,
                                        iteration: nat, n: word, base: word, calls: nat, start: word)
    requires GateOk(g) && iteration < K && restart(K)
    requires n == NonceAt(start, iteration * throughput)
    requires iteration > 0 ==> (base == NonceAt(start, (iteration - 1) * throughput) &&
      SlotsRejected(g, start, throughput, iteration - 1))
    decreases K - iteration
    ensures var e := RunFrom(g, throughput, maxNonce, parallel, syncOk, restart, K, iteration, n, base, calls);
      e.found ==> FirstWinner(g, start, throughput, e.its, e.last)
  {
    if GoesOn(g, throughput, maxNonce, parallel, syncOk, restart, iteration, n, base, calls) {
      NextSlot(start, iteration, throughput);
      SlotRejected(g, start, throughput, iteration, base);
      RunFromStep(g, throughput, maxNonce, parallel, syncOk, restart, K, iteration, n, base, calls);
      RunFromFound(g, throughput, maxNonce, parallel, syncOk, restart, K, iteration + 1, NonceAt(n, throughput), n,
                   NextCalls(parallel, calls), start);
    } else {
      var hit := Scan(g, base, throughput, iteration);
      if SyncsOk(parallel, syncOk, calls) && hit.Some? {
        WinnerFirst(g, start, throughput, iteration, base, hit.value);
      }
    }
  }

  /** A run that ends on the loop condition has rejected every nonce but
      those of the last slot launched. */
  lemma {:induction false} RunFromExhausted(g: Gate, throughput: nat, maxNonce: word, parallel: int,
                                            syncOk: nat -> bool, restart: nat -> bool, K: nat,
                                            iteration: nat, n: word, base: word, calls: nat, start: word)
    requires GateOk(g) && iteration < K && restart(K)
    requires n == NonceAt(start, iteration * throughput)
    requires iteration > 0 ==> (base == NonceAt(start, (iteration - 1) * throughput) &&
      SlotsRejected(g, start, throughput, iteration - 1))
    decreases K - iteration
    ensures var e := RunFrom(g, throughput, maxNonce, parallel, syncOk, restart, K, iteration, n, base, calls);
      !e.found && !e.failed ==> SlotsRejected(g, start, throughput, e.its - 1)
  {
    if GoesOn(g, throughput, maxNonce, parallel, syncOk, restart, iteration, n, base, calls) {
      NextSlot(start, iteration, throughput);
      SlotRejected(g, start, throughput, iteration, base);
      RunFromStep(g, throughput, maxNonce, parallel, syncOk, restart, K, iteration, n, base, calls);
      RunFromExhausted(g, throughput, maxNonce, parallel, syncOk, restart, K, iteration + 1, NonceAt(n, throughput), n,
                       NextCalls(parallel, calls), start);
    } else {
      if SyncsOk(parallel, syncOk, calls) && Scan(g, base, throughput, iteration).None? {
        SlotRejected(g, start, throughput, iteration, base);
      }
    }
  }

  /** A run that ends on the loop condition ends because n passed
      max_nonce or the restart flag was raised. */
  lemma {:induction false} RunFromStops(g: Gate, throughput: nat, maxNonce: word, parallel: int,
                                        syncOk: nat -> bool, restart: nat -> bool, K: nat,
                                        iteration: nat, n: word, base: word, calls: nat)
    requires GateOk(g) && iteration < K && restart(K)
    decreases K - iteration
    ensures var e := RunFrom(g, throughput, maxNonce, parallel, syncOk, restart, K, iteration, n, base, calls);
      !e.found && !e.failed ==> !LoopGoesOn(e.n, maxNonce, restart(e.its))
  {
    if GoesOn(g, throughput, maxNonce, parallel, syncOk, restart, iteration, n, base, calls) {
      RunFromStep(g, throughput, maxNonce, parallel, syncOk, restart, K, iteration, n, base, calls);
      RunFromStops(g, throughput, maxNonce, parallel, syncOk, restart, K, iteration + 1, NonceAt(n, throughput), n,
                   NextCalls(parallel, calls));
    } else {
      var e := RunFrom(g, throughput, maxNonce, parallel, syncOk, restart, K, iteration, n, base, calls);
      assert restart(e.its) == restart(iteration + 1);
    }
  }

  /** A run that ends on a failed synchronisation has rejected every
      nonce but those of the last two slots launched. */
  lemma {:induction false} RunFromFailed(g: Gate, throughput: nat, maxNonce: word, parallel: int,
                                         syncOk: nat -> bool, restart: nat -> bool, K: nat,
                                         iteration: nat, n: word, base: word, calls: nat, start: word)
    requires GateOk(g) && iteration < K && restart(K)
    requires n == NonceAt(start, iteration * throughput)
    requires iteration > 0 ==> (base == NonceAt(start, (iteration - 1) * throughput) &&
      SlotsRejected(g, start, throughput, iteration - 1))
    decreases K - iteration
    ensures var e := RunFrom(g, throughput, maxNonce, parallel, syncOk, restart, K, iteration, n, base, calls);
      e.failed ==> (!e.found && (e.its == 1 || SlotsRejected(g, start, throughput, e.its - 2)) &&
        exists c :: !syncOk(c))
  {
    if GoesOn(g, throughput, maxNonce, parallel, syncOk, restart, iteration, n, base, calls) {
      NextSlot(start, iteration, throughput);
      SlotRejected(g, start, throughput, iteration, base);
      RunFromStep(g, throughput, maxNonce, parallel, syncOk, restart, K, iteration, n, base, calls);
      RunFromFailed(g, throughput, maxNonce, parallel, syncOk, restart, K, iteration + 1, NonceAt(n, throughput), n,
                    NextCalls(parallel, calls), start);
    } else {
      if !SyncsOk(parallel, syncOk, calls) {
        var c := if syncOk(calls) then calls + 1 else calls;
        assert !syncOk(c);
      }
    }
  }

  /** What a whole run from the work's nonce start promises: n ends
      `throughput` nonces on per iteration begun, so `hashes_done` counts
      every nonce handed out (in 32-bit arithmetic) whether or not its lane
      was scanned; the loop condition held after every iteration but the
      last; and what RunFromFound, RunFromExhausted, RunFromStops and
      RunFromFailed say of the lanes scanned and of the exit. */
  lemma RunEnds(g: Gate, throughput: nat, maxNonce: word, parallel: int, syncOk: nat -> bool,
                restart: nat -> bool, start: word)
    requires GateOk(g) && exists k :: k >= 1 && restart(k)
    ensures var e := Run(g, throughput, maxNonce, parallel, syncOk, restart, start);
      e.its >= 1 && e.n == NonceAt(start, e.its * throughput) && (!e.found ==> e.last == e.n) &&
      Elapsed(start, e.n) == NonceAt(0, e.its * throughput) &&
      Continued(start, throughput, maxNonce, restart, e.its)
    ensures var e := Run(g, throughput, maxNonce, parallel, syncOk, restart, start);
      e.found ==> FirstWinner(g, start, throughput, e.its, e.last)
    ensures var e := Run(g, throughput, maxNonce, parallel, syncOk, restart, start);
      !e.found && !e.failed ==>
        SlotsRejected(g, start, throughput, e.its - 1) && !LoopGoesOn(e.n, maxNonce, restart(e.its))
    ensures var e := Run(g, throughput, maxNonce, parallel, syncOk, restart, start);
      e.failed ==> (!e.found && (e.its == 1 || SlotsRejected(g, start, throughput, e.its - 2)) &&
        exists c :: !syncOk(c))
  {
    var K := SomeRestart(restart);
    var e := Run(g, throughput, maxNonce, parallel, syncOk, restart, start);
    RunFromCounts(g, throughput, maxNonce, parallel, syncOk, restart, K, 0, start, start, 0, start);
    RunFromFound(g, throughput, maxNonce, parallel, syncOk, restart, K, 0, start, start, 0, start);
    RunFromExhausted(g, throughput, maxNonce, parallel, syncOk, restart, K, 0, start, start, 0, start);
    RunFromStops(g, throughput, maxNonce, parallel, syncOk, restart, K, 0, start, start, 0);
    RunFromFailed(g, throughput, maxNonce, parallel, syncOk, restart, K, 0, start, start, 0, start);
    ElapsedCounts(start, e.its * throughput);
  }

  // ---------------------------------------------------------------------------
  // scanhash_scrypt_jane

  /** One call of `scanhash_scrypt_jane` on the work's header words `pdata`
      and target. `hashesDone` is `*hashes_done`; the nonce word of `pdata`
      is written back. When the search runs, it does what Run says of the
      do-while from the work's nonce. */
  method ScanHash(pdata: array<word>, target: seq<word>, maxNonce: word, blockVersion: int,
                  profile: Profile, throughput: nat, parallel: int,
                  gpu: seq<word> -> seq<word>, fulltest: (seq<word>, seq<word>) -> bool,
                  romix: (seq<byte>, nat) -> seq<byte>, ghost cpu: (seq<word>, nat) -> seq<byte>,
                  syncOk: nat -> bool, restart: nat -> bool)
    returns (outcome: Outcome, hashesDone: word)
    requires pdata.Length >= 21 && |target| == DigestWords && throughput < 0x8000_0000
    requires IsDigester(gpu) && IsCpuHash(cpu, romix)
    requires exists k :: k >= 1 && restart(k)
    modifies pdata
    ensures var nf := BlockNfactor(blockVersion, profile, old(pdata[17]));
      outcome == Fatal <==> nf > ScryptMaxN
    ensures outcome == NoThroughput <==>
      BlockNfactor(blockVersion, profile, old(pdata[17])) <= ScryptMaxN && throughput == 0
    ensures var hw := HeaderWords(blockVersion);
      forall z :: 0 <= z < pdata.Length && z != hw - 1 ==> pdata[z] == old(pdata[z])
    ensures outcome in {Fatal, NoThroughput} ==> pdata[..] == old(pdata[..])
    ensures var hw := HeaderWords(blockVersion);
      outcome == Exhausted ==> hashesDone == Elapsed(old(pdata[hw - 1]), pdata[hw - 1])
    ensures var hw := HeaderWords(blockVersion);
      var nf := BlockNfactor(blockVersion, profile, old(pdata[17]));
      outcome == Found ==> (nf <= ScryptMaxN &&
        NonceAccepted(Gate(old(pdata[..]), hw, target, gpu, fulltest, cpu, Pow2(nf + 1)), pdata[hw - 1]))
    ensures var hw := HeaderWords(blockVersion);
      var nf := BlockNfactor(blockVersion, profile, old(pdata[17]));
      outcome in {Found, Exhausted} ==>
        var e := Run(Gate(old(pdata[..]), hw, target, gpu, fulltest, cpu, Pow2(nf + 1)), throughput, maxNonce,
                     parallel, syncOk, restart, old(pdata[hw - 1]));
        (outcome == Found <==> e.found) && pdata[hw - 1] == e.last &&
        hashesDone == Elapsed(old(pdata[hw - 1]), e.n)
  {
    var hw := HeaderWords(blockVersion);
    var nfactor := ForkNfactor;
    if blockVersion < 7 {
      nfactor := GetNfactor(Bswap32(pdata[17]) as nat, profile);
    }
    if nfactor > ScryptMaxN {
      return Fatal, 0;
    }
    var bigN := Pow2(nfactor + 1);
    if throughput == 0 {
      return NoThroughput, 0;
    }
    var found, last;
    found, last, hashesDone :=
      SearchLoop(pdata, hw, bigN, target, maxNonce, throughput, parallel, gpu, fulltest, romix, cpu, syncOk, restart);
    RunEnds(Gate(pdata[..], hw, target, gpu, fulltest, cpu, bigN), throughput, maxNonce, parallel, syncOk, restart,
            pdata[hw - 1]);
    pdata[hw - 1] := last;
    outcome := if found then Found else Exhausted;
  }

  /** The do-while loop of `scanhash_scrypt_jane` with its buffers: each
      iteration hands the next `throughput` nonces to slot `nxt` and scans
      the digests of slot `cur`, which the previous iteration launched. It
      ends as Run says; `hashesDone` counts from the work's nonce to n. */
  method SearchLoop(pdata: array<word>, hw: nat, bigN: nat, target: seq<word>, maxNonce: word,
                    throughput: nat, parallel: int,
                    gpu: seq<word> -> seq<word>, fulltest: (seq<word>, seq<word>) -> bool,
                    romix: (seq<byte>, nat) -> seq<byte>, ghost cpu: (seq<word>, nat) -> seq<byte>,
                    syncOk: nat -> bool, restart: nat -> bool)
    returns (found: bool, last: word, hashesDone: word)
    requires 1 <= hw <= pdata.Length && |target| == DigestWords && 0 < throughput < 0x8000_0000
    requires IsDigester(gpu) && IsCpuHash(cpu, romix)
    requires exists k :: k >= 1 && restart(k)
    ensures var e := Run(Gate(pdata[..], hw, target, gpu, fulltest, cpu, bigN), throughput, maxNonce, parallel,
                         syncOk, restart, pdata[hw - 1]);
      found == e.found && last == e.last && hashesDone == Elapsed(pdata[hw - 1], e.n)
    ensures found ==> NonceAccepted(Gate(pdata[..], hw, target, gpu, fulltest, cpu, bigN), last)
  {
    var start := pdata[hw - 1];
    ghost var g := Gate(pdata[..], hw, target, gpu, fulltest, cpu, bigN);
    ghost var K := SomeRestart(restart);
    ghost var e := Run(g, throughput, maxNonce, parallel, syncOk, restart, start);
    var data, hash := Buffers(pdata, hw, throughput);
    var nonce := new word[2];
    var n := start;
    var cur: nat, nxt: nat := 0, 1;
    var iteration := 0;
    var calls := 0;
    RunFromFirst(g, throughput, maxNonce, parallel, syncOk, restart, K, n, start, nonce[cur], calls);
    while true
      invariant cur == iteration % 2 && nxt == 1 - cur
      invariant iteration < K
      invariant HeaderPrefix(data, pdata, hw)
      invariant iteration > 0 ==> Prepared(data, hash, cur, nonce[cur], pdata, hw, parallel, gpu)
      invariant RunFrom(g, throughput, maxNonce, parallel, syncOk, restart, K, iteration, n, nonce[cur], calls) == e
      decreases K - iteration
    {
      var ok, hit, winner;
      n, ok, hit, winner, calls := Iteration(data, hash, nonce, cur, n, pdata, hw, bigN, target, parallel,
                                             gpu, fulltest, romix, cpu, syncOk, calls,
                                             maxNonce, restart, iteration, g, K);
      if !ok {
        break;
      }
      if hit {
        hashesDone := Elapsed(start, n);
        return true, winner, hashesDone;
      }
      FlipSwaps(cur, iteration);
      cur := Flip(cur);
      nxt := Flip(nxt);
      // `++iteration` and the loop condition, whose restart flag is read
      // once the iteration has been counted
      var goesOn := LoopGoesOn(n, maxNonce, restart(iteration + 1));
      iteration := iteration + 1;
      if !goesOn {
        break;
      }
    }
    hashesDone := Elapsed(start, n);
    found, last := false, n;
  }

  /** One iteration up to the slot flip, and where it leaves the run that
      began with iteration 0: a failed synchronisation, a hit, or a loop
      condition that fails after it ends the run with this iteration;
      otherwise the run goes on from the next iteration, whose slot `cur`
      is prepared and starts at n. */
  method Iteration(data: array3<word>, hash: array3<word>, nonce: array<word>, cur: nat, n: word,
                   pdata: array<word>, hw: nat, bigN: nat, target: seq<word>, parallel: int,
                   gpu: seq<word> -> seq<word>, fulltest: (seq<word>, seq<word>) -> bool,
                   romix: (seq<byte>, nat) -> seq<byte>, ghost cpu: (seq<word>, nat) -> seq<byte>,
                   syncOk: nat -> bool, calls: nat, ghost maxNonce: word, ghost restart: nat -> bool,
                   iteration: nat, ghost g: Gate, ghost K: nat)
    returns (next: word, ok: bool, hit: bool, winner: word, calls': nat)
    requires IsDigester(gpu) && IsCpuHash(cpu, romix) && |target| == DigestWords
    requires g == Gate(pdata[..], hw, target, gpu, fulltest, cpu, bigN)
    requires 1 <= hw <= pdata.Length && nonce.Length == 2
    requires data.Length0 == 2 && data.Length2 == hw && data.Length1 < 0x8000_0000
    requires hash.Length0 == 2 && hash.Length1 == data.Length1 && hash.Length2 == DigestWords
    requires cur < 2 && data != hash && nonce != pdata
    requires HeaderPrefix(data, pdata, hw)
    requires iteration > 0 ==> Prepared(data, hash, cur, nonce[cur], pdata, hw, parallel, gpu)
    requires iteration < K && restart(K)
    modifies data, hash, nonce
    ensures nonce[Flip(cur)] == n
    ensures HeaderPrefix(data, pdata, hw)
    ensures hit ==> NonceAccepted(g, winner)
    ensures ok && !hit ==> Prepared(data, hash, Flip(cur), nonce[Flip(cur)], pdata, hw, parallel, gpu)
    ensures var e := RunFrom(g, data.Length1, maxNonce, parallel, syncOk, restart, K, iteration, n,
                             old(nonce[cur]), calls);
      (!ok ==> e == Ending(false, true, next, next, iteration + 1)) &&
      (ok && hit ==> e == Ending(true, false, winner, next, iteration + 1)) &&
      (ok && !hit && !LoopGoesOn(next, maxNonce, restart(iteration + 1)) ==>
        e == Ending(false, false, next, next, iteration + 1))
    ensures ok && !hit && LoopGoesOn(next, maxNonce, restart(iteration + 1)) ==>
      (iteration + 1 < K &&
       RunFrom(g, data.Length1, maxNonce, parallel, syncOk, restart, K, iteration, n, old(nonce[cur]), calls) ==
       RunFrom(g, data.Length1, maxNonce, parallel, syncOk, restart, K, iteration + 1, next, n, calls'))
  {
    next, ok, hit, winner, calls' := Iterate(data, hash, nonce, cur, n, pdata, hw, bigN, target, parallel,
                                             gpu, fulltest, romix, cpu, syncOk, calls, iteration > 0, g);
    if ok && !hit && LoopGoesOn(next, maxNonce, restart(iteration + 1)) {
      RunFromStep(g, data.Length1, maxNonce, parallel, syncOk, restart, K, iteration, n, old(nonce[cur]), calls);
    }
  }

  /** One iteration up to the slot flip: the launch of slot `nxt`, then,
      from the second iteration on, the scan of slot `cur`. */
  method Iterate(data: array3<word>, hash: array3<word>, nonce: array<word>, cur: nat, n: word,
                 pdata: array<word>, hw: nat, bigN: nat, target: seq<word>, parallel: int,
                 gpu: seq<word> -> seq<word>, fulltest: (seq<word>, seq<word>) -> bool,
                 romix: (seq<byte>, nat) -> seq<byte>, ghost cpu: (seq<word>, nat) -> seq<byte>,
                 syncOk: nat -> bool, calls: nat, primed: bool, ghost g: Gate)
    returns (next: word, ok: bool, hit: bool, winner: word, calls': nat)
    requires IsDigester(gpu) && IsCpuHash(cpu, romix) && |target| == DigestWords
    requires g == Gate(pdata[..], hw, target, gpu, fulltest, cpu, bigN)
    requires 1 <= hw <= pdata.Length && nonce.Length == 2
    requires data.Length0 == 2 && data.Length2 == hw && data.Length1 < 0x8000_0000
    requires hash.Length0 == 2 && hash.Length1 == data.Length1 && hash.Length2 == DigestWords
    requires cur < 2 && data != hash && nonce != pdata
    requires HeaderPrefix(data, pdata, hw)
    requires primed ==> Prepared(data, hash, cur, nonce[cur], pdata, hw, parallel, gpu)
    modifies data, hash, nonce
    ensures next == NonceAt(n, data.Length1)
    ensures ok == SyncsOk(parallel, syncOk, calls)
    ensures calls' == NextCalls(parallel, calls)
    ensures nonce[cur] == old(nonce[cur]) && nonce[Flip(cur)] == n
    ensures HeaderPrefix(data, pdata, hw)
    ensures var r := FirstAccepted(g, nonce[cur], 0, data.Length1);
      hit == (ok && primed && r.Some?) && (hit ==> winner == NonceAt(nonce[cur], r.value))
    ensures hit ==> ok && primed && NonceAccepted(g, winner)
    ensures ok && !hit ==> Prepared(data, hash, Flip(cur), nonce[Flip(cur)], pdata, hw, parallel, gpu)
  {
    assert Flip(cur) == 1 - cur;
    next, ok, calls' := Launch(data, hash, nonce, cur, 1 - cur, n, pdata, hw, parallel, gpu, syncOk, calls,
                               primed);
    hit, winner := false, 0;
    if ok && primed {
      hit, winner := ScanLanes(hash, cur, nonce[cur], pdata, hw, target, gpu, fulltest, romix, cpu, bigN);
    }
  }

  /** The two header slots, every lane holding the work's words
      byte-swapped, and the two digest slots. */
  method Buffers(pdata: array<word>, hw: nat, throughput: nat) returns (data: array3<word>, hash: array3<word>)
    requires 1 <= hw <= pdata.Length
    ensures fresh(data) && fresh(hash) && data != hash
    ensures data.Length0 == 2 && data.Length1 == throughput && data.Length2 == hw
    ensures hash.Length0 == 2 && hash.Length1 == throughput && hash.Length2 == DigestWords
    ensures HeaderPrefix(data, pdata, hw)
  {
    data := new word[2, throughput, hw];
    hash := new word[2, throughput, DigestWords];
    forall k, i, z | 0 <= k < 2 && 0 <= i < throughput && 0 <= z < hw {
      data[k, i, z] := Bswap32(pdata[z]);
    }
  }

  /** Every lane of both header slots starts with the work's words
      byte-swapped. */
  ghost predicate HeaderPrefix(data: array3<word>, pdata: array<word>, hw: nat)
    reads data, pdata
    requires 1 <= hw <= pdata.Length
  {
    data.Length0 == 2 && data.Length2 == hw &&
    forall k, i, z :: 0 <= k < 2 && 0 <= i < data.Length1 && 0 <= z < hw - 1 ==>
      data[k, i, z] == Bswap32(pdata[z])
  }

  /** What an iteration leaves in slot k for the next one, whose first
      nonce is base: on the host side the lane headers with their nonces,
      on the device side the lanes' digests. */
  ghost predicate Prepared(data: array3<word>, hash: array3<word>, k: nat, base: word,
                           pdata: array<word>, hw: nat, parallel: int, gpu: seq<word> -> seq<word>)
    reads data, hash, pdata
    requires IsDigester(gpu) && 1 <= hw <= pdata.Length && k < 2
    requires data.Length0 == 2 && data.Length2 == hw
    requires hash.Length0 == 2 && hash.Length1 == data.Length1 && hash.Length2 == DigestWords
  {
    if parallel < 2 then
      forall i :: 0 <= i < data.Length1 ==> data[k, i, hw - 1] == Bswap32(NonceAt(base, i))
    else
      forall i :: 0 <= i < hash.Length1 ==>
        LaneIs(hash, k, i, gpu(LaneHeader(pdata[..], hw, NonceAt(base, i))))
  }

  /** The first half of an iteration: `nonce[nxt] = n`, then the host-side
      or the device-side branch. When its synchronisations succeed, slot
      `cur` holds the digests of its lanes (when an earlier iteration
      prepared it) and slot `nxt` is prepared for the next iteration. */
  method Launch(data: array3<word>, hash: array3<word>, nonce: array<word>, cur: nat, nxt: nat, n: word,
                pdata: array<word>, hw: nat, parallel: int,
                gpu: seq<word> -> seq<word>, syncOk: nat -> bool, calls: nat, primed: bool)
    returns (next: word, ok: bool, calls': nat)
    requires IsDigester(gpu) && 1 <= hw <= pdata.Length && nonce.Length == 2
    requires data.Length0 == 2 && data.Length2 == hw && data.Length1 < 0x8000_0000
    requires hash.Length0 == 2 && hash.Length1 == data.Length1 && hash.Length2 == DigestWords
    requires cur < 2 && nxt == 1 - cur && data != hash && nonce != pdata
    requires HeaderPrefix(data, pdata, hw)
    requires primed ==> Prepared(data, hash, cur, nonce[cur], pdata, hw, parallel, gpu)
    modifies data, hash, nonce
    ensures next == NonceAt(n, data.Length1)
    ensures ok == SyncsOk(parallel, syncOk, calls)
    ensures calls' == NextCalls(parallel, calls)
    ensures nonce[nxt] == n && nonce[cur] == old(nonce[cur])
    ensures HeaderPrefix(data, pdata, hw)
    ensures ok && primed ==> forall i :: 0 <= i < hash.Length1 ==>
      LaneIs(hash, cur, i, gpu(LaneHeader(pdata[..], hw, NonceAt(nonce[cur], i))))
    ensures ok ==> Prepared(data, hash, nxt, nonce[nxt], pdata, hw, parallel, gpu)
  {
    nonce[nxt] := n;
    if parallel < 2 {
      next, ok := HostStep(data, hash, cur, nxt, n, pdata, hw, gpu, syncOk, calls);
      calls' := calls + 1;
      if ok && primed {
        forall i | 0 <= i < hash.Length1
          ensures LaneIs(hash, cur, i, gpu(LaneHeader(pdata[..], hw, NonceAt(nonce[cur], i))))
        {
          var h := LaneHeader(pdata[..], hw, NonceAt(nonce[cur], i));
          forall z | 0 <= z < hw
            ensures Lane(data, cur, i)[z] == h[z]
          {
            if z < hw - 1 {
              assert data[cur, i, z] == old(data[cur, i, z]) == Bswap32(pdata[z]);
            } else {
              assert data[cur, i, z] == old(data[cur, i, z]);
            }
          }
          assert Lane(data, cur, i) == h;
        }
      }
    } else {
      // `n += throughput`, as throughput increments
      next := NonceAt(n, data.Length1);
      ok := DeviceStep(hash, nxt, n, pdata, hw, gpu, syncOk, calls);
      calls' := calls + 2;
    }
  }

  /** The host-side branch (`parallel < 2`): nonces into the lanes of slot
      `nxt`, one synchronisation, then the digests of slot `cur` from its
      lane headers. Slot `cur` of the headers and slot `nxt` of the digests
      are left alone, and so are all header words but the nonces. */
  method HostStep(data: array3<word>, hash: array3<word>, cur: nat, nxt: nat, n: word,
                  pdata: array<word>, hw: nat,
                  gpu: seq<word> -> seq<word>, syncOk: nat -> bool, calls: nat)
    returns (next: word, ok: bool)
    requires IsDigester(gpu) && 1 <= hw <= pdata.Length
    requires data.Length0 == 2 && data.Length2 == hw && data.Length1 < Word32
    requires hash.Length0 == 2 && hash.Length1 == data.Length1 && hash.Length2 == DigestWords
    requires cur < 2 && nxt == 1 - cur && data != hash
    modifies data, hash
    ensures next == NonceAt(n, data.Length1) && ok == syncOk(calls)
    ensures forall k, i, z :: 0 <= k < 2 && 0 <= i < data.Length1 && 0 <= z < hw - 1 ==>
      data[k, i, z] == old(data[k, i, z])
    ensures forall i, z :: 0 <= i < data.Length1 && 0 <= z < hw ==> data[cur, i, z] == old(data[cur, i, z])
    ensures forall i :: 0 <= i < data.Length1 ==> data[nxt, i, hw - 1] == Bswap32(NonceAt(n, i))
    ensures ok ==> forall i :: 0 <= i < data.Length1 ==> LaneIs(hash, cur, i, gpu(Lane(data, cur, i)))
  {
    next := FillLanes(data, nxt, n, hw, data.Length1);
    ok := syncOk(calls);
    if !ok {
      return;
    }
    var lanes := seq(data.Length1, i requires 0 <= i < data.Length1 reads data => Lane(data, cur, i));
    HashLanes(hash, cur, lanes, gpu);
    forall i | 0 <= i < data.Length1
      ensures LaneIs(hash, cur, i, gpu(Lane(data, cur, i)))
    {
      assert lanes[i] == Lane(data, cur, i);
    }
  }

  /** The device-side branch (`parallel == 2`): the device builds the lane
      headers of slot `nxt` itself from the work and the slot's first nonce;
      after the first synchronisation its digests arrive in slot `nxt`, then
      comes a second synchronisation. Slot `cur` is left alone. */
  method DeviceStep(hash: array3<word>, nxt: nat, base: word, pdata: array<word>, hw: nat,
                    gpu: seq<word> -> seq<word>, syncOk: nat -> bool, calls: nat)
    returns (ok: bool)
    requires IsDigester(gpu) && 1 <= hw <= pdata.Length
    requires hash.Length0 == 2 && hash.Length2 == DigestWords && nxt < 2
    modifies hash
    ensures ok == (syncOk(calls) && syncOk(calls + 1))
    ensures forall k, i, z :: 0 <= k < 2 && k != nxt && 0 <= i < hash.Length1 && 0 <= z < DigestWords ==>
      hash[k, i, z] == old(hash[k, i, z])
    ensures ok ==> forall i :: 0 <= i < hash.Length1 ==>
      LaneIs(hash, nxt, i, gpu(LaneHeader(pdata[..], hw, NonceAt(base, i))))
  {
    ok := syncOk(calls);
    if !ok {
      return;
    }
    var header := pdata[..];
    var lanes := seq(hash.Length1, i requires 0 <= i < hash.Length1 => LaneHeader(header, hw, NonceAt(base, i)));
    HashLanes(hash, nxt, lanes, gpu);
    forall i | 0 <= i < hash.Length1
      ensures LaneIs(hash, nxt, i, gpu(LaneHeader(pdata[..], hw, NonceAt(base, i))))
    {
      assert lanes[i] == LaneHeader(pdata[..], hw, NonceAt(base, i));
    }
    ok := syncOk(calls + 1);
  }

  /** The lane loop of the host-side branch: lane i gets nonce n + i,
      byte-swapped into its last header word, and n moves past them. */
  method FillLanes(data: array3<word>, k: nat, n: word, hw: nat, throughput: nat) returns (next: word)
    requires k < 2 == data.Length0 && data.Length1 == throughput < Word32 && data.Length2 == hw >= 1
    modifies data
    ensures next == NonceAt(n, throughput)
    ensures forall i :: 0 <= i < throughput ==> data[k, i, hw - 1] == Bswap32(NonceAt(n, i))
    ensures forall k', i, z ::
      0 <= k' < 2 && 0 <= i < throughput && 0 <= z < hw && (k' != k || z != hw - 1) ==>
      data[k', i, z] == old(data[k', i, z])
  {
    next := n;
    var i := 0;
    while i < throughput
      invariant 0 <= i <= throughput
      invariant next == NonceAt(n, i)
      invariant forall j :: 0 <= j < i ==> data[k, j, hw - 1] == Bswap32(NonceAt(n, j))
      invariant forall k', j, z ::
        0 <= k' < 2 && 0 <= j < throughput && 0 <= z < hw && (k' != k || z != hw - 1 || j >= i) ==>
        data[k', j, z] == old(data[k', j, z])
    {
      var tmpNonce := next;
      next := next + 1;
      data[k, i, hw - 1] := Bswap32(tmpNonce);
      i := i + 1;
    }
  }

  /** The device's digests of the given lane headers arrive in slot k of
      the hash buffer; the other slot is left alone. */
  method HashLanes(hash: array3<word>, k: nat, lanes: seq<seq<word>>, gpu: seq<word> -> seq<word>)
    requires IsDigester(gpu)
    requires k < 2 == hash.Length0 && hash.Length1 == |lanes| && hash.Length2 == DigestWords
    modifies hash
    ensures forall i :: 0 <= i < |lanes| ==> LaneIs(hash, k, i, gpu(lanes[i]))
    ensures forall k', i, z :: 0 <= k' < 2 && k' != k && 0 <= i < |lanes| && 0 <= z < DigestWords ==>
      hash[k', i, z] == old(hash[k', i, z])
  {
    forall i, z | 0 <= i < |lanes| && 0 <= z < DigestWords {
      hash[k, i, z] := gpu(lanes[i])[z];
    }
  }

  /** The scan of one slot: lanes in order, each through the word-7
      pre-filter, `fulltest` and the CPU check; the first lane that passes
      wins. */
  method ScanLanes(hash: array3<word>, cur: nat, base: word, pdata: array<word>, hw: nat,
                   target: seq<word>, gpu: seq<word> -> seq<word>, fulltest: (seq<word>, seq<word>) -> bool,
                   romix: (seq<byte>, nat) -> seq<byte>, ghost cpu: (seq<word>, nat) -> seq<byte>, bigN: nat)
    returns (found: bool, winner: word)
    requires IsDigester(gpu) && IsCpuHash(cpu, romix) && |target| == DigestWords
    requires 1 <= hw <= pdata.Length && hash.Length0 == 2 && cur < 2 && hash.Length2 == DigestWords
    requires hash.Length1 < Word32
    requires forall i :: 0 <= i < hash.Length1 ==>
      LaneIs(hash, cur, i, gpu(LaneHeader(pdata[..], hw, NonceAt(base, i))))
    ensures var r := FirstAccepted(Gate(pdata[..], hw, target, gpu, fulltest, cpu, bigN), base, 0, hash.Length1);
      found == r.Some? && (found ==> winner == NonceAt(base, r.value))
    ensures found ==> NonceAccepted(Gate(pdata[..], hw, target, gpu, fulltest, cpu, bigN), winner)
    ensures found ==> exists i :: 0 <= i < hash.Length1 && winner == NonceAt(base, i)
    ensures !found ==> forall i :: 0 <= i < hash.Length1 ==>
      !NonceAccepted(Gate(pdata[..], hw, target, gpu, fulltest, cpu, bigN), NonceAt(base, i))
  {
    ghost var g := Gate(pdata[..], hw, target, gpu, fulltest, cpu, bigN);
    var i := 0;
    while i < hash.Length1
      invariant 0 <= i <= hash.Length1
      invariant FirstAccepted(g, base, i, hash.Length1) == FirstAccepted(g, base, 0, hash.Length1)
    {
      var tmpNonce := NonceAt(base, i);
      var ok := TestLane(Lane(hash, cur, i), pdata, hw, tmpNonce, target, gpu, fulltest, romix, cpu, bigN);
      if ok {
        return true, tmpNonce;
      }
      i := i + 1;
    }
    return false, 0;
  }

  /** The test of one lane whose digest d the device returned for the given
      nonce: the word-7 pre-filter, then `fulltest`, then, only for a
      candidate that passes both, the CPU recomputation and `memcmp`. */
  method TestLane(d: seq<word>, pdata: array<word>, hw: nat, tmpNonce: word, target: seq<word>,
                  gpu: seq<word> -> seq<word>, fulltest: (seq<word>, seq<word>) -> bool,
                  romix: (seq<byte>, nat) -> seq<byte>, ghost cpu: (seq<word>, nat) -> seq<byte>, bigN: nat)
    returns (ok: bool)
    requires IsDigester(gpu) && IsCpuHash(cpu, romix) && |target| == DigestWords && 1 <= hw <= pdata.Length
    requires d == gpu(LaneHeader(pdata[..], hw, tmpNonce))
    ensures ok <==> NonceAccepted(Gate(pdata[..], hw, target, gpu, fulltest, cpu, bigN), tmpNonce)
  {
    ghost var h := LaneHeader(pdata[..], hw, tmpNonce);
    ok := false;
    if d[7] <= target[7] && fulltest(d, target) {
      var thash := CpuCheck(pdata, hw, tmpNonce, romix, bigN);
      assert thash == cpu(h, bigN);
      ok := thash == WordsLE(d);
    }
  }

  /** The CPU recomputation of a candidate: `tdata` is the work's header
      byte-swapped with the candidate nonce, then PBKDF2, ROMix and PBKDF2. */
  method CpuCheck(pdata: array<word>, hw: nat, nonce: word, romix: (seq<byte>, nat) -> seq<byte>, bigN: nat)
    returns (thash: seq<byte>)
    requires IsMix(romix) && 1 <= hw <= pdata.Length
    ensures thash == CpuHash(LaneHeader(pdata[..], hw, nonce), romix, bigN)
  {
    var tdata := new word[hw];
    forall z | 0 <= z < hw - 1 {
      tdata[z] := Bswap32(pdata[z]);
    }
    tdata[hw - 1] := Bswap32(nonce);
    assert tdata[..] == LaneHeader(pdata[..], hw, nonce);
    var bytes := WordsLE(tdata[..]);
    var x := new byte[ChunkBytes];
    var out := new byte[32];
    ScryptJaneHash(bytes, bytes, romix, bigN, 1, out, 32, x);
    thash := out[..32];
  }
}
