/** The stake kernel (kernel.cpp:280-453): the weighted target test, and the
    V2 and V1 kernel checks, each with a single-shot check mode and a
    bounded search over candidate transaction times. */
module Kernel {
  import opened Common
  import opened Serial
  import opened Intervals
  import opened ChainIndex
  import opened Arith

  const TWO_63: int := 0x8000_0000_0000_0000

  /** `int64_t` / `CAmount`. */
  type int64 = x: int | -TWO_63 <= x < TWO_63

  /** Staking constants: `nStakeMinAge`, `nMaxStakingFutureDrift`,
      `nMaxPastTimeSecs` and `nStakeInterval`. */
  datatype KernelParams = KernelParams(
    stakeMinAge: uint32,
    maxFutureDrift: uint32,
    maxPastTimeSecs: uint32,
    stakeInterval: uint32)

  /** A positive stake interval (it is a divisor and the V2 step), and a drift
      window whose signed loop counter cannot overflow. */
  predicate ValidParams(p: KernelParams)
  {
    0 < p.stakeInterval && p.maxFutureDrift + p.stakeInterval <= TWO_31
  }

  datatype OutPoint = OutPoint(hash: Hash256, n: uint32)

  datatype TxOut = TxOut(value: int64, scriptPubKey: seq<byte>)

  datatype TxIn = TxIn(prevout: OutPoint, scriptSig: seq<byte>)

  /** The fields of `CTransaction` the kernel reads; `coinStakeShape` stands
      for the output-shape test of `IsCoinStake`, which is defined outside
      the kernel. */
  datatype Transaction = Transaction(hash: Hash256, vin: seq<TxIn>, vout: seq<TxOut>, coinStakeShape: bool)

  /** What the staker sees of the chain while searching: the globals
      `LastHashedBlockHeight` and `LastHashedBlockTime`, the tip's median
      time past and block time, and `poll(k)`, the `k`-th reading of
      `chainActive.Height()` during the call (reading 0 is `nHeightStart`).
      `LastHashedBlockHeight` is unsigned, so a height compared with it is
      converted modulo 2^32 first. */
  datatype SearchView = SearchView(
    lastHashedHeight: uint32,
    lastHashedTime: uint32,
    tipMedianTimePast: int64,
    tipTime: int64,
    poll: nat -> int)

  /** The stake weight: `uint256(nValueIn) / 100`. The conversion to
      `uint256` goes through `uint64_t`, so a negative amount wraps. */
  function Weight(value: int64): (w: nat)
    ensures 0 <= value ==> w == value / 100
    ensures w < TWO_64
  {
    (value % TWO_64) / 100
  }

  /** stakeTargetHit (kernel.cpp:280-287): the hash is below weight times
      target, the product taken in 256-bit arithmetic. */
  predicate StakeTargetHit(hash: Hash256, value: int64, target: Hash256)
  {
    hash < (Weight(value) * target) % TWO_256
  }

  /** Any amount below 100 has weight zero and never meets a target. */
  lemma SmallValueNeverHits(hash: Hash256, value: int64, target: Hash256)
    requires 0 <= value < 100
    ensures !StakeTargetHit(hash, value, target)
  {
  }

  /** Without overflow of the product, staking more never turns a hit into
      a miss. */
  lemma TargetHitMonotone(hash: Hash256, v1: int64, v2: int64, target: Hash256)
    requires 0 <= v1 <= v2
    requires Weight(v2) * target < TWO_256
    requires StakeTargetHit(hash, v1, target)
    ensures StakeTargetHit(hash, v2, target)
  {
    DivMonotone(v1, v2, 100);
    ProductMonotone(Weight(v1), Weight(v2), target);
  }

  lemma ProductMonotone(w1: nat, w2: nat, target: nat)
    requires w1 <= w2 && w2 * target < TWO_256
    ensures (w1 * target) % TWO_256 <= (w2 * target) % TWO_256
  {
    MulMonotone(w1, w2, target);
    var x1, x2 := w1 * target, w2 * target;
    ModUnique(x1, TWO_256, 0, x1);
    ModUnique(x2, TWO_256, 0, x2);
  }

  lemma DivMonotone(a: nat, b: nat, d: nat)
    requires a <= b && d > 0
    ensures a / d <= b / d
  {
    var q := a / d;
    assert q * d <= a <= b;
    DivLowerBound(b, d, q);
  }

  /** Without overflow, the test is exactly `hash < weight * target`; with
      a zero target nothing hits. */
  lemma TargetHitWithoutOverflow(hash: Hash256, value: int64, target: Hash256)
    requires Weight(value) * target < TWO_256
    ensures StakeTargetHit(hash, value, target) <==> hash < Weight(value) * target
    ensures target == 0 ==> !StakeTargetHit(hash, value, target)
  {
  }

  datatype KernelReject = TimeViolation | MinAgeViolation | ZeroValue

  /** The ordered preconditions shared by both kernel checks (kernel.cpp:295-302
      and 388-395): the transaction may not precede the source block, the
      coin must have reached the minimum age (the sum is `unsigned int`, so
      it wraps), and the amount must be nonzero. */
  function PreconditionFailure(p: KernelParams, timeBlockFrom: uint32, timeTx: uint32, value: int64)
    : (r: Option<KernelReject>)
    ensures r == Some(TimeViolation) <==> timeTx < timeBlockFrom
    ensures r == Some(MinAgeViolation) <==> timeBlockFrom <= timeTx && U32(timeBlockFrom + p.stakeMinAge) > timeTx
    ensures r == Some(ZeroValue) <==>
      timeBlockFrom <= timeTx && U32(timeBlockFrom + p.stakeMinAge) <= timeTx && value == 0
  {
    if timeTx < timeBlockFrom then Some(TimeViolation)
    else if U32(timeBlockFrom + p.stakeMinAge) > timeTx then Some(MinAgeViolation)
    else if value == 0 then Some(ZeroValue)
    else None
  }

  /** Time and age part of the preconditions. */
  predicate AgeOk(p: KernelParams, timeBlockFrom: uint32, t: uint32)
  {
    timeBlockFrom <= t && U32(timeBlockFrom + p.stakeMinAge) <= t
  }

  /** When the sum does not wrap, passing the age test means the coin is at
      least the minimum age at time `t`. */
  lemma AgeOkMeansOldEnough(p: KernelParams, timeBlockFrom: uint32, t: uint32)
    requires timeBlockFrom + p.stakeMinAge < TWO_32
    ensures AgeOk(p, timeBlockFrom, t) <==> t - timeBlockFrom >= p.stakeMinAge
  {
  }

  /** The age test holds at any later time once it holds (no wrap of `t`). */
  lemma AgeOkLater(p: KernelParams, timeBlockFrom: uint32, t: uint32, u: uint32)
    requires AgeOk(p, timeBlockFrom, t) && t <= u
    ensures AgeOk(p, timeBlockFrom, u)
  {
  }

  /** The V2 kernel hash (kernel.cpp:311, 357). */
  function KernelHashV2(H: Hasher, modifierV2: Hash256, timeBlockFrom: uint32, prevout: OutPoint, t: uint32)
    : (r: Hash256)
  {
    H(KernelV2Preimage(modifierV2, timeBlockFrom, prevout.hash, prevout.n, t))
  }

  /** stakeHash (kernel.cpp:374-379): appends the source time, output index,
      output hash and candidate time to a copy of the stream and hashes it.
      The stream is taken by value, so the caller's stream is not extended. */
  function StakeHash(H: Hasher, t: uint32, stream: seq<byte>, prevoutIndex: uint32, prevoutHash: Hash256,
                     timeBlockFrom: uint32): (r: Hash256)
  {
    H(stream + LE(timeBlockFrom, 4) + LE(prevoutIndex, 4) + LE(prevoutHash, 32) + LE(t, 4))
  }

  /** With the modifier stream prepared at kernel.cpp:411-412, `stakeHash`
      hashes exactly the 52-byte V1 kernel layout, whatever the time. */
  lemma StakeHashIsKernelV1(H: Hasher, modifier: uint64, t: uint32, prevout: OutPoint, timeBlockFrom: uint32)
    ensures StakeHash(H, t, ModifierStream(modifier), prevout.n, prevout.hash, timeBlockFrom)
         == H(KernelV1Preimage(modifier, timeBlockFrom, prevout.n, prevout.hash, t))
    ensures |ModifierStream(modifier) + LE(timeBlockFrom, 4) + LE(prevout.n, 4) + LE(prevout.hash, 32) + LE(t, 4)| == 52
  {
    var s := ModifierStream(modifier);
    assert s + LE(timeBlockFrom, 4) + LE(prevout.n, 4) + LE(prevout.hash, 32) + LE(t, 4)
        == KernelV1Preimage(modifier, timeBlockFrom, prevout.n, prevout.hash, t);
  }

  /** The V1 kernel hash at time `t`. */
  function KernelHashV1(H: Hasher, modifier: uint64, timeBlockFrom: uint32, prevout: OutPoint, t: uint32)
    : (r: Hash256)
  {
    StakeHash(H, t, ModifierStream(modifier), prevout.n, prevout.hash, timeBlockFrom)
  }

  /** What V2 check mode accepts at time `t`. */
  predicate KernelCheckV2(p: KernelParams, H: Hasher, target: Hash256, modifierV2: Hash256,
                          timeBlockFrom: uint32, prevout: OutPoint, value: int64, t: uint32)
  {
    && PreconditionFailure(p, timeBlockFrom, t, value) == None
    && StakeTargetHit(KernelHashV2(H, modifierV2, timeBlockFrom, prevout, t), value, target)
  }

  /** What V1 check mode accepts at time `t`: the preconditions, a kernel
      modifier for the source block, and a hit with that modifier. */
  predicate KernelCheckV1(c: Config, p: KernelParams, H: Hasher, target: Hash256,
                          index: map<Hash256, Block>, active: seq<Block>, blockFrom: BlockHeader,
                          prevout: OutPoint, value: int64, t: uint32)
    requires ValidConfig(c)
  {
    && PreconditionFailure(p, blockFrom.time, t, value) == None
    && KernelStakeModifier(c, index, active, blockFrom.hash).Ok?
    && var modifier := KernelStakeModifier(c, index, active, blockFrom.hash).value.0;
       StakeTargetHit(KernelHashV1(H, modifier, blockFrom.time, prevout, t), value, target)
  }

  /** The header fields of `CBlock blockFrom` that the V1 check reads. */
  datatype BlockHeader = BlockHeader(time: uint32, hash: Hash256)

  // ---------------------------------------------------------------- V2 search

  /** `HashingStart` of the V2 search (kernel.cpp:325-343), for the rounded
      time `t`. After a new tip it starts `nFactor` stake intervals in the
      past; otherwise just past the last time tried. The result is stored in
      a signed `int`. */
  function HashingStartV2(p: KernelParams, view: SearchView, t: uint32): (r: int)
    requires ValidParams(p)
    ensures -TWO_31 <= r < TWO_31
  {
    if view.lastHashedHeight != U32(view.poll(0)) then
      var difference2 := t - view.tipMedianTimePast;
      var difference := Min(t - view.tipTime + p.maxPastTimeSecs - 1, difference2);
      if difference > 1 then
        var factor := ToInt32(difference / p.stakeInterval);
        ToInt32(-factor * p.stakeInterval)
      else 0
    else ToInt32(view.lastHashedTime - t + p.stakeInterval)
  }

  /** kernel.cpp:320: the time rounded down to the stake interval. */
  function RoundDown(t: uint32, interval: uint32): (r: uint32)
    requires interval > 0
    ensures r <= t && t - r < interval && r % interval == 0
  {
    FloorToMultiple(t, interval);
    assert t - t % interval == (t / interval) * interval;
    t - t % interval
  }

  /** Once a new tip came in and the past-times window spans at least one
      stake interval, `HashingStart` is negative (unless the product
      overflows `int`), so the signed counter compared against the unsigned
      drift at kernel.cpp:345 ends the loop before its first probe: the
      intended search of past times never happens. A window shorter than one
      interval starts at zero. */
  lemma PastTimesBranchIsDead(p: KernelParams, view: SearchView, t: uint32)
    requires ValidParams(p) && view.lastHashedHeight != U32(view.poll(0))
    requires var d := Min(t - view.tipTime + p.maxPastTimeSecs - 1, t - view.tipMedianTimePast);
      d > 1 && d / p.stakeInterval * p.stakeInterval < TWO_31
    ensures var d := Min(t - view.tipTime + p.maxPastTimeSecs - 1, t - view.tipMedianTimePast);
      (d < p.stakeInterval ==> HashingStartV2(p, view, t) == 0)
      && (d >= p.stakeInterval ==> HashingStartV2(p, view, t) < 0 && U32(HashingStartV2(p, view, t)) >= p.maxFutureDrift)
  {
    var d := Min(t - view.tipTime + p.maxPastTimeSecs - 1, t - view.tipMedianTimePast);
    var factor := d / p.stakeInterval;
    assert HashingStartV2(p, view, t) == ToInt32(-ToInt32(factor) * p.stakeInterval);
    if d >= p.stakeInterval {
      DivLowerBound(d, p.stakeInterval, 1);
      NegatedProduct(factor, p.stakeInterval);
    } else {
      SmallDiv(d, p.stakeInterval);
    }
  }

  lemma NegatedProduct(factor: int, interval: int)
    requires 1 <= factor && 1 <= interval && factor * interval < TWO_31
    ensures -TWO_31 < ToInt32(-ToInt32(factor) * interval) < 0
  {
    MulMonotone(1, factor, interval);
    assert ToInt32(factor) == factor;
    assert -factor * interval == -(factor * interval);
  }

  /** The offset of the `j`-th V2 probe from the rounded time. */
  function Offset(p: KernelParams, start: int, j: nat): int
  {
    start + j * p.stakeInterval
  }

  /** Probe `j` hashed the time `start + j * nStakeInterval` past the
      rounded time, an offset inside the drift window. */
  predicate ProbedAt(p: KernelParams, rounded: uint32, start: int, tried: seq<uint32>)
  {
    forall j | 0 <= j < |tried| :: IsProbe(p, rounded, start, j, tried[j])
  }

  /** `t` is the time of probe `j`, whose offset lies inside the window. */
  predicate IsProbe(p: KernelParams, rounded: uint32, start: int, j: nat, t: uint32)
  {
    0 <= Offset(p, start, j) < p.maxFutureDrift && t == U32(rounded + Offset(p, start, j))
  }

  /** Readings 1 to `n` of the height all equal the start height. */
  predicate Unpreempted(view: SearchView, n: nat)
  {
    forall k | 1 <= k <= n :: view.poll(k) == view.poll(0)
  }

  /** None of the times hashes below the target. */
  predicate AllMissV2(H: Hasher, target: Hash256, modifierV2: Hash256, timeBlockFrom: uint32, prevout: OutPoint,
                      value: int64, times: seq<uint32>)
  {
    forall j | 0 <= j < |times| ::
      !StakeTargetHit(KernelHashV2(H, modifierV2, timeBlockFrom, prevout, times[j]), value, target)
  }

  /** The probes of the V2 search loop (kernel.cpp:345-369) from the rounded
      time `rounded` and the signed start offset `start`. `tried` lists the
      times hashed, in order; each probe is made only while the height still
      equals the start height. The loop stops at the first hit and returns
      its time; otherwise it returns the rounded time, having covered the
      whole window unless a new block came in. */
  ghost predicate ProbesV2(p: KernelParams, H: Hasher, target: Hash256, view: SearchView,
                           modifierV2: Hash256, timeBlockFrom: uint32, prevout: OutPoint, value: int64,
                           rounded: uint32, start: int, hashIn: Hash256,
                           ok: bool, timeTxOut: uint32, hashOut: Hash256, tried: seq<uint32>)
  {
    && (start < 0 ==> tried == [])
    && ProbedAt(p, rounded, start, tried)
    && Unpreempted(view, |tried|)
    && (tried == [] ==> hashOut == hashIn && !ok && timeTxOut == rounded)
    && (tried != [] ==>
          && AllMissV2(H, target, modifierV2, timeBlockFrom, prevout, value, tried[..|tried| - 1])
          && hashOut == KernelHashV2(H, modifierV2, timeBlockFrom, prevout, tried[|tried| - 1])
          && (ok <==> StakeTargetHit(hashOut, value, target))
          && timeTxOut == (if ok then tried[|tried| - 1] else rounded))
    && (!ok ==> start < 0 || Offset(p, start, |tried|) >= p.maxFutureDrift
                || view.poll(|tried| + 1) != view.poll(0))
  }

  /** What the V2 search (kernel.cpp:318-370) does from the unrounded time
      `timeTx`: round it down, choose `HashingStart`, probe. */
  ghost predicate SearchV2Outcome(p: KernelParams, H: Hasher, target: Hash256, view: SearchView,
                                  modifierV2: Hash256, timeBlockFrom: uint32, prevout: OutPoint, value: int64,
                                  timeTx: uint32, hashIn: Hash256,
                                  ok: bool, timeTxOut: uint32, hashOut: Hash256, tried: seq<uint32>)
    requires ValidParams(p)
  {
    var rounded := RoundDown(timeTx, p.stakeInterval);
    ProbesV2(p, H, target, view, modifierV2, timeBlockFrom, prevout, value,
             rounded, HashingStartV2(p, view, rounded), hashIn, ok, timeTxOut, hashOut, tried)
  }

  /** The search loop of CheckStakeKernelHashV2 (kernel.cpp:345-369). The
      test `i > nMaxStakingFutureDrift` at kernel.cpp:351 is implied by the
      loop condition and is not repeated. */
  method ProbeKernelV2(p: KernelParams, H: Hasher, target: Hash256, view: SearchView, modifierV2: Hash256,
                       timeBlockFrom: uint32, prevout: OutPoint, value: int64, rounded: uint32, start: int,
                       hashIn: Hash256)
    returns (ok: bool, timeTxOut: uint32, hashOut: Hash256, ghost tried: seq<uint32>)
    requires ValidParams(p) && -TWO_31 <= start < TWO_31
    ensures ProbesV2(p, H, target, view, modifierV2, timeBlockFrom, prevout, value, rounded, start, hashIn,
                     ok, timeTxOut, hashOut, tried)
    ensures ok ==> StakeTargetHit(hashOut, value, target)
    ensures !ok ==> timeTxOut == rounded
  {
    var heightStart := view.poll(0);
    ok, timeTxOut, hashOut, tried := false, rounded, hashIn, [];
    var i := start;
    var reading := 1;
    while U32(i) < p.maxFutureDrift
      invariant reading == |tried| + 1
      invariant i == Offset(p, start, |tried|)
      invariant start < 0 ==> tried == []
      invariant tried != [] ==> 0 <= i
      invariant !ok && timeTxOut == rounded
      invariant ProbedAt(p, rounded, start, tried)
      invariant Unpreempted(view, |tried|) && heightStart == view.poll(0)
      invariant AllMissV2(H, target, modifierV2, timeBlockFrom, prevout, value, tried)
      invariant tried == [] ==> hashOut == hashIn
      invariant tried != [] ==> hashOut == KernelHashV2(H, modifierV2, timeBlockFrom, prevout, tried[|tried| - 1])
      decreases p.maxFutureDrift - i
    {
      OutsideWindow(i, p.maxFutureDrift);
      if view.poll(reading) != heightStart {
        break;
      }
      var tryTime := U32(rounded + i);
      hashOut := KernelHashV2(H, modifierV2, timeBlockFrom, prevout, tryTime);
      ProbeStep(p, view, rounded, start, tried);
      ghost var before := tried;
      tried := tried + [tryTime];
      assert tried[..|tried| - 1] == before;
      if StakeTargetHit(hashOut, value, target) {
        ok, timeTxOut := true, tryTime;
        break;
      }
      AllMissV2Extend(H, target, modifierV2, timeBlockFrom, prevout, value, before, tryTime);
      i := ToInt32(i + p.stakeInterval);
      reading := reading + 1;
    }
    if U32(i) >= p.maxFutureDrift {
      OutsideWindow(i, p.maxFutureDrift);
    }
  }

  /** The unsigned reading of a signed counter is past the drift exactly when
      the counter is negative or past the drift. */
  lemma OutsideWindow(i: int, drift: int)
    requires -TWO_31 <= i < TWO_31 && 0 <= drift < TWO_31
    ensures U32(i) >= drift <==> i < 0 || i >= drift
  {
    if i < 0 {
      assert U32(i) == i + TWO_32;
    }
  }

  /** One more probe, at the next offset inside the window and while the
      height is unchanged, keeps the loop's account of its probes. */
  lemma ProbeStep(p: KernelParams, view: SearchView, rounded: uint32, start: int, tried: seq<uint32>)
    requires ProbedAt(p, rounded, start, tried) && Unpreempted(view, |tried|)
    requires 0 <= Offset(p, start, |tried|) < p.maxFutureDrift && view.poll(|tried| + 1) == view.poll(0)
    ensures ProbedAt(p, rounded, start, tried + [U32(rounded + Offset(p, start, |tried|))])
    ensures Unpreempted(view, |tried| + 1)
    ensures Offset(p, start, |tried| + 1) == Offset(p, start, |tried|) + p.stakeInterval
  {
  }

  lemma AllMissV2Extend(H: Hasher, target: Hash256, modifierV2: Hash256, timeBlockFrom: uint32, prevout: OutPoint,
                        value: int64, times: seq<uint32>, t: uint32)
    requires AllMissV2(H, target, modifierV2, timeBlockFrom, prevout, value, times)
    requires !StakeTargetHit(KernelHashV2(H, modifierV2, timeBlockFrom, prevout, t), value, target)
    ensures AllMissV2(H, target, modifierV2, timeBlockFrom, prevout, value, times + [t])
  {
  }

  /** The search of CheckStakeKernelHashV2 (kernel.cpp:318-370). */
  method SearchKernelV2(p: KernelParams, H: Hasher, target: Hash256, view: SearchView, modifierV2: Hash256,
                        timeBlockFrom: uint32, prevout: OutPoint, value: int64, timeTx: uint32, hashIn: Hash256)
    returns (ok: bool, timeTxOut: uint32, hashOut: Hash256, ghost tried: seq<uint32>)
    requires ValidParams(p)
    ensures SearchV2Outcome(p, H, target, view, modifierV2, timeBlockFrom, prevout, value, timeTx, hashIn,
                            ok, timeTxOut, hashOut, tried)
    ensures ok ==> StakeTargetHit(hashOut, value, target)
    ensures !ok ==> timeTxOut == RoundDown(timeTx, p.stakeInterval)
  {
    var rounded := RoundDown(timeTx, p.stakeInterval);
    var start := HashingStartV2(p, view, rounded);
    ok, timeTxOut, hashOut, tried :=
      ProbeKernelV2(p, H, target, view, modifierV2, timeBlockFrom, prevout, value, rounded, start, hashIn);
  }

  /** Every time the V2 search hashes lies in the drift window after the
      rounded time (when that window does not wrap), so it never tries a time
      before the rounded time. */
  lemma V2ProbesInWindow(p: KernelParams, H: Hasher, target: Hash256, view: SearchView,
                         modifierV2: Hash256, timeBlockFrom: uint32, prevout: OutPoint, value: int64,
                         timeTx: uint32, hashIn: Hash256,
                         ok: bool, timeTxOut: uint32, hashOut: Hash256, tried: seq<uint32>)
    requires ValidParams(p)
    requires SearchV2Outcome(p, H, target, view, modifierV2, timeBlockFrom, prevout, value, timeTx, hashIn,
                             ok, timeTxOut, hashOut, tried)
    requires RoundDown(timeTx, p.stakeInterval) + p.maxFutureDrift <= TWO_32
    ensures forall j | 0 <= j < |tried| ::
      RoundDown(timeTx, p.stakeInterval) <= tried[j] < RoundDown(timeTx, p.stakeInterval) + p.maxFutureDrift
  {
    var rounded := RoundDown(timeTx, p.stakeInterval);
    var start := HashingStartV2(p, view, rounded);
    forall j | 0 <= j < |tried|
      ensures rounded <= tried[j] < rounded + p.maxFutureDrift
    {
      assert IsProbe(p, rounded, start, j, tried[j]);
    }
  }

  /** When no new tip came in since the last search, the V2 search starts
      one stake interval past `LastHashedBlockTime` (kernel.cpp:341-342), so
      without wrap-around it only tries times later than that one. */
  lemma SameHeightTriesOnlyLaterTimes(p: KernelParams, H: Hasher, target: Hash256, view: SearchView,
                                      modifierV2: Hash256, timeBlockFrom: uint32, prevout: OutPoint, value: int64,
                                      timeTx: uint32, hashIn: Hash256,
                                      ok: bool, timeTxOut: uint32, hashOut: Hash256, tried: seq<uint32>)
    requires ValidParams(p) && view.lastHashedHeight == U32(view.poll(0))
    requires SearchV2Outcome(p, H, target, view, modifierV2, timeBlockFrom, prevout, value, timeTx, hashIn,
                             ok, timeTxOut, hashOut, tried)
    requires var rounded := RoundDown(timeTx, p.stakeInterval);
      rounded < TWO_31 && rounded + p.maxFutureDrift <= TWO_32
    requires view.lastHashedTime + p.stakeInterval < TWO_31
    ensures forall j | 0 <= j < |tried| :: view.lastHashedTime < tried[j]
  {
    var rounded := RoundDown(timeTx, p.stakeInterval);
    var start := HashingStartV2(p, view, rounded);
    assert start == view.lastHashedTime - rounded + p.stakeInterval;
    forall j | 0 <= j < |tried|
      ensures view.lastHashedTime < tried[j]
    {
      ProbeNotBeforeStart(p, rounded, start, j, tried[j]);
    }
  }

  /** Without wrap-around, probe `j` is the rounded time plus an offset of at
      least `start`. */
  lemma ProbeNotBeforeStart(p: KernelParams, rounded: uint32, start: int, j: nat, t: uint32)
    requires IsProbe(p, rounded, start, j, t) && rounded + p.maxFutureDrift <= TWO_32
    ensures t == rounded + Offset(p, start, j) >= rounded + start
  {
    MulMonotone(0, j, p.stakeInterval);
  }

  /** The same signed/unsigned effect as after a new tip: when no new tip came
      in but the rounded time is more than one interval past
      `LastHashedBlockTime`, `HashingStart` is negative and the loop of
      kernel.cpp:345 ends before its first probe, so the search fails
      without hashing. */
  lemma SameHeightLateStartHashesNothing(p: KernelParams, H: Hasher, target: Hash256, view: SearchView,
                                         modifierV2: Hash256, timeBlockFrom: uint32, prevout: OutPoint,
                                         value: int64, timeTx: uint32, hashIn: Hash256,
                                         ok: bool, timeTxOut: uint32, hashOut: Hash256, tried: seq<uint32>)
    requires ValidParams(p) && view.lastHashedHeight == U32(view.poll(0))
    requires SearchV2Outcome(p, H, target, view, modifierV2, timeBlockFrom, prevout, value, timeTx, hashIn,
                             ok, timeTxOut, hashOut, tried)
    requires var rounded := RoundDown(timeTx, p.stakeInterval);
      view.lastHashedTime + p.stakeInterval < rounded < TWO_31
    ensures tried == [] && !ok && timeTxOut == RoundDown(timeTx, p.stakeInterval) && hashOut == hashIn
  {
    var rounded := RoundDown(timeTx, p.stakeInterval);
    assert HashingStartV2(p, view, rounded) == view.lastHashedTime - rounded + p.stakeInterval < 0;
  }

  /** Rounding down can take the time below the minimum age: here the entry
      time passes the age test, the search starts at offset zero, and its
      first probe, the rounded time itself, fails that test. Should that
      probe hit, the search returns a time that check mode rejects. */
  lemma RoundingCanUnderrunMinAge(H: Hasher, target: Hash256, modifierV2: Hash256, prevout: OutPoint, value: int64,
                                  hashIn: Hash256, ok: bool, timeTxOut: uint32, hashOut: Hash256, tried: seq<uint32>)
    requires value != 0
    requires var p := KernelParams(3600, 180, 0, 60);
      SearchV2Outcome(p, H, target, SearchView(7, 4500, 0, 0, (k: nat) => 7), modifierV2, 1000, prevout, value,
                      4610, hashIn, ok, timeTxOut, hashOut, tried)
    requires StakeTargetHit(KernelHashV2(H, modifierV2, 1000, prevout, 4560), value, target)
    ensures PreconditionFailure(KernelParams(3600, 180, 0, 60), 1000, 4610, value) == None
    ensures ok && timeTxOut == 4560
    ensures PreconditionFailure(KernelParams(3600, 180, 0, 60), 1000, timeTxOut, value) == Some(MinAgeViolation)
  {
    var p := KernelParams(3600, 180, 0, 60);
    var view := SearchView(7, 4500, 0, 0, (k: nat) => 7);
    assert RoundDown(4610, 60) == 4560;
    assert HashingStartV2(p, view, 4560) == 0;
    assert IsProbe(p, 4560, 0, 0, tried[0]);
  }

  // ---------------------------------------------------------------- V1 search

  /** `TimePastDifference` of the V1 search (kernel.cpp:422-425), capped at 100. */
  function TimePastDifferenceV1(view: SearchView, t: uint32): (r: int)
    ensures r <= 100
  {
    Min(t - view.tipMedianTimePast, 100)
  }

  /** The index of the first height reading inside the V1 loop: reading 0 is
      `nHeightStart`, and kernel.cpp:429 reads the height once more only when
      the past-times difference exceeds one. */
  function FirstLoopReadV1(view: SearchView, t: uint32): (r: nat)
    ensures r == 1 || r == 2
  {
    if TimePastDifferenceV1(view, t) > 1 then 2 else 1
  }

  /** `HashingEnd` of the V1 search (kernel.cpp:428-429): the drift, plus up
      to 99 past times after a new tip. */
  function HashingEndV1(p: KernelParams, view: SearchView, t: uint32): (r: nat)
    requires ValidParams(p)
    ensures p.maxFutureDrift <= r <= p.maxFutureDrift + 99
  {
    var difference := TimePastDifferenceV1(view, t);
    if difference > 1 && view.lastHashedHeight != U32(view.poll(1)) then U32(p.maxFutureDrift + difference - 1)
    else p.maxFutureDrift
  }

  /** The time tried at index `i` (kernel.cpp:438): counting down from the
      end of the drift window, in `unsigned int`. */
  function TryTimeV1(p: KernelParams, t: uint32, i: int): (r: uint32)
  {
    U32(t + p.maxFutureDrift - i)
  }

  /** Index `i` is skipped without hashing (kernel.cpp:439): past the drift,
      the time must still pass the time and age tests. */
  predicate SkippedV1(p: KernelParams, timeBlockFrom: uint32, t: uint32, i: int)
  {
    i > p.maxFutureDrift && !AgeOk(p, timeBlockFrom, TryTimeV1(p, t, i))
  }

  /** Readings `base` to `base + n - 1` of the height equal the start height. */
  predicate ReadingsStable(view: SearchView, base: nat, n: nat)
  {
    forall k | base <= k < base + n :: view.poll(k) == view.poll(0)
  }

  /** The indices below `n` that are not skipped, in increasing order. */
  function HashedIndices(p: KernelParams, timeBlockFrom: uint32, t: uint32, n: nat): (r: seq<nat>)
    ensures |r| <= n
    decreases n
  {
    if n == 0 then []
    else if SkippedV1(p, timeBlockFrom, t, n - 1) then HashedIndices(p, timeBlockFrom, t, n - 1)
    else HashedIndices(p, timeBlockFrom, t, n - 1) + [n - 1]
  }

  /** The hashed indices are increasing, below `n`, not skipped, and include
      every index below `n` that is not skipped. */
  lemma {:induction false} HashedIndicesExactly(p: KernelParams, timeBlockFrom: uint32, t: uint32, n: nat)
    ensures var r := HashedIndices(p, timeBlockFrom, t, n);
      && (forall a, b | 0 <= a < b < |r| :: r[a] < r[b])
      && (forall j | 0 <= j < |r| :: r[j] < n && !SkippedV1(p, timeBlockFrom, t, r[j]))
      && (forall k | 0 <= k < n && !SkippedV1(p, timeBlockFrom, t, k) :: k in r)
    decreases n
  {
    if n > 0 {
      HashedIndicesExactly(p, timeBlockFrom, t, n - 1);
    }
  }

  /** None of the indices hashes below the target. */
  predicate AllMissV1(p: KernelParams, H: Hasher, target: Hash256, modifier: uint64, timeBlockFrom: uint32,
                      prevout: OutPoint, value: int64, t: uint32, tried: seq<nat>)
  {
    forall j | 0 <= j < |tried| ::
      !StakeTargetHit(KernelHashV1(H, modifier, timeBlockFrom, prevout, TryTimeV1(p, t, tried[j])), value, target)
  }

  /** What the V1 search (kernel.cpp:418-452) does. `tried` lists the loop
      indices that were hashed and `reached` the index at which the loop
      stopped. Every index up to `reached` was visited while the height was
      unchanged; the loop hashes every index that is not skipped, stops at
      the first hit and returns its time; otherwise it leaves the time
      unchanged, having covered the whole window unless a new block came in. */
  ghost predicate SearchV1Outcome(p: KernelParams, H: Hasher, target: Hash256, view: SearchView,
                                  modifier: uint64, timeBlockFrom: uint32, prevout: OutPoint, value: int64,
                                  timeTx: uint32, hashIn: Hash256,
                                  ok: bool, timeTxOut: uint32, hashOut: Hash256, tried: seq<nat>, reached: nat)
    requires ValidParams(p)
  {
    var base := FirstLoopReadV1(view, timeTx);
    var end := HashingEndV1(p, view, timeTx);
    && reached <= end
    && (tried == [] ==> hashOut == hashIn)
    && (tried != [] ==>
          hashOut == KernelHashV1(H, modifier, timeBlockFrom, prevout, TryTimeV1(p, timeTx, tried[|tried| - 1])))
    && (ok ==>
          && reached < end && ReadingsStable(view, base, reached + 1)
          && tried == HashedIndices(p, timeBlockFrom, timeTx, reached + 1)
          && tried != [] && tried[|tried| - 1] == reached
          && AllMissV1(p, H, target, modifier, timeBlockFrom, prevout, value, timeTx, tried[..|tried| - 1])
          && timeTxOut == TryTimeV1(p, timeTx, reached)
          && StakeTargetHit(hashOut, value, target))
    && (!ok ==>
          && ReadingsStable(view, base, reached)
          && tried == HashedIndices(p, timeBlockFrom, timeTx, reached)
          && AllMissV1(p, H, target, modifier, timeBlockFrom, prevout, value, timeTx, tried)
          && timeTxOut == timeTx
          && (reached == end || view.poll(base + reached) != view.poll(0)))
  }

  lemma StableExtend(view: SearchView, base: nat, n: nat)
    requires ReadingsStable(view, base, n) && view.poll(base + n) == view.poll(0)
    ensures ReadingsStable(view, base, n + 1)
  {
  }

  lemma AllMissV1Extend(p: KernelParams, H: Hasher, target: Hash256, modifier: uint64, timeBlockFrom: uint32,
                        prevout: OutPoint, value: int64, t: uint32, tried: seq<nat>, i: nat)
    requires AllMissV1(p, H, target, modifier, timeBlockFrom, prevout, value, t, tried)
    requires !StakeTargetHit(KernelHashV1(H, modifier, timeBlockFrom, prevout, TryTimeV1(p, t, i)), value, target)
    ensures AllMissV1(p, H, target, modifier, timeBlockFrom, prevout, value, t, tried + [i])
  {
  }

  /** The search loop of CheckStakeKernelHash (kernel.cpp:418-452). The
      modifier stream is prepared once and passed by value to `stakeHash`. */
  method SearchKernelV1(p: KernelParams, H: Hasher, target: Hash256, view: SearchView, modifier: uint64,
                        timeBlockFrom: uint32, prevout: OutPoint, value: int64, timeTx: uint32, hashIn: Hash256)
    returns (ok: bool, timeTxOut: uint32, hashOut: Hash256, ghost tried: seq<nat>, ghost reached: nat)
    requires ValidParams(p)
    ensures SearchV1Outcome(p, H, target, view, modifier, timeBlockFrom, prevout, value, timeTx, hashIn,
                            ok, timeTxOut, hashOut, tried, reached)
    ensures ok ==> StakeTargetHit(hashOut, value, target)
    ensures !ok ==> timeTxOut == timeTx
  {
    var stream := ModifierStream(modifier);
    var heightStart := view.poll(0);
    var hashingEnd := HashingEndV1(p, view, timeTx);
    var reading := FirstLoopReadV1(view, timeTx);
    ghost var base := reading;
    ok, timeTxOut, hashOut, tried := false, timeTx, hashIn, [];
    var i: nat := 0;
    while i < hashingEnd
      invariant i <= hashingEnd && reading == base + i
      invariant ReadingsStable(view, base, i) && heightStart == view.poll(0)
      invariant tried == HashedIndices(p, timeBlockFrom, timeTx, i)
      invariant AllMissV1(p, H, target, modifier, timeBlockFrom, prevout, value, timeTx, tried)
      invariant !ok && timeTxOut == timeTx
      invariant tried == [] ==> hashOut == hashIn
      invariant tried != [] ==>
        hashOut == KernelHashV1(H, modifier, timeBlockFrom, prevout, TryTimeV1(p, timeTx, tried[|tried| - 1]))
    {
      if view.poll(reading) != heightStart {
        break;
      }
      StableExtend(view, base, i);
      var tryTime := TryTimeV1(p, timeTx, i);
      if SkippedV1(p, timeBlockFrom, timeTx, i) {
        assert HashedIndices(p, timeBlockFrom, timeTx, i + 1) == tried;
        i, reading := i + 1, reading + 1;
        continue;
      }
      hashOut := StakeHash(H, tryTime, stream, prevout.n, prevout.hash, timeBlockFrom);
      ghost var before := tried;
      tried := tried + [i];
      assert tried[..|tried| - 1] == before && tried[|tried| - 1] == i;
      assert HashedIndices(p, timeBlockFrom, timeTx, i + 1) == tried;
      if StakeTargetHit(hashOut, value, target) {
        ok, timeTxOut := true, tryTime;
        break;
      }
      AllMissV1Extend(p, H, target, modifier, timeBlockFrom, prevout, value, timeTx, before, i);
      i, reading := i + 1, reading + 1;
    }
    reached := i;
  }

  /** The loop count of the V1 search is bounded by `HashingEnd`, so the
      search hashes at most `nMaxStakingFutureDrift + 99` times. */
  lemma V1ProbeBound(p: KernelParams, H: Hasher, target: Hash256, view: SearchView,
                     modifier: uint64, timeBlockFrom: uint32, prevout: OutPoint, value: int64,
                     timeTx: uint32, hashIn: Hash256,
                     ok: bool, timeTxOut: uint32, hashOut: Hash256, tried: seq<nat>, reached: nat)
    requires ValidParams(p)
    requires SearchV1Outcome(p, H, target, view, modifier, timeBlockFrom, prevout, value, timeTx, hashIn,
                             ok, timeTxOut, hashOut, tried, reached)
    ensures |tried| <= HashingEndV1(p, view, timeTx) <= p.maxFutureDrift + 99
  {
    var n := if ok then reached + 1 else reached;
    assert tried == HashedIndices(p, timeBlockFrom, timeTx, n);
  }

  /** Without wrap-around of the time window, the V1 search never hashes a
      time that precedes the source block or at which the coin is younger
      than the minimum age: inside the drift every tried time is at least the
      entry time, and past it the skip test rules such times out. */
  lemma V1ProbesPassAgeTest(p: KernelParams, H: Hasher, target: Hash256, view: SearchView,
                            modifier: uint64, timeBlockFrom: uint32, prevout: OutPoint, value: int64,
                            timeTx: uint32, hashIn: Hash256,
                            ok: bool, timeTxOut: uint32, hashOut: Hash256, tried: seq<nat>, reached: nat)
    requires ValidParams(p)
    requires SearchV1Outcome(p, H, target, view, modifier, timeBlockFrom, prevout, value, timeTx, hashIn,
                             ok, timeTxOut, hashOut, tried, reached)
    requires AgeOk(p, timeBlockFrom, timeTx) && timeTx + p.maxFutureDrift < TWO_32
    ensures forall j | 0 <= j < |tried| :: AgeOk(p, timeBlockFrom, TryTimeV1(p, timeTx, tried[j]))
  {
    var n := if ok then reached + 1 else reached;
    HashedIndicesExactly(p, timeBlockFrom, timeTx, n);
    forall j | 0 <= j < |tried|
      ensures AgeOk(p, timeBlockFrom, TryTimeV1(p, timeTx, tried[j]))
    {
      var i := tried[j];
      assert !SkippedV1(p, timeBlockFrom, timeTx, i);
      if i <= p.maxFutureDrift {
        AgeOkLater(p, timeBlockFrom, timeTx, TryTimeV1(p, timeTx, i));
      }
    }
  }

  /** Without wrap-around, the V1 search tries strictly decreasing times,
      from the end of the drift window back into the past. */
  lemma V1ProbesDescend(p: KernelParams, H: Hasher, target: Hash256, view: SearchView,
                        modifier: uint64, timeBlockFrom: uint32, prevout: OutPoint, value: int64,
                        timeTx: uint32, hashIn: Hash256,
                        ok: bool, timeTxOut: uint32, hashOut: Hash256, tried: seq<nat>, reached: nat)
    requires ValidParams(p)
    requires SearchV1Outcome(p, H, target, view, modifier, timeBlockFrom, prevout, value, timeTx, hashIn,
                             ok, timeTxOut, hashOut, tried, reached)
    requires 99 <= timeTx && timeTx + p.maxFutureDrift < TWO_32
    ensures forall a, b | 0 <= a < b < |tried| ::
      TryTimeV1(p, timeTx, tried[a]) > TryTimeV1(p, timeTx, tried[b])
  {
    var n := if ok then reached + 1 else reached;
    HashedIndicesExactly(p, timeBlockFrom, timeTx, n);
    forall a, b | 0 <= a < b < |tried|
      ensures TryTimeV1(p, timeTx, tried[a]) > TryTimeV1(p, timeTx, tried[b])
    {
      assert tried[a] < tried[b] < n <= p.maxFutureDrift + 99;
    }
  }

  // ---------------------------------------------------------- the two checks

  /** A V2 search success whose time passes the age test is accepted by
      check mode at that time. */
  lemma V2SuccessPassesCheck(p: KernelParams, H: Hasher, target: Hash256, view: SearchView,
                             modifierV2: Hash256, timeBlockFrom: uint32, prevout: OutPoint, value: int64,
                             timeTx: uint32, hashIn: Hash256,
                             ok: bool, timeTxOut: uint32, hashOut: Hash256, tried: seq<uint32>)
    requires ValidParams(p)
    requires SearchV2Outcome(p, H, target, view, modifierV2, timeBlockFrom, prevout, value, timeTx, hashIn,
                             ok, timeTxOut, hashOut, tried)
    requires ok && AgeOk(p, timeBlockFrom, timeTxOut)
    ensures KernelCheckV2(p, H, target, modifierV2, timeBlockFrom, prevout, value, timeTxOut)
  {
    var rounded := RoundDown(timeTx, p.stakeInterval);
    assert ProbesV2(p, H, target, view, modifierV2, timeBlockFrom, prevout, value,
                    rounded, HashingStartV2(p, view, rounded), hashIn, ok, timeTxOut, hashOut, tried);
    assert tried != [] && timeTxOut == tried[|tried| - 1];
    assert hashOut == KernelHashV2(H, modifierV2, timeBlockFrom, prevout, timeTxOut);
    assert value != 0 by {
      if value == 0 {
        SmallValueNeverHits(hashOut, value, target);
      }
    }
  }

  /** A V1 search success is accepted by check mode at the time it
      returns, when the entry time passes the age test and the window does
      not wrap. */
  lemma V1SuccessPassesCheck(c: Config, p: KernelParams, H: Hasher, target: Hash256,
                             index: map<Hash256, Block>, active: seq<Block>, view: SearchView,
                             blockFrom: BlockHeader, prevout: OutPoint, value: int64,
                             timeTx: uint32, hashIn: Hash256,
                             ok: bool, timeTxOut: uint32, hashOut: Hash256, tried: seq<nat>, reached: nat)
    requires ValidConfig(c) && ValidParams(p) && KernelStakeModifier(c, index, active, blockFrom.hash).Ok?
    requires SearchV1Outcome(p, H, target, view, KernelStakeModifier(c, index, active, blockFrom.hash).value.0,
                             blockFrom.time, prevout, value, timeTx, hashIn, ok, timeTxOut, hashOut, tried, reached)
    requires ok && AgeOk(p, blockFrom.time, timeTx) && timeTx + p.maxFutureDrift < TWO_32
    ensures KernelCheckV1(c, p, H, target, index, active, blockFrom, prevout, value, timeTxOut)
  {
    var modifier := KernelStakeModifier(c, index, active, blockFrom.hash).value.0;
    V1ProbesPassAgeTest(p, H, target, view, modifier, blockFrom.time, prevout, value, timeTx, hashIn,
                        ok, timeTxOut, hashOut, tried, reached);
    assert AgeOk(p, blockFrom.time, TryTimeV1(p, timeTx, tried[|tried| - 1]));
    assert value != 0 by {
      if value == 0 {
        SmallValueNeverHits(hashOut, value, target);
      }
    }
  }

  /** CheckStakeKernelHashV2 (kernel.cpp:290-371). The ordered preconditions
      reject first, leaving the time and hash untouched; check mode hashes
      the given time once; search mode runs the V2 search. */
  method CheckStakeKernelHashV2(p: KernelParams, H: Hasher, setCompact: uint32 -> Hash256, view: SearchView,
                                nBits: uint32, prev: Block, timeBlockFrom: uint32, txPrev: Transaction,
                                prevout: OutPoint, timeTx: uint32, fCheck: bool, hashIn: Hash256)
    returns (ok: bool, timeTxOut: uint32, hashOut: Hash256, ghost tried: seq<uint32>)
    requires ValidParams(p) && prevout.n < |txPrev.vout|
    ensures var value := txPrev.vout[prevout.n].value;
      PreconditionFailure(p, timeBlockFrom, timeTx, value).Some? ==> !ok && timeTxOut == timeTx && hashOut == hashIn
    ensures fCheck ==> timeTxOut == timeTx && ok == KernelCheckV2(p, H, setCompact(nBits), prev.modifierV2,
                                                                 timeBlockFrom, prevout, txPrev.vout[prevout.n].value, timeTx)
    ensures fCheck && PreconditionFailure(p, timeBlockFrom, timeTx, txPrev.vout[prevout.n].value) == None ==>
      hashOut == KernelHashV2(H, prev.modifierV2, timeBlockFrom, prevout, timeTx)
    ensures !fCheck && PreconditionFailure(p, timeBlockFrom, timeTx, txPrev.vout[prevout.n].value) == None ==>
      SearchV2Outcome(p, H, setCompact(nBits), view, prev.modifierV2, timeBlockFrom, prevout,
                      txPrev.vout[prevout.n].value, timeTx, hashIn, ok, timeTxOut, hashOut, tried)
    ensures !fCheck && ok && AgeOk(p, timeBlockFrom, timeTxOut) ==>
      KernelCheckV2(p, H, setCompact(nBits), prev.modifierV2, timeBlockFrom, prevout,
                    txPrev.vout[prevout.n].value, timeTxOut)
  {
    var value := txPrev.vout[prevout.n].value;
    ok, timeTxOut, hashOut, tried := false, timeTx, hashIn, [];
    if timeTx < timeBlockFrom {
      return;
    }
    if U32(timeBlockFrom + p.stakeMinAge) > timeTx {
      return;
    }
    if value == 0 {
      return;
    }
    var target := setCompact(nBits);
    if fCheck {
      hashOut := KernelHashV2(H, prev.modifierV2, timeBlockFrom, prevout, timeTx);
      ok := StakeTargetHit(hashOut, value, target);
      return;
    }
    ok, timeTxOut, hashOut, tried :=
      SearchKernelV2(p, H, target, view, prev.modifierV2, timeBlockFrom, prevout, value, timeTx, hashIn);
  }

  /** CheckStakeKernelHash (kernel.cpp:382-453). After the ordered
      preconditions it looks up the kernel stake modifier of the source
      block, then either hashes the given time once or runs the V1 search. */
  method CheckStakeKernelHash(c: Config, p: KernelParams, H: Hasher, setCompact: uint32 -> Hash256,
                              index: map<Hash256, Block>, active: seq<Block>, view: SearchView,
                              nBits: uint32, blockFrom: BlockHeader, txPrev: Transaction,
                              prevout: OutPoint, timeTx: uint32, fCheck: bool, hashIn: Hash256)
    returns (ok: bool, timeTxOut: uint32, hashOut: Hash256, ghost tried: seq<nat>, ghost reached: nat)
    requires ValidConfig(c) && IsHeightIndexed(active) && ValidParams(p) && prevout.n < |txPrev.vout|
    ensures PreconditionFailure(p, blockFrom.time, timeTx, txPrev.vout[prevout.n].value).Some?
            || KernelStakeModifier(c, index, active, blockFrom.hash).Err? ==>
      !ok && timeTxOut == timeTx && hashOut == hashIn
    ensures fCheck ==> timeTxOut == timeTx && ok == KernelCheckV1(c, p, H, setCompact(nBits), index, active,
                                                                 blockFrom, prevout, txPrev.vout[prevout.n].value, timeTx)
    ensures fCheck && PreconditionFailure(p, blockFrom.time, timeTx, txPrev.vout[prevout.n].value) == None
            && KernelStakeModifier(c, index, active, blockFrom.hash).Ok? ==>
      hashOut == KernelHashV1(H, KernelStakeModifier(c, index, active, blockFrom.hash).value.0,
                              blockFrom.time, prevout, timeTx)
    ensures !fCheck && PreconditionFailure(p, blockFrom.time, timeTx, txPrev.vout[prevout.n].value) == None
            && KernelStakeModifier(c, index, active, blockFrom.hash).Ok? ==>
      SearchV1Outcome(p, H, setCompact(nBits), view, KernelStakeModifier(c, index, active, blockFrom.hash).value.0,
                      blockFrom.time, prevout, txPrev.vout[prevout.n].value, timeTx, hashIn,
                      ok, timeTxOut, hashOut, tried, reached)
    ensures !fCheck && ok && timeTx + p.maxFutureDrift < TWO_32 ==>
      KernelCheckV1(c, p, H, setCompact(nBits), index, active, blockFrom, prevout,
                    txPrev.vout[prevout.n].value, timeTxOut)
  {
    var value := txPrev.vout[prevout.n].value;
    var timeBlockFrom := blockFrom.time;
    ok, timeTxOut, hashOut, tried, reached := false, timeTx, hashIn, [], 0;
    if timeTx < timeBlockFrom {
      return;
    }
    if U32(timeBlockFrom + p.stakeMinAge) > timeTx {
      return;
    }
    if value == 0 {
      return;
    }
    assert PreconditionFailure(p, timeBlockFrom, timeTx, value) == None;
    var target := setCompact(nBits);
    var kernelModifier := GetKernelStakeModifier(c, index, active, blockFrom.hash);
    if kernelModifier.Err? {
      return;
    }
    var modifier := kernelModifier.value.0;
    if fCheck {
      hashOut := StakeHash(H, timeTx, ModifierStream(modifier), prevout.n, prevout.hash, timeBlockFrom);
      ok := StakeTargetHit(hashOut, value, target);
      return;
    }
    ok, timeTxOut, hashOut, tried, reached :=
      SearchKernelV1(p, H, target, view, modifier, timeBlockFrom, prevout, value, timeTx, hashIn);
    if ok && timeTx + p.maxFutureDrift < TWO_32 {
      V1SuccessPassesCheck(c, p, H, target, index, active, view, blockFrom, prevout, value, timeTx, hashIn,
                           ok, timeTxOut, hashOut, tried, reached);
    }
  }
}
