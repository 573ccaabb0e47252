/** Block-level proof-of-stake validation (kernel.cpp:455-511): the ordered
    checks a coinstake block must pass before its kernel is tested, and the
    choice between the V1 and V2 kernel protocols by block height. */
module ProofOfStake {
  import opened Common
  import opened Serial
  import opened Intervals
  import opened ChainIndex
  import opened Kernel

  /** The fields of `CBlock` the check reads: `nTime`, `nBits` and `vtx`. */
  datatype StakedBlock = StakedBlock(time: uint32, bits: uint32, vtx: seq<Transaction>)

  /** Everything outside the block that the check consults.
      `getTransaction` is `GetTransaction` (the previous transaction and the
      hash of the block holding it), `verifyScript` is `VerifyScript` of a
      signature script against an output script for input 0 of a
      transaction, `index` is `mapBlockIndex`, `readBlock` is
      `ReadBlockFromDisk` of an indexed block, `sporkProtocol2` is
      `GetSporkValue(SPORK_13_STAKING_PROTOCOL_2)`, and `active` and `view`
      are the chain state the kernel checks read. */
  datatype Env = Env(
    c: Config,
    p: KernelParams,
    H: Hasher,
    setCompact: uint32 -> Hash256,
    getTransaction: Hash256 -> Option<(Transaction, Hash256)>,
    verifyScript: (seq<byte>, seq<byte>, Transaction) -> bool,
    index: map<Hash256, Block>,
    readBlock: Block -> Option<BlockHeader>,
    active: seq<Block>,
    view: SearchView,
    sporkProtocol2: int)

  predicate ValidEnv(env: Env)
  {
    ValidConfig(env.c) && ValidParams(env.p) && IsHeightIndexed(env.active)
  }

  /** `IsCoinStake()`: the output-shape test plus a first input to read. */
  predicate IsCoinStake(tx: Transaction)
  {
    |tx.vin| > 0 && tx.coinStakeShape
  }

  /** The staking protocol switch of kernel.cpp:493. */
  predicate UsesProtocolV2(env: Env, pindexPrev: Block)
  {
    pindexPrev.height + 1 >= env.sporkProtocol2
  }

  datatype PosReject =
    | NotCoinStake
    | TxPrevNotFound
    | OutputIndexOutOfRange
    | BadSignature
    | BlockNotIndexed
    | BlockNotOnDisk
    | PrevoutMismatch
    | KernelFailed

  /** What the checks before the kernel gather: the kernel input, the
      transaction it spends and the header of the block holding that
      transaction. */
  datatype StakeInput = StakeInput(txin: TxIn, txPrev: Transaction, blockFrom: BlockHeader)

  /** The checks of kernel.cpp:458-490, in order. */
  function StakeInputs(env: Env, block: StakedBlock): (r: Result<StakeInput, PosReject>)
    requires |block.vtx| >= 2
    ensures r.Ok? ==> IsCoinStake(block.vtx[1]) && r.value.txin == block.vtx[1].vin[0]
    ensures r.Ok? ==> r.value.txin.prevout.n < |r.value.txPrev.vout|
    ensures r.Ok? ==> r.value.txPrev.hash == r.value.txin.prevout.hash
  {
    var tx := block.vtx[1];
    if !IsCoinStake(tx) then Err(NotCoinStake)
    else
      var txin := tx.vin[0];
      var found := env.getTransaction(txin.prevout.hash);
      if found.None? then Err(TxPrevNotFound)
      else
        var txPrev := found.value.0;
        var hashBlock := found.value.1;
        if txin.prevout.n >= |txPrev.vout| then Err(OutputIndexOutOfRange)
        else if !env.verifyScript(txin.scriptSig, txPrev.vout[txin.prevout.n].scriptPubKey, tx) then Err(BadSignature)
        else if hashBlock !in env.index then Err(BlockNotIndexed)
        else
          var read := env.readBlock(env.index[hashBlock]);
          if read.None? then Err(BlockNotOnDisk)
          else if txin.prevout.hash != txPrev.hash then Err(PrevoutMismatch)
          else Ok(StakeInput(txin, txPrev, read.value))
  }

  /** The amount staked by the kernel input. */
  function StakedValue(inp: StakeInput): (v: int64)
    requires inp.txin.prevout.n < |inp.txPrev.vout|
  {
    inp.txPrev.vout[inp.txin.prevout.n].value
  }

  /** The check-mode kernel test of kernel.cpp:493-502 at the block time. */
  predicate KernelAccepts(env: Env, block: StakedBlock, pindexPrev: Block, inp: StakeInput)
    requires ValidEnv(env) && inp.txin.prevout.n < |inp.txPrev.vout|
  {
    var target := env.setCompact(block.bits);
    if UsesProtocolV2(env, pindexPrev) then
      KernelCheckV2(env.p, env.H, target, pindexPrev.modifierV2, inp.blockFrom.time, inp.txin.prevout,
                    StakedValue(inp), block.time)
    else
      KernelCheckV1(env.c, env.p, env.H, target, env.index, env.active, inp.blockFrom, inp.txin.prevout,
                    StakedValue(inp), block.time)
  }

  /** The verdict of CheckProofOfStake (kernel.cpp:456-504): the first
      failing check, or acceptance. */
  function ProofOfStakeVerdict(env: Env, block: StakedBlock, pindexPrev: Block): (r: Result<(), PosReject>)
    requires ValidEnv(env) && |block.vtx| >= 2
    ensures r.Ok? <==> StakeInputs(env, block).Ok? && KernelAccepts(env, block, pindexPrev, StakeInputs(env, block).value)
    ensures StakeInputs(env, block).Err? ==> r == Err(StakeInputs(env, block).error)
  {
    match StakeInputs(env, block)
    case Err(e) => Err(e)
    case Ok(inp) => if KernelAccepts(env, block, pindexPrev, inp) then Ok(()) else Err(KernelFailed)
  }

  /** An accepted block's kernel input spends an existing output of the
      transaction whose hash it names, carries a valid signature, is at
      least the minimum age at the block time and holds a nonzero amount,
      and the hash of the exact kernel byte layout of the selected protocol,
      at the block time, meets the weighted target. */
  lemma AcceptedBlockHitsTarget(env: Env, block: StakedBlock, pindexPrev: Block)
    requires ValidEnv(env) && |block.vtx| >= 2
    requires ProofOfStakeVerdict(env, block, pindexPrev).Ok?
    ensures var tx := block.vtx[1];
      && IsCoinStake(tx)
      && var inp := StakeInputs(env, block).value;
      && var prevout := tx.vin[0].prevout;
      && var found := env.getTransaction(prevout.hash);
      && found.Some? && found.value.0 == inp.txPrev && inp.txPrev.hash == prevout.hash
      && prevout.n < |inp.txPrev.vout|
      && env.verifyScript(tx.vin[0].scriptSig, inp.txPrev.vout[prevout.n].scriptPubKey, tx)
      && AgeOk(env.p, inp.blockFrom.time, block.time)
      && inp.txPrev.vout[prevout.n].value != 0
      && var value, target := inp.txPrev.vout[prevout.n].value, env.setCompact(block.bits);
      && (UsesProtocolV2(env, pindexPrev) ==>
            StakeTargetHit(env.H(KernelV2Preimage(pindexPrev.modifierV2, inp.blockFrom.time, prevout.hash,
                                                  prevout.n, block.time)), value, target))
      && (!UsesProtocolV2(env, pindexPrev) ==>
            && KernelStakeModifier(env.c, env.index, env.active, inp.blockFrom.hash).Ok?
            && var modifier := KernelStakeModifier(env.c, env.index, env.active, inp.blockFrom.hash).value.0;
            StakeTargetHit(env.H(KernelV1Preimage(modifier, inp.blockFrom.time, prevout.n, prevout.hash,
                                                  block.time)), value, target))
  {
    var inp := StakeInputs(env, block).value;
    var prevout := inp.txin.prevout;
    if !UsesProtocolV2(env, pindexPrev) {
      var modifier := KernelStakeModifier(env.c, env.index, env.active, inp.blockFrom.hash).value.0;
      StakeHashIsKernelV1(env.H, modifier, block.time, prevout, inp.blockFrom.time);
    }
  }

  /** Above the protocol switch, the verdict does not depend on the V1
      modifier state (the active chain and the interval constants). */
  lemma ProtocolV2IgnoresV1State(env: Env, block: StakedBlock, pindexPrev: Block, c: Config, active: seq<Block>)
    requires ValidEnv(env) && |block.vtx| >= 2 && UsesProtocolV2(env, pindexPrev)
    requires ValidConfig(c) && IsHeightIndexed(active)
    ensures ProofOfStakeVerdict(env.(c := c, active := active), block, pindexPrev)
         == ProofOfStakeVerdict(env, block, pindexPrev)
  {
    var env2 := env.(c := c, active := active);
    assert StakeInputs(env2, block) == StakeInputs(env, block);
  }

  /** Below the protocol switch, the verdict does not depend on the previous
      block's V2 modifier. */
  lemma ProtocolV1IgnoresModifierV2(env: Env, block: StakedBlock, pindexPrev: Block, modifierV2: Hash256)
    requires ValidEnv(env) && |block.vtx| >= 2 && !UsesProtocolV2(env, pindexPrev)
    ensures ProofOfStakeVerdict(env, block, pindexPrev.(modifierV2 := modifierV2))
         == ProofOfStakeVerdict(env, block, pindexPrev)
  {
  }

  /** CheckProofOfStake (kernel.cpp:456-504). Runs the checks in order,
      returning at the first failure, then tests the kernel in check mode at
      the block time with the protocol chosen by height. `hashOut` is
      `hashProofOfStake` after the call. */
  method CheckProofOfStake(env: Env, block: StakedBlock, pindexPrev: Block, hashIn: Hash256)
    returns (r: Result<(), PosReject>, hashOut: Hash256)
    requires ValidEnv(env) && |block.vtx| >= 2
    ensures r == ProofOfStakeVerdict(env, block, pindexPrev)
    ensures StakeInputs(env, block).Err? ==> hashOut == hashIn
    ensures r.Ok? ==>
      var inp := StakeInputs(env, block).value;
      && StakeTargetHit(hashOut, StakedValue(inp), env.setCompact(block.bits))
      && (UsesProtocolV2(env, pindexPrev) ==>
            hashOut == KernelHashV2(env.H, pindexPrev.modifierV2, inp.blockFrom.time, inp.txin.prevout, block.time))
      && (!UsesProtocolV2(env, pindexPrev) ==>
            hashOut == KernelHashV1(env.H, KernelStakeModifier(env.c, env.index, env.active, inp.blockFrom.hash).value.0,
                                    inp.blockFrom.time, inp.txin.prevout, block.time))
  {
    hashOut := hashIn;
    var tx := block.vtx[1];
    if !IsCoinStake(tx) {
      r := Err(NotCoinStake);
      return;
    }
    var txin := tx.vin[0];
    var found := env.getTransaction(txin.prevout.hash);
    if found.None? {
      r := Err(TxPrevNotFound);
      return;
    }
    var txPrev := found.value.0;
    var hashBlock := found.value.1;
    if txin.prevout.n >= |txPrev.vout| {
      r := Err(OutputIndexOutOfRange);
      return;
    }
    if !env.verifyScript(txin.scriptSig, txPrev.vout[txin.prevout.n].scriptPubKey, tx) {
      r := Err(BadSignature);
      return;
    }
    if hashBlock !in env.index {
      r := Err(BlockNotIndexed);
      return;
    }
    var read := env.readBlock(env.index[hashBlock]);
    if read.None? {
      r := Err(BlockNotOnDisk);
      return;
    }
    var blockFrom := read.value;
    if txin.prevout.hash != txPrev.hash {
      r := Err(PrevoutMismatch);
      return;
    }
    var nTime := block.time;
    var ok, timeOut;
    if pindexPrev.height + 1 >= env.sporkProtocol2 {
      ghost var tried;
      ok, timeOut, hashOut, tried := CheckStakeKernelHashV2(env.p, env.H, env.setCompact, env.view, block.bits,
                                                            pindexPrev, blockFrom.time, txPrev, txin.prevout,
                                                            nTime, true, hashOut);
    } else {
      ghost var tried, reached;
      ok, timeOut, hashOut, tried, reached := CheckStakeKernelHash(env.c, env.p, env.H, env.setCompact, env.index,
                                                                   env.active, env.view, block.bits, blockFrom,
                                                                   txPrev, txin.prevout, nTime, true, hashOut);
    }
    if !ok {
      r := Err(KernelFailed);
      return;
    }
    r := Ok(());
  }

  /** CheckCoinStakeTimestamp (kernel.cpp:507-511), protocol v0.3: the
      coinstake's timestamp must be the block's. */
  predicate CheckCoinStakeTimestamp(timeBlock: int64, timeTx: int64)
  {
    timeBlock == timeTx
  }

  /** A staker that stamps its block with the time a V2 search returned,
      so that the coinstake timestamp rule holds, has that block accepted
      once its inputs pass, provided the returned time passes the age test
      (rounding may break it: `Kernel.RoundingCanUnderrunMinAge`). */
  lemma SearchedTimeAcceptedV2(env: Env, block: StakedBlock, pindexPrev: Block, inp: StakeInput,
                               timeTx: uint32, hashIn: Hash256,
                               ok: bool, timeTxOut: uint32, hashOut: Hash256, tried: seq<uint32>)
    requires ValidEnv(env) && |block.vtx| >= 2 && StakeInputs(env, block) == Ok(inp)
    requires UsesProtocolV2(env, pindexPrev)
    requires SearchV2Outcome(env.p, env.H, env.setCompact(block.bits), env.view, pindexPrev.modifierV2,
                             inp.blockFrom.time, inp.txin.prevout, StakedValue(inp), timeTx, hashIn,
                             ok, timeTxOut, hashOut, tried)
    requires ok && AgeOk(env.p, inp.blockFrom.time, timeTxOut)
    requires CheckCoinStakeTimestamp(block.time, timeTxOut)
    ensures ProofOfStakeVerdict(env, block, pindexPrev).Ok?
  {
    V2SuccessPassesCheck(env.p, env.H, env.setCompact(block.bits), env.view, pindexPrev.modifierV2,
                         inp.blockFrom.time, inp.txin.prevout, StakedValue(inp), timeTx, hashIn,
                         ok, timeTxOut, hashOut, tried);
    assert KernelAccepts(env, block, pindexPrev, inp);
  }

  /** The same for the V1 search: a block stamped with the time it returned
      is accepted once its inputs pass, when the entry time passes the age
      test and the time window does not wrap. */
  lemma SearchedTimeAcceptedV1(env: Env, block: StakedBlock, pindexPrev: Block, inp: StakeInput,
                               timeTx: uint32, hashIn: Hash256,
                               ok: bool, timeTxOut: uint32, hashOut: Hash256, tried: seq<nat>, reached: nat)
    requires ValidEnv(env) && |block.vtx| >= 2 && StakeInputs(env, block) == Ok(inp)
    requires !UsesProtocolV2(env, pindexPrev)
    requires KernelStakeModifier(env.c, env.index, env.active, inp.blockFrom.hash).Ok?
    requires SearchV1Outcome(env.p, env.H, env.setCompact(block.bits), env.view,
                             KernelStakeModifier(env.c, env.index, env.active, inp.blockFrom.hash).value.0,
                             inp.blockFrom.time, inp.txin.prevout, StakedValue(inp), timeTx, hashIn,
                             ok, timeTxOut, hashOut, tried, reached)
    requires ok && AgeOk(env.p, inp.blockFrom.time, timeTx) && timeTx + env.p.maxFutureDrift < TWO_32
    requires CheckCoinStakeTimestamp(block.time, timeTxOut)
    ensures ProofOfStakeVerdict(env, block, pindexPrev).Ok?
  {
    V1SuccessPassesCheck(env.c, env.p, env.H, env.setCompact(block.bits), env.index, env.active, env.view,
                         inp.blockFrom, inp.txin.prevout, StakedValue(inp), timeTx, hashIn,
                         ok, timeTxOut, hashOut, tried, reached);
    assert KernelAccepts(env, block, pindexPrev, inp);
  }
}
