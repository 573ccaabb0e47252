/** The block index as the kernel sees it, and the two walks over it: back
    to the last modifier generation (kernel.cpp:40-51) and forward to the
    modifier that a coin hashes with (kernel.cpp:242-277).

    A `CBlockIndex*` whose `pprev` links are followed is modelled by the
    sequence of its ancestors ending with it: `chain[k]`'s `pprev` is
    `chain[k - 1]`, `chain[0]` has none, and the null pointer is `[]`. The
    active chain is a sequence indexed by height and `mapBlockIndex` a map
    from block hash to record. */
module ChainIndex {
  import opened Common
  import opened Intervals

  /** The fields of `CBlockIndex` the kernel reads. */
  datatype Block = Block(
    height: nat,
    time: uint32,
    hash: Hash256,
    generated: bool,    // GeneratedStakeModifier()
    modifier: uint64,     // nStakeModifier
    modifierV2: Hash256,
    entropyBit: bool,   // GetStakeEntropyBit()
    isPoS: bool)        // IsProofOfStake()

  /** `chainActive`: the block at index `h` has height `h`. */
  predicate IsHeightIndexed(active: seq<Block>)
  {
    forall h | 0 <= h < |active| :: active[h].height == h
  }

  datatype LastModifierError = NullIndex | NoGenerationAtGenesis

  /** The highest index below `n` whose block generated a modifier. */
  function NearestGenerated(chain: seq<Block>, n: nat): (r: Option<nat>)
    requires n <= |chain|
    ensures r.Some? ==> r.value < n && chain[r.value].generated
    ensures r.Some? ==> forall j | r.value < j < n :: !chain[j].generated
    ensures r.None? ==> forall j | 0 <= j < n :: !chain[j].generated
  {
    if n == 0 then None
    else if chain[n - 1].generated then Some(n - 1)
    else NearestGenerated(chain, n - 1)
  }

  /** What GetLastStakeModifier computes: the modifier and time of the
      nearest ancestor-or-self that generated a modifier, the walk stopping
      at the block without a predecessor. */
  function LastStakeModifier(chain: seq<Block>): (r: Result<(uint64, uint32), LastModifierError>)
    ensures chain == [] <==> r == Err(NullIndex)
    ensures r.Ok? <==> exists k | 0 <= k < |chain| :: chain[k].generated
    ensures r.Ok? ==> exists k | 0 <= k < |chain| ::
      && chain[k].generated
      && (forall j | k < j < |chain| :: !chain[j].generated)
      && r.value == (chain[k].modifier, chain[k].time)
  {
    if chain == [] then Err(NullIndex)
    else match NearestGenerated(chain, |chain|)
      case None => Err(NoGenerationAtGenesis)
      case Some(k) => Ok((chain[k].modifier, chain[k].time))
  }

  /** GetLastStakeModifier (kernel.cpp:40-51): walks `pprev` from the given
      block until a generating block or the genesis block. */
  method GetLastStakeModifier(chain: seq<Block>) returns (r: Result<(uint64, uint32), LastModifierError>)
    ensures r == LastStakeModifier(chain)
  {
    if chain == [] {
      return Err(NullIndex);
    }
    var k := |chain| - 1;
    while k > 0 && !chain[k].generated
      invariant 0 <= k < |chain|
      invariant NearestGenerated(chain, k + 1) == NearestGenerated(chain, |chain|)
    {
      k := k - 1;
    }
    if !chain[k].generated {
      return Err(NoGenerationAtGenesis);
    }
    r := Ok((chain[k].modifier, chain[k].time));
  }

  /** The first height at or after `from` whose block generated a modifier
      at or after `threshold`. */
  function FirstModifierAtOrAfter(active: seq<Block>, from: nat, threshold: int): (r: Option<nat>)
    ensures r.Some? ==> from <= r.value < |active| && active[r.value].generated && active[r.value].time >= threshold
    ensures r.Some? ==> forall j | from <= j < r.value :: !(active[j].generated && active[j].time >= threshold)
    ensures r.None? ==> forall j | from <= j < |active| :: !(active[j].generated && active[j].time >= threshold)
    decreases |active| - from
  {
    if from >= |active| then None
    else if active[from].generated && active[from].time >= threshold then Some(from)
    else FirstModifierAtOrAfter(active, from + 1, threshold)
  }

  datatype KernelModifierError = NotIndexed | RanOffActiveChain

  /** The V1 modifier a coin from block `hashFrom` hashes with: the one
      generated by the first later active block at least one selection
      interval younger than the source block. The result carries the
      modifier and the height and time of the block that generated it. */
  function KernelStakeModifier(c: Config, index: map<Hash256, Block>, active: seq<Block>,
                               hashFrom: Hash256): (r: Result<(uint64, int, int), KernelModifierError>)
    requires ValidConfig(c)
  {
    if hashFrom !in index then Err(NotIndexed)
    else
      var from := index[hashFrom];
      var threshold := from.time + SumSections(c, 64);
      if from.time >= threshold then Ok((from.modifier, from.height, from.time))
      else match FirstModifierAtOrAfter(active, from.height + 1, threshold)
        case None => Err(RanOffActiveChain)
        case Some(k) => Ok((active[k].modifier, active[k].height, active[k].time))
  }

  /** What the kernel modifier is, in terms of the chain: it fails exactly
      when the source is unindexed or no later active block generated a
      modifier a selection interval after the source block, and otherwise
      is the modifier, height and time of the first such block. */
  lemma KernelStakeModifierIsFirstLaterGeneration(c: Config, index: map<Hash256, Block>, active: seq<Block>,
                                                  hashFrom: Hash256)
    requires ValidConfig(c) && IsHeightIndexed(active)
    requires IntervalVersion(c) * 63 < TWO_32
    ensures hashFrom !in index ==> KernelStakeModifier(c, index, active, hashFrom) == Err(NotIndexed)
    ensures hashFrom in index ==>
      var from := index[hashFrom];
      var threshold := from.time + SumSections(c, 64);
      && (KernelStakeModifier(c, index, active, hashFrom).Err? <==>
            forall k | from.height < k < |active| :: !(active[k].generated && active[k].time >= threshold))
      && (KernelStakeModifier(c, index, active, hashFrom).Ok? ==>
            exists k | from.height < k < |active| ::
              && active[k].generated && active[k].time >= threshold
              && (forall j | from.height < j < k :: !(active[j].generated && active[j].time >= threshold))
              && KernelStakeModifier(c, index, active, hashFrom).value == (active[k].modifier, k, active[k].time))
  {
    SelectionIntervalBounds(c);
    if hashFrom in index {
      var from := index[hashFrom];
      var threshold := from.time + SumSections(c, 64);
      var first := FirstModifierAtOrAfter(active, from.height + 1, threshold);
      if first.Some? {
        var k := first.value;
        assert active[k].height == k;
      }
    }
  }

  /** GetKernelStakeModifier (kernel.cpp:242-277): looks the source block up
      in the block index, then walks the active chain forward from the next
      height, remembering the last generating block, until that block is a
      selection interval younger than the source. */
  method GetKernelStakeModifier(c: Config, index: map<Hash256, Block>, active: seq<Block>, hashFrom: Hash256)
    returns (r: Result<(uint64, int, int), KernelModifierError>)
    requires ValidConfig(c) && IsHeightIndexed(active)
    ensures r == KernelStakeModifier(c, index, active, hashFrom)
  {
    if hashFrom !in index {
      return Err(NotIndexed);
    }
    var from := index[hashFrom];
    var modifierHeight: int := from.height;
    var modifierTime: int := from.time;
    var interval := GetStakeModifierSelectionInterval(c);
    var cur := from;
    var next := from.height + 1;
    ghost var threshold := from.time + interval;
    ghost var first := FirstModifierAtOrAfter(active, from.height + 1, threshold);
    while modifierTime < from.time + interval
      invariant from.height + 1 <= next
      invariant next > from.height + 1 ==> from.time < threshold && next <= |active| && cur == active[next - 1]
      invariant next == from.height + 1 ==> cur == from && modifierHeight == from.height && modifierTime == from.time
      invariant modifierTime < threshold ==> FirstModifierAtOrAfter(active, next, threshold) == first
      invariant modifierTime >= threshold && next > from.height + 1 ==>
        first == Some(next - 1) && modifierHeight == cur.height && modifierTime == cur.time
      decreases |active| + 1 - next
    {
      if next >= |active| {
        return Err(RanOffActiveChain);
      }
      cur := active[next];
      assert cur.height == next;
      next := cur.height + 1;
      if cur.generated {
        modifierHeight := cur.height;
        modifierTime := cur.time;
      }
    }
    r := Ok((cur.modifier, modifierHeight, modifierTime));
  }
}
