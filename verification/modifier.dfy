/** Stake modifier generation (kernel.cpp:136-240): the V2 modifier chains a
    hash through the blocks; the V1 modifier is regenerated once per
    modifier interval from 64 entropy bits, one per selection round. */
module StakeModifier {
  import opened Common
  import opened Arith
  import opened Serial
  import opened Intervals
  import opened ChainIndex
  import opened Selection

  /** ComputeStakeModifierV2 (kernel.cpp:136-144): zero without a previous
      block, otherwise the hash of the kernel and the previous V2 modifier. */
  function ComputeStakeModifierV2(H: Hasher, prev: Option<Block>, kernel: Hash256): (r: Hash256)
    ensures prev.None? ==> r == 0
    ensures prev.Some? ==> r == H(ModifierV2Preimage(kernel, prev.value.modifierV2))
  {
    match prev
    case None => 0
    case Some(p) => H(ModifierV2Preimage(kernel, p.modifierV2))
  }

  /** The V2 modifier commits to both of its inputs: two blocks whose kernels
      or predecessors' modifiers differ can share a V2 modifier only through
      a collision of the hash on two distinct byte strings. */
  lemma ModifierV2Binding(H: Hasher, p1: Block, k1: Hash256, p2: Block, k2: Hash256)
    requires k1 != k2 || p1.modifierV2 != p2.modifierV2
    requires ComputeStakeModifierV2(H, Some(p1), k1) == ComputeStakeModifierV2(H, Some(p2), k2)
    ensures ModifierV2Preimage(k1, p1.modifierV2) != ModifierV2Preimage(k2, p2.modifierV2)
    ensures H(ModifierV2Preimage(k1, p1.modifierV2)) == H(ModifierV2Preimage(k2, p2.modifierV2))
  {
    ModifierV2PreimageFields(k1, p1.modifierV2);
    ModifierV2PreimageFields(k2, p2.modifierV2);
  }

  /** Start of the run of blocks at the end of `chain[..n]` whose time is at
      least `start`: the blocks the candidate walk collects. */
  function RunStart(chain: seq<Block>, start: int, n: nat): (r: nat)
    requires n <= |chain|
    ensures r <= n
    ensures forall i | r <= i < n :: chain[i].time >= start
    ensures r > 0 ==> chain[r - 1].time < start
    decreases n
  {
    if n == 0 || chain[n - 1].time < start then n else RunStart(chain, start, n - 1)
  }

  /** Reverse of a sequence with one more element in front. */
  lemma ReversePrepend(a: Block, t: seq<Block>)
    ensures Reverse([a] + t) == Reverse(t) + [a]
  {
    var u := [a] + t;
    forall k | 0 <= k < |u|
      ensures Reverse(u)[k] == (Reverse(t) + [a])[k]
    {
      ReverseAt(u, k);
      if k < |t| {
        ReverseAt(t, k);
      }
    }
  }

  lemma ReverseReverse(s: seq<Block>)
    ensures Reverse(Reverse(s)) == s
  {
    forall k | 0 <= k < |s|
      ensures Reverse(Reverse(s))[k] == s[k]
    {
      ReverseAt(Reverse(s), k);
      ReverseAt(s, |s| - 1 - k);
    }
  }

  /** The candidate walk (kernel.cpp:180-185): from the previous block back
      through `pprev` while the block time is at least the selection start,
      pushing each block. The result is the collected run, latest first. */
  method CollectCandidates(chain: seq<Block>, start: int) returns (v: seq<Block>)
    ensures v == Reverse(chain[RunStart(chain, start, |chain|)..])
  {
    v := [];
    var j := |chain|;
    while j > 0 && chain[j - 1].time >= start
      invariant 0 <= j <= |chain|
      invariant RunStart(chain, start, |chain|) == RunStart(chain, start, j)
      invariant v == Reverse(chain[j..])
    {
      assert chain[j - 1..] == [chain[j - 1]] + chain[j..];
      ReversePrepend(chain[j - 1], chain[j..]);
      v := v + [chain[j - 1]];
      j := j - 1;
    }
  }

  /** The selection interval starts one selection interval before the start
      of the modifier interval containing the previous block (kernel.cpp:178). */
  function SelectionStart(c: Config, prevTime: int): (r: int)
    requires ValidConfig(c)
    ensures prevTime - IntervalVersion(c) - SumSections(c, 64) < r <= prevTime - SumSections(c, 64)
    ensures (r + SumSections(c, 64)) % IntervalVersion(c) == 0
  {
    var base := IntervalVersion(c);
    var floor := (prevTime / base) * base;
    FloorToMultiple(prevTime, base);
    floor - SumSections(c, 64)
  }

  /** The candidates, as sorted at kernel.cpp:186-188: the run of blocks at
      the end of the chain whose time is at least `start`, in (time, hash)
      order. */
  function Candidates(chain: seq<Block>, start: int): (r: seq<Block>)
    ensures SortedByKey(r)
    ensures multiset(r) == multiset(chain[RunStart(chain, start, |chain|)..])
    ensures forall b | b in r :: b.time >= start
  {
    var run := chain[RunStart(chain, start, |chain|)..];
    var r := SortByTimeHash(run);
    assert forall b | b in r :: b in multiset(run);
    r
  }

  /** The hashes of the picked candidates. */
  function PickedHashes(s: seq<Block>, picks: seq<nat>): (r: set<Hash256>)
    requires forall i | 0 <= i < |picks| :: picks[i] < |s|
    ensures forall i | 0 <= i < |picks| :: s[picks[i]].hash in r
    decreases |picks|
  {
    if picks == [] then {}
    else PickedHashes(s, picks[..|picks| - 1]) + {s[picks[|picks| - 1]].hash}
  }

  /** `picks` are the winners of the first |picks| selection rounds: round
      `r` scans up to `start` plus the first r + 1 sections and excludes the
      blocks picked in earlier rounds. */
  ghost predicate RoundsValid(c: Config, s: seq<Block>, start: int, prevModifier: uint64, H: Hasher, picks: seq<nat>)
    requires ValidConfig(c)
    decreases |picks|
  {
    && |picks| <= 64
    && (forall i | 0 <= i < |picks| :: picks[i] < |s|)
    && (picks != [] ==>
          var r := |picks| - 1;
          && RoundsValid(c, s, start, prevModifier, H, picks[..r])
          && IsWinner(s, PickedHashes(s, picks[..r]), start + SumSections(c, r + 1), prevModifier, H, picks[r]))
  }

  /** A winner of the next round extends a valid run of rounds. */
  lemma RoundsValidExtend(c: Config, s: seq<Block>, start: int, prevModifier: uint64, H: Hasher,
                          picks: seq<nat>, k: nat)
    requires ValidConfig(c) && RoundsValid(c, s, start, prevModifier, H, picks)
    requires |picks| < 64 && k < |s|
    requires IsWinner(s, PickedHashes(s, picks), start + SumSections(c, |picks| + 1), prevModifier, H, k)
    ensures RoundsValid(c, s, start, prevModifier, H, picks + [k])
  {
    var q := picks + [k];
    assert q[..|picks|] == picks;
    assert forall i | 0 <= i < |q| :: q[i] < |s|;
  }

  /** Picking one more block adds its hash to the picked set and its entropy
      bit at the next position of the modifier. */
  lemma PickStep(s: seq<Block>, picks: seq<nat>, k: nat)
    requires (forall i | 0 <= i < |picks| :: picks[i] < |s|) && k < |s|
    ensures PickedHashes(s, picks + [k]) == PickedHashes(s, picks) + {s[k].hash}
    ensures ModifierFromPicks(s, picks + [k]) == ModifierFromPicks(s, picks) + EntropyBit(s[k]) * Pow2(|picks|)
  {
    assert (picks + [k])[..|picks|] == picks;
  }

  /** The state the selection loop keeps after `|picks|` rounds: the winners
      so far, the stop time reached, the picked hashes and the bits written. */
  ghost predicate RoundsState(c: Config, s: seq<Block>, start: int, prevModifier: uint64, H: Hasher,
                              picks: seq<nat>, stop: int, picked: set<Hash256>, modifier: int)
    requires ValidConfig(c)
  {
    && RoundsValid(c, s, start, prevModifier, H, picks)
    && stop == start + SumSections(c, |picks|)
    && picked == PickedHashes(s, picks)
    && modifier == ModifierFromPicks(s, picks)
  }

  /** One selection round advances the loop state. */
  lemma RoundStep(c: Config, s: seq<Block>, start: int, prevModifier: uint64, H: Hasher,
                  picks: seq<nat>, stop: int, picked: set<Hash256>, modifier: int, k: nat)
    requires ValidConfig(c) && RoundsState(c, s, start, prevModifier, H, picks, stop, picked, modifier)
    requires |picks| < 64 && k < |s|
    requires IsWinner(s, picked, stop + Section(c, |picks|), prevModifier, H, k)
    ensures RoundsState(c, s, start, prevModifier, H, picks + [k], stop + Section(c, |picks|),
                        picked + {s[k].hash}, modifier + EntropyBit(s[k]) * Pow2(|picks|))
  {
    assert start + SumSections(c, |picks| + 1) == stop + Section(c, |picks|);
    assert PickedHashes(s, picks) == picked;
    RoundsValidExtend(c, s, start, prevModifier, H, picks, k);
    PickStep(s, picks, k);
  }

  /** `GetStakeEntropyBit()` as the number 0 or 1. */
  function EntropyBit(b: Block): (r: nat)
    ensures r <= 1
    ensures r == 1 <==> b.entropyBit
  {
    if b.entropyBit then 1 else 0
  }

  function Pow2(k: nat): (r: nat)
    ensures r >= 1
  {
    if k == 0 then 1 else 2 * Pow2(k - 1)
  }

  lemma {:induction false} Pow2Monotone(j: nat, k: nat)
    requires j <= k
    ensures Pow2(j) <= Pow2(k)
    decreases k
  {
    if j < k {
      Pow2Monotone(j, k - 1);
    }
  }

  lemma {:induction false} Pow2Split(j: nat, k: nat)
    requires j <= k
    ensures Pow2(k) == Pow2(j) * Pow2(k - j)
    decreases k
  {
    if j < k {
      Pow2Split(j, k - 1);
      assert Pow2(k - j) == 2 * Pow2(k - 1 - j);
    }
  }

  lemma Pow2Of64()
    ensures Pow2(64) == TWO_64
  {
    assert Pow2(8) == 0x100;
    assert Pow2(16) == 0x1_0000;
    assert Pow2(24) == 0x100_0000;
    assert Pow2(32) == 0x1_0000_0000;
    assert Pow2(40) == 0x100_0000_0000;
    assert Pow2(48) == 0x1_0000_0000_0000;
    assert Pow2(56) == 0x100_0000_0000_0000;
  }

  /** The modifier built from the picks: round `r` contributes its winner's
      entropy bit at bit position `r` (kernel.cpp:203). The result is below
      2^|picks|, so bit `r` is still clear when round `r` or-s its bit in, and
      the or is an addition. */
  function ModifierFromPicks(s: seq<Block>, picks: seq<nat>): (r: nat)
    requires forall i | 0 <= i < |picks| :: picks[i] < |s|
    ensures r < Pow2(|picks|)
    decreases |picks|
  {
    if picks == [] then 0
    else
      var n := |picks| - 1;
      ModifierFromPicks(s, picks[..n]) + EntropyBit(s[picks[n]]) * Pow2(n)
  }

  /** Bit `r` of the new modifier is the entropy bit of the block picked in
      round `r`, and bits past the last round are zero. */
  lemma {:induction false} ModifierBits(s: seq<Block>, picks: seq<nat>, r: nat)
    requires forall i | 0 <= i < |picks| :: picks[i] < |s|
    ensures (ModifierFromPicks(s, picks) / Pow2(r)) % 2 == (if r < |picks| then EntropyBit(s[picks[r]]) else 0)
    decreases |picks|
  {
    if picks != [] {
      var n := |picks| - 1;
      var prefix := picks[..n];
      ModifierBits(s, prefix, r);
      AddHighBit(ModifierFromPicks(s, prefix), EntropyBit(s[picks[n]]), n, r);
      if r < n {
        assert prefix[r] == picks[r];
      }
    } else {
      SmallDiv(0, Pow2(r));
    }
  }

  /** Adding bit `b` at position `n` above a value below 2^n. */
  lemma AddHighBit(m: nat, b: nat, n: nat, r: nat)
    requires b <= 1 && m < Pow2(n)
    ensures ((m + b * Pow2(n)) / Pow2(r)) % 2 == (if r < n then (m / Pow2(r)) % 2 else if r == n then b else 0)
  {
    if r < n {
      BitBelow(m, b, n, r);
    } else if r == n {
      DivAddMultiple(m, b, Pow2(n));
      SmallDiv(m, Pow2(n));
    } else {
      BitAbove(m, b, n, r);
    }
  }

  lemma BitBelow(m: nat, b: nat, n: nat, r: nat)
    requires r < n
    ensures ((m + b * Pow2(n)) / Pow2(r)) % 2 == (m / Pow2(r)) % 2
  {
    var h := Pow2(n - r - 1);
    Pow2Split(r, n);
    assert Pow2(n - r) == 2 * h;
    ParityOfShiftedSum(m, b, Pow2(r), h, Pow2(n));
  }

  lemma ParityOfShiftedSum(m: nat, b: nat, p: nat, h: nat, big: nat)
    requires p >= 1 && big == p * (2 * h)
    ensures ((m + b * big) / p) % 2 == (m / p) % 2
  {
    Rearrange(b, p, h);
    DivAddMultiple(m, 2 * (b * h), p);
    EvenAddParity(m / p, b * h);
  }

  lemma Rearrange(b: nat, p: nat, h: nat)
    ensures b * (p * (2 * h)) == 2 * (b * h) * p
  {
  }

  lemma BitAbove(m: nat, b: nat, n: nat, r: nat)
    requires b <= 1 && m < Pow2(n) && n < r
    ensures ((m + b * Pow2(n)) / Pow2(r)) % 2 == 0
  {
    Pow2Monotone(n + 1, r);
    assert m + b * Pow2(n) < Pow2(n + 1);
    SmallDiv(m + b * Pow2(n), Pow2(r));
  }

  /** The modifier of up to 64 rounds fits in `uint64_t`. */
  lemma ModifierFits(s: seq<Block>, picks: seq<nat>)
    requires |picks| <= 64 && forall i | 0 <= i < |picks| :: picks[i] < |s|
    ensures ModifierFromPicks(s, picks) < TWO_64
  {
    Pow2Monotone(|picks|, 64);
    Pow2Of64();
  }

  lemma EvenAddParity(x: nat, y: nat)
    ensures (x + 2 * y) % 2 == x % 2
  {
    MultipleShiftMod(y, 2, x);
    assert y * 2 + x == x + 2 * y;
  }

  /** Distinct-hash candidate lists: no two candidates share a block hash. */
  predicate DistinctHashes(s: seq<Block>)
  {
    forall i, j | 0 <= i < j < |s| :: s[i].hash != s[j].hash
  }

  function HashSet(s: seq<Block>): (r: set<Hash256>)
    ensures forall i | 0 <= i < |s| :: s[i].hash in r
    ensures forall h | h in r :: exists b | b in s :: b.hash == h
  {
    set b | b in s :: b.hash
  }

  lemma {:induction false} DistinctHashSetSize(s: seq<Block>)
    requires DistinctHashes(s)
    ensures |HashSet(s)| == |s|
  {
    if s != [] {
      var p := s[..|s| - 1];
      assert DistinctHashes(p);
      DistinctHashSetSize(p);
      assert HashSet(s) == HashSet(p) + {s[|s| - 1].hash};
      assert s[|s| - 1].hash !in HashSet(p);
    }
  }

  /** Sorting keeps a list's hashes distinct. */
  lemma DistinctAfterSort(run: seq<Block>, s: seq<Block>)
    requires DistinctHashes(run) && multiset(s) == multiset(run)
    ensures |HashSet(s)| == |s|
  {
    DistinctHashSetSize(run);
    assert |s| == |multiset(s)| == |run|;
    forall h | h in HashSet(s)
      ensures h in HashSet(run)
    {
      var b :| b in s && b.hash == h;
      assert b in multiset(run);
    }
    forall h | h in HashSet(run)
      ensures h in HashSet(s)
    {
      var b :| b in run && b.hash == h;
      assert b in multiset(s);
    }
    assert HashSet(s) == HashSet(run);
  }

  /** Each round picks a block not picked before, so `n` rounds pick `n`
      distinct hashes. */
  lemma {:induction false} PickedHashesSize(c: Config, s: seq<Block>, start: int, prevModifier: uint64, H: Hasher,
                                            picks: seq<nat>)
    requires ValidConfig(c) && RoundsValid(c, s, start, prevModifier, H, picks)
    ensures |PickedHashes(s, picks)| == |picks|
    decreases |picks|
  {
    if picks != [] {
      PickedHashesSize(c, s, start, prevModifier, H, picks[..|picks| - 1]);
    }
  }

  lemma SubsetSize(a: set<Hash256>, b: set<Hash256>)
    requires a <= b
    ensures |a| <= |b|
  {
    assert b == a + (b - a);
  }

  /** A selection round cannot run out of candidates while fewer rounds
      have run than there are distinct candidate hashes. */
  lemma RoundHasCandidate(c: Config, s: seq<Block>, start: int, prevModifier: uint64, H: Hasher, picks: seq<nat>)
    requires ValidConfig(c) && RoundsValid(c, s, start, prevModifier, H, picks)
    requires |HashSet(s)| == |s| && |picks| < |s|
    ensures FirstUnselected(s, PickedHashes(s, picks)) < |s|
  {
    PickedHashesSize(c, s, start, prevModifier, H, picks);
    if FirstUnselected(s, PickedHashes(s, picks)) == |s| {
      SubsetSize(HashSet(s), PickedHashes(s, picks));
      assert false;
    }
  }

  /** The selection rounds (kernel.cpp:196-210): round `r` widens the stop
      time by section `r`, picks the winner among the blocks not yet picked,
      and writes its entropy bit at position `r`. The result is the new
      modifier, or the round at which no candidate was left. */
  method SelectionRounds(c: Config, s: seq<Block>, start: int, prevModifier: uint64, H: Hasher)
    returns (r: Result<uint64, nat>, ghost picks: seq<nat>)
    requires ValidConfig(c)
    ensures RoundsValid(c, s, start, prevModifier, H, picks)
    ensures r.Ok? ==> |picks| == Min(64, |s|) && r.value == ModifierFromPicks(s, picks)
    ensures r.Err? ==> r.error == |picks| < Min(64, |s|) && FirstUnselected(s, PickedHashes(s, picks)) == |s|
  {
    var modifier: nat := 0;
    var stop := start;
    var selected: map<Hash256, Block> := map[];
    picks := [];
    var rounds := Min(64, |s|);
    var round := 0;
    while round < rounds
      invariant 0 <= round <= rounds
      invariant |picks| == round
      invariant RoundsState(c, s, start, prevModifier, H, picks, stop, selected.Keys, modifier)
    {
      var pick;
      ghost var k;
      pick, k := SelectBlockFromCandidates(s, selected, stop + Section(c, round), prevModifier, H);
      if pick.None? {
        r := Err(round);
        return;
      }
      var block := pick.value;
      RoundStep(c, s, start, prevModifier, H, picks, stop, selected.Keys, modifier, k);
      stop := stop + Section(c, round);
      modifier := modifier + EntropyBit(block) * Pow2(round);
      selected := selected[block.hash := block];
      picks := picks + [k];
      round := round + 1;
    }
    ModifierFits(s, picks);
    r := Ok(modifier);
  }

  datatype ModifierError = LastModifierMissing(cause: LastModifierError) | NoCandidateAtRound(round: nat)

  /** The bucket test of kernel.cpp:171: the last modifier was generated in
      the same modifier interval as the previous block (or a later one). */
  predicate GeneratedThisInterval(c: Config, modifierTime: int, prevTime: int)
    requires ValidConfig(c)
  {
    modifierTime / IntervalVersion(c) >= prevTime / IntervalVersion(c)
  }

  /** What the selection rounds of kernel.cpp:178-210 return for a previous
      block at `prevTime` with previous modifier `prevModifier`, given their
      picks: the modifier built from the winners of min(64, #candidates)
      rounds, or the round at which every candidate was already picked. */
  ghost predicate SelectionOutcome(c: Config, chain: seq<Block>, H: Hasher, prevModifier: uint64, prevTime: int,
                                   r: Result<uint64, nat>, picks: seq<nat>)
    requires ValidConfig(c)
  {
    var start := SelectionStart(c, prevTime);
    var s := Candidates(chain, start);
    && RoundsValid(c, s, start, prevModifier, H, picks)
    && (r.Ok? ==> r.value == ModifierFromPicks(s, picks) && |picks| == Min(64, |s|))
    && (r.Err? ==> r.error == |picks| < Min(64, |s|) && FirstUnselected(s, PickedHashes(s, picks)) == |s|)
  }

  /** The generating branch of ComputeNextStakeModifier (kernel.cpp:176-210):
      collect the candidates, reverse and sort them, and run the rounds. When
      the chain's block hashes are distinct no round runs out of candidates. */
  method GenerateModifier(c: Config, chain: seq<Block>, H: Hasher, prevModifier: uint64, prevTime: int)
    returns (r: Result<uint64, nat>, ghost picks: seq<nat>)
    requires ValidConfig(c)
    ensures SelectionOutcome(c, chain, H, prevModifier, prevTime, r, picks)
    ensures DistinctHashes(chain) ==> r.Ok?
  {
    var base := IntervalVersion(c);
    var interval := GetStakeModifierSelectionInterval(c);
    var start := (prevTime / base) * base - interval;
    assert start == SelectionStart(c, prevTime);
    var collected := CollectCandidates(chain, start);
    ghost var run := chain[RunStart(chain, start, |chain|)..];
    ReverseReverse(run);
    var sorted := SortByTimeHash(Reverse(collected));
    assert sorted == Candidates(chain, start);
    r, picks := SelectionRounds(c, sorted, start, prevModifier, H);
    if r.Err? && DistinctHashes(chain) {
      assert DistinctHashes(run);
      DistinctAfterSort(run, sorted);
      RoundHasCandidate(c, sorted, start, prevModifier, H, picks);
    }
  }

  /** What a completed run of ComputeNextStakeModifier returns, given the
      picks of its selection rounds. */
  ghost predicate NextModifierOutcome(c: Config, chain: seq<Block>, H: Hasher,
                                      r: Result<(uint64, bool), ModifierError>, picks: seq<nat>)
    requires ValidConfig(c)
  {
    if chain == [] then r == Ok((0, true))
    else
      var prev := chain[|chain| - 1];
      if prev.height == 0 then r == Ok((c.firstModifier, true))
      else match LastStakeModifier(chain)
        case Err(e) => r == Err(LastModifierMissing(e))
        case Ok((prevModifier, modifierTime)) =>
          if GeneratedThisInterval(c, modifierTime, prev.time) then r == Ok((prevModifier, false))
          else match r
            case Ok((m, generated)) => generated && SelectionOutcome(c, chain, H, prevModifier, prev.time, Ok(m), picks)
            case Err(NoCandidateAtRound(k)) => SelectionOutcome(c, chain, H, prevModifier, prev.time, Err(k), picks)
            case Err(LastModifierMissing(_)) => false
  }

  /** ComputeNextStakeModifier (kernel.cpp:147-240), for the previous block
      given as its ancestor sequence. Returns the modifier and whether it was
      generated by this block. When the chain's block hashes are distinct it
      fails only when no ancestor generated a modifier. */
  method ComputeNextStakeModifier(c: Config, chain: seq<Block>, H: Hasher)
    returns (r: Result<(uint64, bool), ModifierError>, ghost picks: seq<nat>)
    requires ValidConfig(c)
    ensures NextModifierOutcome(c, chain, H, r, picks)
    ensures DistinctHashes(chain) ==> r.Ok? || r.error.LastModifierMissing?
  {
    picks := [];
    if chain == [] {
      return Ok((0, true)), picks;
    }
    var prev := chain[|chain| - 1];
    if prev.height == 0 {
      return Ok((c.firstModifier, true)), picks;
    }
    var last := GetLastStakeModifier(chain);
    if last.Err? {
      return Err(LastModifierMissing(last.error)), picks;
    }
    var (prevModifier, modifierTime) := last.value;
    var base := IntervalVersion(c);
    if modifierTime / base >= prev.time / base {
      return Ok((prevModifier, false)), picks;
    }
    var generated;
    generated, picks := GenerateModifier(c, chain, H, prevModifier, prev.time);
    if generated.Err? {
      return Err(NoCandidateAtRound(generated.error)), picks;
    }
    r := Ok((generated.value, true));
  }
}
