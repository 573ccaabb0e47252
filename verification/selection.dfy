/** Candidate ordering and the per-round block selection of the V1 stake
    modifier (kernel.cpp:75-121, 174-188). */
module Selection {
  import opened Common
  import opened Serial
  import opened ChainIndex

  /** The order of `pair<int64_t, uint256>(time, hash)`: by time, then by
      hash as a 256-bit number. */
  predicate KeyLess(a: Block, b: Block)
  {
    a.time < b.time || (a.time == b.time && a.hash < b.hash)
  }

  predicate KeyLe(a: Block, b: Block)
  {
    !KeyLess(b, a)
  }

  predicate SortedByKey(s: seq<Block>)
  {
    forall i, j | 0 <= i < j < |s| :: KeyLe(s[i], s[j])
  }

  /** `reverse` of kernel.cpp:187. */
  function Reverse(s: seq<Block>): (r: seq<Block>)
    ensures |r| == |s|
  {
    if s == [] then [] else [s[|s| - 1]] + Reverse(s[..|s| - 1])
  }

  lemma {:induction false} ReverseAt(s: seq<Block>, k: int)
    requires 0 <= k < |s|
    ensures Reverse(s)[k] == s[|s| - 1 - k]
  {
    if k > 0 {
      ReverseAt(s[..|s| - 1], k - 1);
    }
  }

  lemma ReverseMultiset(s: seq<Block>)
    ensures multiset(Reverse(s)) == multiset(s)
  {
    if s != [] {
      ReverseMultiset(s[..|s| - 1]);
      assert s == s[..|s| - 1] + [s[|s| - 1]];
    }
  }

  /** Prepending an element no greater than the head keeps a list sorted. */
  lemma SortedCons(a: Block, t: seq<Block>)
    requires SortedByKey(t)
    requires t == [] || KeyLe(a, t[0])
    ensures SortedByKey([a] + t)
  {
    var u := [a] + t;
    forall i, j | 0 <= i < j < |u|
      ensures KeyLe(u[i], u[j])
    {
      if i == 0 && j > 1 {
        assert KeyLe(t[0], t[j - 1]);
      }
    }
  }

  function Insert(x: Block, s: seq<Block>): (r: seq<Block>)
    requires SortedByKey(s)
    ensures SortedByKey(r)
    ensures multiset(r) == multiset(s) + multiset{x}
    ensures |r| == |s| + 1 && (r[0] == x || (s != [] && r[0] == s[0]))
  {
    if s == [] then [x]
    else if KeyLe(x, s[0]) then
      SortedCons(x, s);
      [x] + s
    else
      var rest := Insert(x, s[1..]);
      assert s == [s[0]] + s[1..];
      SortedCons(s[0], rest);
      [s[0]] + rest
  }

  /** `sort` of kernel.cpp:188: ascending by (time, hash). */
  function SortByTimeHash(s: seq<Block>): (r: seq<Block>)
    ensures SortedByKey(r)
    ensures multiset(r) == multiset(s)
  {
    if s == [] then []
    else
      assert s == [s[0]] + s[1..];
      Insert(s[0], SortByTimeHash(s[1..]))
  }

  /** The selection hash of a candidate (kernel.cpp:96-107): the hash of its
      block hash and the previous modifier, divided by 2^32 for a
      proof-of-stake block. */
  function SelectionHash(H: Hasher, b: Block, prevModifier: uint64): (r: Hash256)
    ensures r <= H(SelectionPreimage(b.hash, prevModifier))
    ensures b.isPoS ==> r * TWO_32 <= H(SelectionPreimage(b.hash, prevModifier)) < (r + 1) * TWO_32
    ensures !b.isPoS ==> r == H(SelectionPreimage(b.hash, prevModifier))
  {
    var h := H(SelectionPreimage(b.hash, prevModifier));
    if b.isPoS then h / TWO_32 else h
  }

  /** The shift favours proof-of-stake blocks: one beats any proof-of-work
      block whose hash is not itself below 2^224. */
  lemma ProofOfStakeFavoured(H: Hasher, pos: Block, pow: Block, prevModifier: uint64)
    requires pos.isPoS && !pow.isPoS
    requires H(SelectionPreimage(pow.hash, prevModifier)) >= TWO_256 / TWO_32
    ensures SelectionHash(H, pos, prevModifier) < SelectionHash(H, pow, prevModifier)
  {
    var h := H(SelectionPreimage(pos.hash, prevModifier));
    assert h < TWO_256;
    assert h / TWO_32 < TWO_256 / TWO_32;
  }

  /** The index of the first candidate not yet selected (|s| if none). */
  function FirstUnselected(s: seq<Block>, selected: set<Hash256>): (r: nat)
    ensures r <= |s|
    ensures forall i | 0 <= i < r :: s[i].hash in selected
    ensures r < |s| ==> s[r].hash !in selected
  {
    if s == [] then 0
    else if s[0].hash !in selected then 0
    else 1 + FirstUnselected(s[1..], selected)
  }

  /** Index `i` is reached by the scan: the scan starts counting once the first
      unselected candidate is taken, and stops at the first later candidate
      past the stop time. */
  predicate InWindow(s: seq<Block>, selected: set<Hash256>, stop: int, i: int)
  {
    var f := FirstUnselected(s, selected);
    f <= i < |s| && forall j | f < j <= i :: s[j].time <= stop
  }

  predicate IsCandidate(s: seq<Block>, selected: set<Hash256>, stop: int, i: int)
  {
    InWindow(s, selected, stop, i) && s[i].hash !in selected
  }

  /** Candidate `k` wins the round: its selection hash is minimal among the
      scanned unselected candidates, and strictly below that of every earlier
      one (a tie goes to the earliest in sort order). */
  ghost predicate IsWinner(s: seq<Block>, selected: set<Hash256>, stop: int, prevModifier: uint64, H: Hasher, k: int)
  {
    && IsCandidate(s, selected, stop, k)
    && (forall i | IsCandidate(s, selected, stop, i) ::
          SelectionHash(H, s[k], prevModifier) <= SelectionHash(H, s[i], prevModifier))
    && (forall i | 0 <= i < k && IsCandidate(s, selected, stop, i) ::
          SelectionHash(H, s[k], prevModifier) < SelectionHash(H, s[i], prevModifier))
  }

  /** A round has at most one winner. */
  lemma WinnerUnique(s: seq<Block>, selected: set<Hash256>, stop: int, prevModifier: uint64, H: Hasher,
                     k1: int, k2: int)
    requires IsWinner(s, selected, stop, prevModifier, H, k1)
    requires IsWinner(s, selected, stop, prevModifier, H, k2)
    ensures k1 == k2
  {
  }

  /** The first unselected candidate is always scanned, whatever the stop
      time, so a round fails only when every candidate is already selected. */
  lemma FirstUnselectedAlwaysCandidate(s: seq<Block>, selected: set<Hash256>, stop: int)
    requires FirstUnselected(s, selected) < |s|
    ensures IsCandidate(s, selected, stop, FirstUnselected(s, selected))
  {
  }

  /** On candidates sorted by time the scan reaches the first unselected
      candidate and then exactly the later ones up to the stop time. */
  lemma SortedWindow(s: seq<Block>, selected: set<Hash256>, stop: int, i: int)
    requires SortedByKey(s)
    ensures InWindow(s, selected, stop, i) <==>
      var f := FirstUnselected(s, selected);
      f <= i < |s| && (i == f || s[i].time <= stop)
  {
    var f := FirstUnselected(s, selected);
    if f < i < |s| && s[i].time <= stop {
      forall j | f < j <= i
        ensures s[j].time <= stop
      {
        assert KeyLe(s[j], s[i]);
      }
    }
  }

  /** When the first unselected candidate already lies past the stop time,
      it is taken: no later candidate of a sorted list is scanned. */
  lemma FirstTakenPastStop(s: seq<Block>, selected: set<Hash256>, stop: int, prevModifier: uint64, H: Hasher)
    requires SortedByKey(s)
    requires FirstUnselected(s, selected) < |s| && s[FirstUnselected(s, selected)].time > stop
    ensures IsWinner(s, selected, stop, prevModifier, H, FirstUnselected(s, selected))
  {
    var f := FirstUnselected(s, selected);
    forall i | IsCandidate(s, selected, stop, i)
      ensures i == f
    {
      SortedWindow(s, selected, stop, i);
      assert i == f || KeyLe(s[f], s[i]);
    }
  }

  lemma WindowExtends(s: seq<Block>, selected: set<Hash256>, stop: int, i: int)
    requires FirstUnselected(s, selected) <= i < |s|
    requires forall j | FirstUnselected(s, selected) < j < i :: s[j].time <= stop
    requires i == FirstUnselected(s, selected) || s[i].time <= stop
    ensures InWindow(s, selected, stop, i)
  {
  }

  lemma WindowEnds(s: seq<Block>, selected: set<Hash256>, stop: int, i: int)
    requires FirstUnselected(s, selected) < i < |s| && s[i].time > stop
    ensures forall j | i <= j < |s| :: !InWindow(s, selected, stop, j)
  {
  }

  /** SelectBlockFromCandidates (kernel.cpp:75-121). Returns the selected
      block (and, for the proof, its index), or nothing when every candidate
      is already selected. */
  method SelectBlockFromCandidates(s: seq<Block>, selected: map<Hash256, Block>, stop: int,
                                   prevModifier: uint64, H: Hasher)
    returns (pick: Option<Block>, ghost k: nat)
    ensures pick.None? <==> FirstUnselected(s, selected.Keys) == |s|
    ensures pick.Some? ==> k < |s| && pick.value == s[k] && IsWinner(s, selected.Keys, stop, prevModifier, H, k)
  {
    ghost var sel := selected.Keys;
    ghost var f := FirstUnselected(s, sel);
    var fSelected := false;
    var hashBest: Hash256 := 0;
    pick := None;
    k := 0;
    var i := 0;
    while i < |s|
      invariant 0 <= i <= |s|
      invariant fSelected <==> f < i
      invariant pick.Some? <==> fSelected
      invariant fSelected ==> k < i && pick == Some(s[k]) && hashBest == SelectionHash(H, s[k], prevModifier)
      invariant fSelected ==> IsCandidate(s, sel, stop, k)
      invariant fSelected ==> forall j | f < j < i :: s[j].time <= stop
      invariant fSelected ==> forall j | 0 <= j < i && IsCandidate(s, sel, stop, j) ::
        SelectionHash(H, s[k], prevModifier) <= SelectionHash(H, s[j], prevModifier)
      invariant fSelected ==> forall j | 0 <= j < k && IsCandidate(s, sel, stop, j) ::
        SelectionHash(H, s[k], prevModifier) < SelectionHash(H, s[j], prevModifier)
    {
      var b := s[i];
      if fSelected && b.time > stop {
        WindowEnds(s, sel, stop, i);
        break;
      }
      if i >= f {
        WindowExtends(s, sel, stop, i);
      }
      if b.hash in selected {
        i := i + 1;
        continue;
      }
      var hashSelection := SelectionHash(H, b, prevModifier);
      if fSelected && hashSelection < hashBest {
        hashBest := hashSelection;
        pick := Some(b);
        k := i;
      } else if !fSelected {
        fSelected := true;
        hashBest := hashSelection;
        pick := Some(b);
        k := i;
      }
      i := i + 1;
    }
  }
}
