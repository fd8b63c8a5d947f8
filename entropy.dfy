/** "Fight entropy": the lit cells are shuffled in place with Fisher-Yates
    and the first half of the shuffled list is chosen for erasure. The
    random index drawn for position i is a parameter `draws[i]`, which the
    source draws uniformly from 0..i. */
module Entropy {

  /** A lit cell as the source lists it: (row, column). */
  type Cell = (nat, nat)

  /** draws[i] is a possible value of `Math.floor(Math.random() * (i + 1))`
      for every index i of a list of length n. */
  predicate DrawsFit(draws: seq<nat>, n: nat) {
    |draws| == n && forall i :: 0 <= i < n ==> draws[i] <= i
  }

  /** The destructuring swap of positions i and j (the same list when
      i == j). */
  function Swap(s: seq<Cell>, i: nat, j: nat): (t: seq<Cell>)
    requires i < |s| && j < |s|
    ensures |t| == |s| && t[i] == s[j] && t[j] == s[i]
    ensures forall k :: 0 <= k < |s| && k != i && k != j ==> t[k] == s[k]
  {
    s[i := s[j]][j := s[i]]
  }

  /** A swap keeps every entry. */
  lemma SwapPermutes(s: seq<Cell>, i: nat, j: nat)
    requires i < |s| && j < |s|
    ensures multiset(Swap(s, i, j)) == multiset(s)
  {
    var t := s[i := s[j]];
    assert multiset(t) == multiset(s) - multiset{s[i]} + multiset{s[j]};
    assert multiset(t[j := s[i]]) == multiset(t) - multiset{t[j]} + multiset{s[i]};
  }

  /** The shuffle loop run for positions i, i - 1, ..., 1 (nothing for
      i <= 0): position i is swapped with position draws[i] first. */
  function ShuffleDown(s: seq<Cell>, draws: seq<nat>, i: int): (t: seq<Cell>)
    requires DrawsFit(draws, |s|) && i < |s|
    ensures |t| == |s|
    decreases i
  {
    if i <= 0 then s else ShuffleDown(Swap(s, i, draws[i]), draws, i - 1)
  }

  /** The whole shuffle loop, from the last position down to 1. */
  function Shuffled(s: seq<Cell>, draws: seq<nat>): (t: seq<Cell>)
    requires DrawsFit(draws, |s|)
    ensures |t| == |s|
  {
    ShuffleDown(s, draws, |s| - 1)
  }

  /** Each round swaps two entries, so the loop permutes the list. */
  lemma {:induction false} ShuffleDownPermutes(s: seq<Cell>, draws: seq<nat>, i: int)
    requires DrawsFit(draws, |s|) && i < |s|
    ensures multiset(ShuffleDown(s, draws, i)) == multiset(s)
    decreases i
  {
    if i > 0 {
      SwapPermutes(s, i, draws[i]);
      ShuffleDownPermutes(Swap(s, i, draws[i]), draws, i - 1);
    }
  }

  /** Entries above the current position are never touched again: once the
      loop has passed position k, the entry there is final. */
  lemma {:induction false} ShuffleDownKeepsAbove(s: seq<Cell>, draws: seq<nat>, i: int, k: nat)
    requires DrawsFit(draws, |s|) && i < k < |s|
    ensures ShuffleDown(s, draws, i)[k] == s[k]
    decreases i
  {
    if i > 0 {
      ShuffleDownKeepsAbove(Swap(s, i, draws[i]), draws, i - 1, k);
    }
  }

  /** The shuffled list is a permutation of the lit cells. */
  lemma ShuffledIsPermutation(s: seq<Cell>, draws: seq<nat>)
    requires DrawsFit(draws, |s|)
    ensures multiset(Shuffled(s, draws)) == multiset(s)
  {
    ShuffleDownPermutes(s, draws, |s| - 1);
  }

  /** The last cell of the shuffled list is the one at the first draw's
      index: the first round fixes it for good. */
  lemma LastIsFirstDraw(s: seq<Cell>, draws: seq<nat>)
    requires DrawsFit(draws, |s|) && |s| >= 2
    ensures Shuffled(s, draws)[|s| - 1] == s[draws[|s| - 1]]
  {
    var n := |s|;
    ShuffleDownKeepsAbove(Swap(s, n - 1, draws[n - 1]), draws, n - 2, n - 1);
  }

  /** The cells chosen for erasure: the first half, rounded down, of the
      shuffled list. */
  function Erased(lit: seq<Cell>, draws: seq<nat>): (erase: seq<Cell>)
    requires DrawsFit(draws, |lit|)
    ensures |erase| == |lit| / 2
  {
    Shuffled(lit, draws)[..|lit| / 2]
  }

  /** The cells left alone: the rest of the shuffled list. */
  function Kept(lit: seq<Cell>, draws: seq<nat>): (keep: seq<Cell>)
    requires DrawsFit(draws, |lit|)
    ensures |keep| == |lit| - |lit| / 2
  {
    Shuffled(lit, draws)[|lit| / 2..]
  }

  /** Erased and kept cells split the lit cells between them: half (rounded
      down) is erased, every erased cell was lit, and no cell is lost or
      duplicated. */
  lemma ErasedAndKeptPartition(lit: seq<Cell>, draws: seq<nat>)
    requires DrawsFit(draws, |lit|)
    ensures multiset(Erased(lit, draws)) + multiset(Kept(lit, draws)) == multiset(lit)
    ensures multiset(Erased(lit, draws)) <= multiset(lit)
    ensures forall c :: c in Erased(lit, draws) ==> c in lit
  {
    var t := Shuffled(lit, draws);
    ShuffledIsPermutation(lit, draws);
    assert t == Erased(lit, draws) + Kept(lit, draws);
    forall c | c in Erased(lit, draws) ensures c in lit {
      assert c in multiset(Erased(lit, draws));
      assert c in multiset(lit);
    }
  }

  /** The shuffle loop on the array of lit cells. */
  method Shuffle(a: array<Cell>, draws: seq<nat>)
    requires DrawsFit(draws, a.Length)
    modifies a
    ensures a[..] == Shuffled(old(a[..]), draws)
  {
    var i := a.Length - 1;
    while i > 0
      invariant -1 <= i < a.Length
      invariant ShuffleDown(a[..], draws, i) == Shuffled(old(a[..]), draws)
      decreases i
    {
      var j := draws[i];
      ghost var before := a[..];
      a[i], a[j] := a[j], a[i];
      assert a[..] == Swap(before, i, j);
      assert ShuffleDown(before, draws, i) == ShuffleDown(a[..], draws, i - 1);
      i := i - 1;
    }
  }

  /** The selection part of `handleFightEntropy`: shuffle a copy of the lit
      cells and return the first half of it. */
  method FightEntropy(lit: seq<Cell>, draws: seq<nat>) returns (erase: seq<Cell>)
    requires DrawsFit(draws, |lit|)
    ensures erase == Erased(lit, draws)
  {
    var a := new Cell[|lit|](k requires 0 <= k < |lit| => lit[k]);
    assert a[..] == lit;
    Shuffle(a, draws);
    erase := a[..a.Length / 2];
  }
}
