/** `shuffleArray`: the in-place Fisher–Yates shuffle. The random draws
    `Math.floor(Math.random() * (i + 1))` are supplied as a sequence of
    choices, `js[i]` being the index drawn when position `i` is filled. */
module Shuffle {

  /** Choices a run over `n` elements can draw: `0 <= js[i] <= i`. */
  predicate Choices(js: seq<nat>, n: nat) {
    |js| == n && forall i :: 0 <= i < n ==> js[i] <= i
  }

  /** `s` with the elements at `i` and `j` exchanged. */
  function Swap<T>(s: seq<T>, i: nat, j: nat): (r: seq<T>)
    requires i < |s| && j < |s|
    ensures |r| == |s| && r[i] == s[j] && r[j] == s[i]
    ensures forall k :: 0 <= k < |s| && k != i && k != j ==> r[k] == s[k]
  {
    s[i := s[j]][j := s[i]]
  }

  /** The rounds `i, i - 1, …, 1` of the shuffle applied to `s`. */
  function Rounds<T>(s: seq<T>, js: seq<nat>, i: nat): (r: seq<T>)
    requires i < |s| && Choices(js, |s|)
    ensures |r| == |s|
    decreases i
  {
    if i == 0 then s else Rounds(Swap(s, i, js[i]), js, i - 1)
  }

  /** The whole shuffle: `for (let i = n - 1; i > 0; i--)`. */
  function Shuffled<T>(s: seq<T>, js: seq<nat>): (r: seq<T>)
    requires Choices(js, |s|)
    ensures |r| == |s|
  {
    if |s| == 0 then s else Rounds(s, js, |s| - 1)
  }

  /** A swap keeps the same elements. */
  lemma SwapPermutes<T>(s: seq<T>, i: nat, j: nat)
    requires i < |s| && j < |s|
    ensures multiset(Swap(s, i, j)) == multiset(s)
  {
    var t := s[i := s[j]];
    assert multiset(t) == multiset(s) - multiset{s[i]} + multiset{s[j]};
  }

  lemma {:induction false} RoundsPermute<T>(s: seq<T>, js: seq<nat>, i: nat)
    requires i < |s| && Choices(js, |s|)
    ensures multiset(Rounds(s, js, i)) == multiset(s)
    decreases i
  {
    if i > 0 {
      SwapPermutes(s, i, js[i]);
      RoundsPermute(Swap(s, i, js[i]), js, i - 1);
    }
  }

  /** Whatever the choices, the result is a permutation of the input. */
  lemma ShufflePermutes<T>(s: seq<T>, js: seq<nat>)
    requires Choices(js, |s|)
    ensures multiset(Shuffled(s, js)) == multiset(s)
  {
    if |s| > 0 { RoundsPermute(s, js, |s| - 1); }
  }

  /** Rounds `i` down to 1 leave every position above `i` alone. */
  lemma {:induction false} RoundsKeepAbove<T>(s: seq<T>, js: seq<nat>, i: nat, k: nat)
    requires i < k < |s| && Choices(js, |s|)
    ensures Rounds(s, js, i)[k] == s[k]
    decreases i
  {
    if i > 0 {
      RoundsKeepAbove(Swap(s, i, js[i]), js, i - 1, k);
    }
  }

  /** The first round fixes the last position for good: it ends holding
      the element the first draw picked, `s[js[n - 1]]`. */
  lemma {:induction false} LastPlaced<T>(s: seq<T>, js: seq<nat>)
    requires |s| >= 2 && Choices(js, |s|)
    ensures Shuffled(s, js)[|s| - 1] == s[js[|s| - 1]]
  {
    var n := |s|;
    RoundsKeepAbove(Swap(s, n - 1, js[n - 1]), js, n - 2, n - 1);
  }

  /** Drawing `j == i` every time swaps each element with itself. */
  lemma {:induction false} IdentityChoices<T>(s: seq<T>, js: seq<nat>, i: nat)
    requires i < |s| && Choices(js, |s|)
    requires forall k :: 0 <= k < |s| ==> js[k] == k
    ensures Rounds(s, js, i) == s
    decreases i
  {
    if i > 0 {
      assert Swap(s, i, js[i]) == s;
      IdentityChoices(s, js, i - 1);
    }
  }

  /** `shuffleArray(array)`: swaps in place, from the last position down
      to position 1. */
  method ShuffleArray<T>(a: array<T>, js: seq<nat>)
    requires Choices(js, a.Length)
    modifies a
    ensures a[..] == Shuffled(old(a[..]), js)
  {
    if a.Length == 0 { return; }
    var i := a.Length - 1;
    while i > 0
      invariant 0 <= i < a.Length
      invariant Rounds(a[..], js, i) == Shuffled(old(a[..]), js)
      decreases i
    {
      var j := js[i];
      ghost var before := a[..];
      a[i], a[j] := a[j], a[i];
      assert a[..] == Swap(before, i, j);
      i := i - 1;
    }
  }
}
