/** The option shuffle of the home page (Homepage.js, shuffleArray): a backward
    Fisher-Yates pass that swaps in place. The random index the source draws with
    Math.random is an input here, one draw per step. */
module Shuffle {

  /** s with the elements at i and j exchanged. */
  function Swap<T>(s: seq<T>, i: nat, j: nat): (r: seq<T>)
    requires i < |s| && j < |s|
    ensures |r| == |s| && r[i] == s[j] && r[j] == s[i]
    ensures forall k :: 0 <= k < |s| && k != i && k != j ==> r[k] == s[k]
  {
    s[i := s[j]][j := s[i]]
  }

  /** The draws of a run: the draw made while c + 1 elements are still unsettled is
      an index in [0, c + 1), as `Math.floor(Math.random() * currentIndex)` is. */
  predicate ValidDraws(draws: seq<nat>) {
    forall c :: 0 <= c < |draws| ==> draws[c] <= c
  }

  /** The arrangement the pass produces from s with the given draws: the last draw
      is used first, on the last unsettled position. */
  function Shuffled<T>(s: seq<T>, draws: seq<nat>): (r: seq<T>)
    requires |draws| <= |s| && ValidDraws(draws)
    ensures |r| == |s|
    decreases |draws|
  {
    if draws == [] then s
    else
      var c := |draws| - 1;
      Shuffled(Swap(s, c, draws[c]), draws[..c])
  }

  /** Whatever the draws, the pass only rearranges. */
  lemma {:induction false} ShuffledPermutes<T>(s: seq<T>, draws: seq<nat>)
    requires |draws| <= |s| && ValidDraws(draws)
    ensures multiset(Shuffled(s, draws)) == multiset(s)
    decreases |draws|
  {
    if draws != [] {
      var c := |draws| - 1;
      SwapPermutes(s, c, draws[c]);
      ShuffledPermutes(Swap(s, c, draws[c]), draws[..c]);
    }
  }

  lemma SwapPermutes<T>(s: seq<T>, i: nat, j: nat)
    requires i < |s| && j < |s|
    ensures multiset(Swap(s, i, j)) == multiset(s)
  {
    var t := s[i := s[j]];
    assert multiset(t) == multiset(s) - multiset{s[i]} + multiset{s[j]};
  }

  /** One step of the pass: the last draw swaps the last unsettled position. */
  lemma ShuffledStep<T>(s: seq<T>, d: seq<nat>, i: nat)
    requires |d| < |s| && ValidDraws(d) && i <= |d|
    ensures ValidDraws(d + [i])
    ensures Shuffled(s, d + [i]) == Shuffled(Swap(s, |d|, i), d)
  {
    assert (d + [i])[..|d|] == d;
  }

  /** The same step, for the first c + 1 draws of a run. */
  lemma ShuffledPrefixStep<T>(s: seq<T>, draws: seq<nat>, c: nat)
    requires c < |draws| <= |s| && ValidDraws(draws)
    ensures Shuffled(s, draws[..c + 1]) == Shuffled(Swap(s, c, draws[c]), draws[..c])
  {
    assert draws[..c + 1][..c] == draws[..c];
  }

  /** `shuffleArray(array)`: the array ends as the shuffled arrangement of its old
      contents, and so as a permutation of them. */
  method ShuffleArray<T>(a: array<T>, draws: seq<nat>)
    requires |draws| == a.Length && ValidDraws(draws)
    modifies a
    ensures a[..] == Shuffled(old(a[..]), draws)
    ensures multiset(a[..]) == multiset(old(a[..]))
  {
    var currentIndex := a.Length;
    assert draws[..currentIndex] == draws;
    while currentIndex != 0
      invariant 0 <= currentIndex <= a.Length
      invariant Shuffled(a[..], draws[..currentIndex]) == Shuffled(old(a[..]), draws)
    {
      var randomIndex := draws[currentIndex - 1];
      ghost var before := a[..];
      currentIndex := currentIndex - 1;
      a[currentIndex], a[randomIndex] := a[randomIndex], a[currentIndex];
      assert a[..] == Swap(before, currentIndex, randomIndex);
      ShuffledPrefixStep(before, draws, currentIndex);
    }
    assert draws[..currentIndex] == [];
    ShuffledPermutes(old(a[..]), draws);
  }

  /** `shuffleArray([...options])`: the options are copied into a fresh array, which
      is shuffled, so the options themselves are left as they were. */
  method ShuffleOptions<T>(options: seq<T>, draws: seq<nat>) returns (shuffled: seq<T>)
    requires |draws| == |options| && ValidDraws(draws)
    ensures shuffled == Shuffled(options, draws)
    ensures |shuffled| == |options| && multiset(shuffled) == multiset(options)
  {
    var a := new T[|options|](i requires 0 <= i < |options| => options[i]);
    assert a[..] == options;
    ShuffleArray(a, draws);
    shuffled := a[..];
    ShuffledPermutes(options, draws);
  }

  /** Conversely, every permutation of s is the outcome of some run: the pass can
      produce any arrangement of the options. Positions from c on already agree. */
  lemma {:induction false} ReachablePrefix<T>(s: seq<T>, t: seq<T>, c: nat)
    requires c <= |s| == |t|
    requires s[c..] == t[c..] && multiset(s[..c]) == multiset(t[..c])
    ensures exists draws: seq<nat> :: |draws| == c && ValidDraws(draws) && Shuffled(s, draws) == t
    decreases c
  {
    if c == 0 {
      assert s == s[..0] + s[0..] && t == t[..0] + t[0..];
      var none: seq<nat> := [];
      assert |none| == 0 && ValidDraws(none) && Shuffled(s, none) == t;
    } else {
      var x := t[c - 1];
      assert x in multiset(s[..c]) by {
        assert t[..c] == t[..c - 1] + [x];
      }
      var i :| 0 <= i < c && s[..c][i] == x;
      SuffixAfterSwap(s, t, c, i);
      PrefixAfterSwap(s, t, c, i);
      var s' := Swap(s, c - 1, i);
      ReachablePrefix(s', t, c - 1);
      var d: seq<nat> :| |d| == c - 1 && ValidDraws(d) && Shuffled(s', d) == t;
      ShuffledStep(s, d, i);
      assert |d + [i]| == c && ValidDraws(d + [i]) && Shuffled(s, d + [i]) == t;
    }
  }

  lemma SuffixAfterSwap<T>(s: seq<T>, t: seq<T>, c: nat, i: nat)
    requires 0 < c <= |s| == |t| && i < c && s[i] == t[c - 1] && s[c..] == t[c..]
    ensures Swap(s, c - 1, i)[c - 1..] == t[c - 1..]
  {
    assert Swap(s, c - 1, i)[c - 1..] == [t[c - 1]] + s[c..];
    assert t[c - 1..] == [t[c - 1]] + t[c..];
  }

  lemma PrefixAfterSwap<T>(s: seq<T>, t: seq<T>, c: nat, i: nat)
    requires 0 < c <= |s| == |t| && i < c && s[i] == t[c - 1]
    requires multiset(s[..c]) == multiset(t[..c])
    ensures multiset(Swap(s, c - 1, i)[..c - 1]) == multiset(t[..c - 1])
  {
    var x := t[c - 1];
    var pre := s[..c - 1];
    assert s[..c] == pre + [s[c - 1]];
    assert t[..c] == t[..c - 1] + [x];
    assert multiset(t[..c - 1]) == multiset(s[..c]) - multiset{x};
    if i == c - 1 {
      assert Swap(s, c - 1, i)[..c - 1] == pre;
    } else {
      assert Swap(s, c - 1, i)[..c - 1] == pre[i := s[c - 1]];
      assert pre[i] == x;
    }
  }

  /** The outcomes of the pass are exactly the permutations of its input. */
  lemma ShuffleOutcomes<T>(s: seq<T>, t: seq<T>)
    ensures (exists draws: seq<nat> :: |draws| == |s| && ValidDraws(draws) && Shuffled(s, draws) == t)
            <==> multiset(t) == multiset(s)
  {
    forall draws | |draws| == |s| && ValidDraws(draws) && Shuffled(s, draws) == t
      ensures multiset(t) == multiset(s)
    {
      ShuffledPermutes(s, draws);
    }
    if multiset(t) == multiset(s) {
      assert |t| == |multiset(t)| == |multiset(s)| == |s|;
      assert s[|s|..] == t[|s|..] && s[..|s|] == s && t[..|s|] == t;
      ReachablePrefix(s, t, |s|);
      assert exists draws: seq<nat> :: |draws| == |s| && ValidDraws(draws) && Shuffled(s, draws) == t;
    }
    assert (exists draws: seq<nat> :: |draws| == |s| && ValidDraws(draws) && Shuffled(s, draws) == t)
           ==> multiset(t) == multiset(s);
  }
}
