/** The inside-out Fisher-Yates shuffle of `shuffleGeneratedFilePaths`: for
    i = 0, 1, ..., swap element i with element j, where j = Intn(i + 1). */
module Shuffle {
  import opened Types

  /** The simultaneous assignment `s[i], s[j] = s[j], s[i]`. */
  function Swap<T>(s: seq<T>, i: nat, j: nat): (r: seq<T>)
    requires i < |s| && j < |s|
    ensures |r| == |s|
  {
    seq(|s|, k requires 0 <= k < |s| => if k == j then s[i] else if k == i then s[j] else s[k])
  }

  /** A swap permutes the elements. */
  lemma SwapPermutes<T>(s: seq<T>, i: nat, j: nat)
    requires i < |s| && j < |s|
    ensures multiset(Swap(s, i, j)) == multiset(s)
  {
    assert Swap(s, i, j) == s[i := s[j]][j := s[i]];
  }

  /** Every swap partner lies in [0, i] (i < |s|). */
  predicate ValidChoices(js: seq<nat>, n: nat) {
    |js| <= n && forall i :: 0 <= i < |js| ==> js[i] <= i
  }

  /** `s` after the first k swaps, the i-th swap exchanging i and js[i]. */
  function Shuffled<T>(s: seq<T>, js: seq<nat>, k: nat): (r: seq<T>)
    requires ValidChoices(js, |s|) && k <= |js|
    ensures |r| == |s|
  {
    if k == 0 then s else Swap(Shuffled(s, js, k - 1), k - 1, js[k - 1])
  }

  /** The first k swaps only touch the first k positions: the rest of the
      list is still in its original order. */
  lemma {:induction false} ShuffledKeepsTail<T>(s: seq<T>, js: seq<nat>, k: nat)
    requires ValidChoices(js, |s|) && k <= |js|
    ensures Shuffled(s, js, k)[k..] == s[k..]
  {
    if k > 0 {
      ShuffledKeepsTail(s, js, k - 1);
      var prev := Shuffled(s, js, k - 1);
      assert forall i :: k <= i < |s| ==> Shuffled(s, js, k)[i] == prev[i] == prev[k - 1..][i - (k - 1)];
    }
  }

  /** Whatever the choices, shuffling keeps the length and the multiset of
      elements: the result is a permutation of the input. */
  lemma {:induction false} ShuffledIsPermutation<T>(s: seq<T>, js: seq<nat>, k: nat)
    requires ValidChoices(js, |s|) && k <= |js|
    ensures multiset(Shuffled(s, js, k)) == multiset(s)
  {
    if k > 0 {
      ShuffledIsPermutation(s, js, k - 1);
      var prev := Shuffled(s, js, k - 1);
      calc {
        multiset(Shuffled(s, js, k));
        multiset(Swap(prev, k - 1, js[k - 1]));
        { SwapPermutes(prev, k - 1, js[k - 1]); }
        multiset(prev);
        multiset(s);
      }
    } else {
      assert Shuffled(s, js, k) == s;
    }
  }

  /** The swap partners the shuffle draws from `ds`: `Intn(i + 1)` for
      i = 0 .. n - 1, one draw each. */
  function Choices(ds: seq<nat>, n: nat): (js: seq<nat>)
    requires n <= |ds|
    ensures |js| == n && ValidChoices(js, n)
  {
    seq(n, i requires 0 <= i < n => ds[i] % (i + 1))
  }

  /** No element occurs twice. */
  predicate Distinct<T(==)>(s: seq<T>) {
    forall i, j :: 0 <= i < j < |s| ==> s[i] != s[j]
  }

  /** A swap keeps the elements distinct. */
  lemma SwapKeepsDistinct<T>(s: seq<T>, i: nat, j: nat)
    requires i < |s| && j < |s| && Distinct(s)
    ensures Distinct(Swap(s, i, j))
  {
    var r := Swap(s, i, j);
    forall a, b | 0 <= a < b < |s|
      ensures r[a] != r[b]
    {
      var sa := if a == j then i else if a == i then j else a;
      var sb := if b == j then i else if b == i then j else b;
      assert r[a] == s[sa] && r[b] == s[sb] && sa != sb;
    }
  }

  /** Shuffling keeps the elements distinct. */
  lemma {:induction false} ShuffledDistinct<T>(s: seq<T>, js: seq<nat>, k: nat)
    requires ValidChoices(js, |s|) && k <= |js| && Distinct(s)
    ensures Distinct(Shuffled(s, js, k))
  {
    if k > 0 {
      ShuffledDistinct(s, js, k - 1);
      SwapKeepsDistinct(Shuffled(s, js, k - 1), k - 1, js[k - 1]);
    }
  }
}
