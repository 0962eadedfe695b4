/** The random helpers of the trivia endpoints: the in-place Fisher-Yates
    `shuffle` and `pickN`, which shuffles the indexed values and keeps the
    first n.  `Math.random` is an oracle: a sequence of draws. */
module TriviaRandom {
  import opened Common
  import opened Ordering

  /** `Math.floor(Math.random() * (i + 1))` for the swap at position i; the
      i-th draw decides it, and a missing draw reads as 0. */
  function Pick(draws: seq<int>, i: nat): (j: nat)
    ensures j <= i
  {
    if i < |draws| then draws[i] % (i + 1) else 0
  }

  /** Every position up to i can be the one drawn. */
  lemma PickReachesAll(i: nat, j: nat)
    requires j <= i
    ensures Pick(seq(i + 1, k => j), i) == j
  {
  }

  function Swap<T>(s: seq<T>, i: nat, j: nat): (r: seq<T>)
    requires i < |s| && j < |s|
    ensures |r| == |s|
  {
    s[i := s[j]][j := s[i]]
  }

  lemma SwapPermutes<T>(s: seq<T>, i: nat, j: nat)
    requires i < |s| && j < |s|
    ensures multiset(Swap(s, i, j)) == multiset(s)
  {
    var t := s[i := s[j]];
    assert multiset(t) == multiset(s) - multiset{s[i]} + multiset{s[j]};
    assert multiset(t[j := s[i]]) == multiset(t) - multiset{t[j]} + multiset{s[i]};
  }

  /** The loop body for positions k-1 down to 1. */
  function Steps<T>(s: seq<T>, draws: seq<int>, k: nat): (r: seq<T>)
    requires k <= |s|
    ensures |r| == |s|
    decreases k
  {
    if k <= 1 then s else Steps(Swap(s, k - 1, Pick(draws, k - 1)), draws, k - 1)
  }

  /** What `shuffle` leaves in its array. */
  function Shuffled<T>(s: seq<T>, draws: seq<int>): (r: seq<T>)
    ensures |r| == |s|
  {
    Steps(s, draws, |s|)
  }

  lemma {:induction false} StepsPermutes<T>(s: seq<T>, draws: seq<int>, k: nat)
    requires k <= |s|
    ensures multiset(Steps(s, draws, k)) == multiset(s)
    decreases k
  {
    if k > 1 {
      SwapPermutes(s, k - 1, Pick(draws, k - 1));
      StepsPermutes(Swap(s, k - 1, Pick(draws, k - 1)), draws, k - 1);
    }
  }

  /** Shuffling rearranges: same length, same elements with the same multiplicities. */
  lemma ShuffledPermutes<T>(s: seq<T>, draws: seq<int>)
    ensures |Shuffled(s, draws)| == |s|
    ensures multiset(Shuffled(s, draws)) == multiset(s)
  {
    StepsPermutes(s, draws, |s|);
  }

  /** A shuffle holds exactly the values it was given. */
  lemma ShuffledMembers<T>(s: seq<T>, draws: seq<int>, x: T)
    ensures |Shuffled(s, draws)| == |s|
    ensures x in Shuffled(s, draws) <==> x in s
  {
    ShuffledPermutes(s, draws);
    assert x in Shuffled(s, draws) <==> x in multiset(Shuffled(s, draws));
    assert x in s <==> x in multiset(s);
  }

  /** `shuffle(a)`: swaps in place from the last position down and returns the same array. */
  method Shuffle<T>(a: array<T>, draws: seq<int>) returns (r: array<T>)
    modifies a
    ensures r == a
    ensures a[..] == Shuffled(old(a[..]), draws)
    ensures multiset(a[..]) == multiset(old(a[..]))
  {
    ShuffledPermutes(a[..], draws);
    var i := a.Length - 1;
    while i > 0
      invariant -1 <= i < a.Length
      invariant Steps(a[..], draws, i + 1) == Shuffled(old(a[..]), draws)
      decreases i
    {
      var j := Pick(draws, i);
      a[i], a[j] := a[j], a[i];
      i := i - 1;
    }
    r := a;
  }

  // ---------- pickN ----------

  /** `arr.map((v, i) => ({v, i}))` restricted to the first n positions, without `exceptIdx`. */
  function IndexedUpTo<T>(arr: seq<T>, except: int, n: nat): (r: seq<(T, int)>)
    requires n <= |arr|
    ensures forall k :: 0 <= k < |r| ==> 0 <= r[k].1 < n && r[k].1 != except && r[k].0 == arr[r[k].1]
    ensures forall k, l :: 0 <= k < l < |r| ==> r[k].1 < r[l].1
    ensures forall i :: 0 <= i < n && i != except ==> (arr[i], i) in r
    ensures |r| == n - (if 0 <= except < n then 1 else 0)
  {
    if n == 0 then []
    else IndexedUpTo(arr, except, n - 1) + (if n - 1 != except then [(arr[n - 1], n - 1)] else [])
  }

  /** `arr.map((v, i) => ({v, i})).filter(x => x.i !== exceptIdx)`. */
  function Indexed<T>(arr: seq<T>, except: int): (r: seq<(T, int)>)
    ensures forall k :: 0 <= k < |r| ==> 0 <= r[k].1 < |arr| && r[k].1 != except && r[k].0 == arr[r[k].1]
    ensures forall k, l :: 0 <= k < l < |r| ==> r[k].1 < r[l].1
    ensures |r| == |arr| - (if 0 <= except < |arr| then 1 else 0)
  {
    IndexedUpTo(arr, except, |arr|)
  }

  function Values<T>(s: seq<(T, int)>): (r: seq<T>)
    ensures |r| == |s| && forall k :: 0 <= k < |s| ==> r[k] == s[k].0
  {
    if s == [] then [] else [s[0].0] + Values(s[1..])
  }

  function Positions<T>(s: seq<(T, int)>): (r: seq<int>)
    ensures |r| == |s| && forall k :: 0 <= k < |s| ==> r[k] == s[k].1
  {
    if s == [] then [] else [s[0].1] + Positions(s[1..])
  }

  /** What `pickN(arr, n, exceptIdx)` returns. */
  function Picked<T>(arr: seq<T>, n: nat, except: int, draws: seq<int>): seq<T> {
    Values(Take(Shuffled(Indexed(arr, except), draws), n))
  }

  /** The input positions the picked values come from. */
  function PickedPositions<T>(arr: seq<T>, n: nat, except: int, draws: seq<int>): seq<int> {
    Positions(Take(Shuffled(Indexed(arr, except), draws), n))
  }

  lemma {:induction false} DistinctCountsOnce<T>(s: seq<T>, x: T)
    requires forall k, l :: 0 <= k < l < |s| ==> s[k] != s[l]
    ensures multiset(s)[x] <= 1
  {
    if s != [] {
      DistinctCountsOnce(s[1..], x);
      assert s == [s[0]] + s[1..];
      assert s[0] !in s[1..];
    }
  }

  lemma RepeatCountsTwice<T>(s: seq<T>, k: nat, l: nat)
    requires k < l < |s| && s[k] == s[l]
    ensures multiset(s)[s[k]] >= 2
  {
    assert s == s[..l] + [s[l]] + s[l + 1..];
    assert s[k] in s[..l];
  }

  /** `pickN` returns min(n, available) values, each taken from its own input
      position, never the excepted one. */
  lemma PickedSound<T>(arr: seq<T>, n: nat, except: int, draws: seq<int>)
    ensures var r := Picked(arr, n, except, draws);
      var p := PickedPositions(arr, n, except, draws);
      && |r| == |p| == Min(n, |arr| - (if 0 <= except < |arr| then 1 else 0))
      && (forall k :: 0 <= k < |p| ==> 0 <= p[k] < |arr| && p[k] != except && r[k] == arr[p[k]])
      && (forall k, l :: 0 <= k < l < |p| ==> p[k] != p[l])
  {
    var ix := Indexed(arr, except);
    var sh := Shuffled(ix, draws);
    ShuffledPermutes(ix, draws);
    var t := Take(sh, n);
    assert forall k :: 0 <= k < |t| ==> t[k] == sh[k];
    forall k | 0 <= k < |sh|
      ensures 0 <= sh[k].1 < |arr| && sh[k].1 != except && sh[k].0 == arr[sh[k].1]
    {
      assert sh[k] in multiset(ix);
      var m :| 0 <= m < |ix| && ix[m] == sh[k];
    }
    forall k, l | 0 <= k < l < |t|
      ensures t[k].1 != t[l].1
    {
      if t[k].1 == t[l].1 {
        assert sh[k] == sh[l];
        RepeatCountsTwice(sh, k, l);
        DistinctCountsOnce(ix, sh[k]);
        assert false;
      }
    }
  }

  /** `pickN(arr, n, exceptIdx)`: index, filter, shuffle in place, keep the first n values. */
  method PickN<T>(arr: seq<T>, n: nat, except: int, draws: seq<int>) returns (r: seq<T>)
    ensures r == Picked(arr, n, except, draws)
  {
    var ix := Indexed(arr, except);
    var a := new (T, int)[|ix|](k requires 0 <= k < |ix| => ix[k]);
    assert a[..] == ix;
    var _ := Shuffle(a, draws);
    r := Values(Take(a[..], n));
  }
}
