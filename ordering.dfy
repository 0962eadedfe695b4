/** `ORDER BY` and `LIMIT`: rows are ordered by a key that is a sequence of
    integers compared lexicographically (a proper prefix first), which covers
    numbers, byte-wise string comparison and descending columns (negated). */
module Ordering {
  import Common

  predicate LexLe(a: seq<int>, b: seq<int>)
    decreases |a|
  {
    if a == [] then true
    else if b == [] then false
    else a[0] < b[0] || (a[0] == b[0] && LexLe(a[1..], b[1..]))
  }

  lemma {:induction false} LexLeRefl(a: seq<int>)
    ensures LexLe(a, a)
    decreases |a|
  {
    if a != [] { LexLeRefl(a[1..]); }
  }

  lemma {:induction false} LexLeTotal(a: seq<int>, b: seq<int>)
    ensures LexLe(a, b) || LexLe(b, a)
    decreases |a|
  {
    if a != [] && b != [] && a[0] == b[0] {
      LexLeTotal(a[1..], b[1..]);
    }
  }

  lemma {:induction false} LexLeTrans(a: seq<int>, b: seq<int>, c: seq<int>)
    requires LexLe(a, b) && LexLe(b, c)
    ensures LexLe(a, c)
    decreases |a|
  {
    if a != [] && b != [] && c != [] && a[0] == b[0] == c[0] {
      LexLeTrans(a[1..], b[1..], c[1..]);
    }
  }

  /** A key that starts with one number orders first by that number. */
  lemma LexLeCons(x: int, a: seq<int>, y: int, b: seq<int>)
    ensures LexLe([x] + a, [y] + b) <==> x < y || (x == y && LexLe(a, b))
  {
    assert ([x] + a)[1..] == a;
    assert ([y] + b)[1..] == b;
  }

  /** Character codes of a string: byte-wise ("C" collation) comparison. */
  function Codes(s: string): (r: seq<int>)
    ensures |r| == |s|
  {
    if s == [] then [] else [s[0] as int] + Codes(s[1..])
  }

  /** `LOWER`, restricted to the ASCII letters. */
  function Lower(s: string): (r: string)
    ensures |r| == |s|
  {
    if s == [] then []
    else
      var c := s[0];
      [if 'A' <= c <= 'Z' then (c as int + 32) as char else c] + Lower(s[1..])
  }

  predicate SortedBy<T>(s: seq<T>, key: T -> seq<int>) {
    forall i, j :: 0 <= i < j < |s| ==> LexLe(key(s[i]), key(s[j]))
  }

  function Insert<T>(x: T, s: seq<T>, key: T -> seq<int>): (r: seq<T>)
    ensures |r| == |s| + 1
  {
    if s == [] then [x]
    else if LexLe(key(x), key(s[0])) then [x] + s
    else [s[0]] + Insert(x, s[1..], key)
  }

  /** Insertion sort; stable, so rows with equal keys keep their scan order. */
  function SortByKey<T>(s: seq<T>, key: T -> seq<int>): (r: seq<T>)
    ensures |r| == |s|
  {
    if s == [] then [] else Insert(s[0], SortByKey(s[1..], key), key)
  }

  lemma {:induction false} InsertPermutes<T>(x: T, s: seq<T>, key: T -> seq<int>)
    ensures multiset(Insert(x, s, key)) == multiset(s) + multiset{x}
  {
    if s != [] && !LexLe(key(x), key(s[0])) {
      InsertPermutes(x, s[1..], key);
      assert s == [s[0]] + s[1..];
    }
  }

  /** Prepending a row that ranks no later than every other keeps a list sorted. */
  lemma ConsSorted<T>(y: T, t: seq<T>, key: T -> seq<int>)
    requires SortedBy(t, key)
    requires forall j :: 0 <= j < |t| ==> LexLe(key(y), key(t[j]))
    ensures SortedBy([y] + t, key)
  {
    var r := [y] + t;
    forall i, j | 0 <= i < j < |r| ensures LexLe(key(r[i]), key(r[j])) {
      if i == 0 { assert r[j] == t[j - 1]; }
      else { assert r[i] == t[i - 1] && r[j] == t[j - 1]; }
    }
  }

  lemma {:induction false} InsertSorted<T>(x: T, s: seq<T>, key: T -> seq<int>)
    requires SortedBy(s, key)
    ensures SortedBy(Insert(x, s, key), key)
  {
    if s == [] {
    } else if LexLe(key(x), key(s[0])) {
      forall j | 0 <= j < |s| ensures LexLe(key(x), key(s[j])) {
        if j > 0 { LexLeTrans(key(x), key(s[0]), key(s[j])); }
      }
      ConsSorted(x, s, key);
    } else {
      LexLeTotal(key(x), key(s[0]));
      var t := Insert(x, s[1..], key);
      InsertSorted(x, s[1..], key);
      InsertPermutes(x, s[1..], key);
      forall j | 0 <= j < |t| ensures LexLe(key(s[0]), key(t[j])) {
        assert t[j] in multiset(t);
        if t[j] != x {
          assert t[j] in multiset(s[1..]);
          var k :| 0 <= k < |s[1..]| && s[1..][k] == t[j];
          assert LexLe(key(s[0]), key(s[k + 1]));
        }
      }
      ConsSorted(s[0], t, key);
    }
  }

  /** Sorting yields a sorted permutation of its input. */
  lemma {:induction false} SortByKeyCorrect<T>(s: seq<T>, key: T -> seq<int>)
    ensures multiset(SortByKey(s, key)) == multiset(s)
    ensures SortedBy(SortByKey(s, key), key)
    ensures |SortByKey(s, key)| == |s|
  {
    if s != [] {
      SortByKeyCorrect(s[1..], key);
      InsertPermutes(s[0], SortByKey(s[1..], key), key);
      InsertSorted(s[0], SortByKey(s[1..], key), key);
      assert s == [s[0]] + s[1..];
    }
  }

  /** `ORDER BY key LIMIT 1`: a row with the least key, or none when there are no rows. */
  function First<T>(s: seq<T>, key: T -> seq<int>): (r: Common.Option<T>)
    ensures r.None? <==> s == []
    ensures r.Some? ==> r.value in s
  {
    if s == [] then Common.None
    else
      SortByKeyCorrect(s, key);
      assert SortByKey(s, key)[0] in multiset(s);
      Common.Some(SortByKey(s, key)[0])
  }

  /** The row `LIMIT 1` keeps ranks no later than any row. */
  lemma FirstIsLeast<T>(s: seq<T>, key: T -> seq<int>, x: T)
    requires x in s
    ensures First(s, key).Some? && LexLe(key(First(s, key).value), key(x))
  {
    var t := SortByKey(s, key);
    SortByKeyCorrect(s, key);
    assert x in multiset(t);
    var j :| 0 <= j < |t| && t[j] == x;
    if j == 0 { LexLeRefl(key(x)); }
  }

  /** `LIMIT n`. */
  function Take<T>(s: seq<T>, n: nat): (r: seq<T>)
    ensures |r| == Common.Min(n, |s|)
  {
    if |s| <= n then s else s[..n]
  }

  /** Every row cut off by `LIMIT` ranks no earlier than each row that was kept. */
  lemma {:induction false} TakeKeepsTheFirst<T>(s: seq<T>, key: T -> seq<int>, n: nat, x: T)
    requires SortedBy(s, key)
    requires multiset(Take(s, n))[x] < multiset(s)[x]
    ensures forall i :: 0 <= i < |Take(s, n)| ==> LexLe(key(Take(s, n)[i]), key(x))
  {
    var k := |Take(s, n)|;
    assert s == s[..k] + s[k..];
    assert Take(s, n) == s[..k];
    assert multiset(s) == multiset(s[..k]) + multiset(s[k..]);
    assert x in multiset(s[k..]);
    var j :| 0 <= j < |s[k..]| && s[k..][j] == x;
    assert s[k + j] == x;
  }
}
