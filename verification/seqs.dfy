/** Searches over sequences: the "first element that matches" loops that recur
    throughout the source (`for (…) if (…) return …;`). */
module Seqs {
  import opened Wrappers

  predicate Distinct<T(==)>(s: seq<T>) {
    forall i, j :: 0 <= i < j < |s| ==> s[i] != s[j]
  }

  /** Without repetitions, the head does not recur in the tail, which has no
      repetitions either. */
  lemma DistinctTail<T>(s: seq<T>)
    requires |s| > 0 && Distinct(s)
    ensures Distinct(s[1..]) && s[0] !in s[1..]
  {
    forall i | 0 <= i < |s[1..]|
      ensures s[1..][i] != s[0]
    {
      assert s[1..][i] == s[i + 1];
    }
    forall i, j | 0 <= i < j < |s[1..]|
      ensures s[1..][i] != s[1..][j]
    {
      assert s[1..][i] == s[i + 1] && s[1..][j] == s[j + 1];
    }
  }

  /** Index of the first element satisfying `p`. */
  function FirstIndexWhere<T>(s: seq<T>, p: T -> bool): (r: Option<nat>)
    ensures r.Some? ==> r.value < |s| && p(s[r.value])
    ensures r.Some? ==> forall j :: 0 <= j < r.value ==> !p(s[j])
    ensures r.None? ==> forall j :: 0 <= j < |s| ==> !p(s[j])
  {
    if s == [] then None
    else if p(s[0]) then Some(0)
    else match FirstIndexWhere(s[1..], p)
      case Some(i) => Some(i + 1)
      case None => None
  }

  /** The first element satisfying `p`. */
  function FirstWhere<T>(s: seq<T>, p: T -> bool): (r: Option<T>)
    ensures r.Some? ==> r.value in s && p(r.value)
    ensures r.None? <==> forall j :: 0 <= j < |s| ==> !p(s[j])
  {
    match FirstIndexWhere(s, p)
    case Some(i) => Some(s[i])
    case None => None
  }

  /** `s` with the element at `i` removed and the rest in order. */
  function RemoveAt<T>(s: seq<T>, i: nat): (r: seq<T>)
    requires i < |s|
    ensures |r| == |s| - 1
    ensures forall k :: 0 <= k < i ==> r[k] == s[k]
    ensures forall k :: i <= k < |r| ==> r[k] == s[k + 1]
    ensures multiset(r) + multiset{s[i]} == multiset(s)
  {
    assert s == s[..i] + [s[i]] + s[i + 1..];
    s[..i] + s[i + 1..]
  }

  /** Positions listed in increasing order. */
  predicate Increasing(ix: seq<int>) {
    forall k, l :: 0 <= k < l < |ix| ==> ix[k] < ix[l]
  }

  /** `s` is `t` with some elements deleted and the others kept in order:
      `s[k]` is the element of `t` at position `ix[k]`. */
  ghost predicate SubseqAt<T>(s: seq<T>, t: seq<T>, ix: seq<int>) {
    && |ix| == |s|
    && Increasing(ix)
    && forall k :: 0 <= k < |ix| ==> 0 <= ix[k] < |t| && s[k] == t[ix[k]]
  }

  /** The positions `0 .. n - 1`. */
  function Iota(n: nat): (ix: seq<int>)
    ensures |ix| == n && forall k :: 0 <= k < n ==> ix[k] == k
  {
    seq(n, k requires 0 <= k < n => k)
  }

  /** Nothing deleted: every position kept. */
  lemma SubseqAll<T>(t: seq<T>)
    ensures SubseqAt(t, t, Iota(|t|))
    ensures forall x :: x in Iota(|t|) <==> 0 <= x < |t|
  {
    forall x | 0 <= x < |t|
      ensures x in Iota(|t|)
    {
      assert Iota(|t|)[x] == x;
    }
  }

  /** Deleting one more element of the subsequence deletes its position from
      the kept positions. */
  lemma SubseqRemoveAt<T>(s: seq<T>, t: seq<T>, ix: seq<int>, f: nat)
    requires SubseqAt(s, t, ix) && f < |s|
    ensures SubseqAt(RemoveAt(s, f), t, RemoveAt(ix, f))
    ensures forall x :: x in RemoveAt(ix, f) <==> x in ix && x != ix[f]
  {
    var jx := RemoveAt(ix, f);
    forall k, l | 0 <= k < l < |jx|
      ensures jx[k] < jx[l]
    {
      var k' := if k < f then k else k + 1;
      var l' := if l < f then l else l + 1;
      assert jx[k] == ix[k'] && jx[l] == ix[l'];
    }
    forall x
      ensures x in jx <==> x in ix && x != ix[f]
    {
      if x in jx {
        var k :| 0 <= k < |jx| && jx[k] == x;
        var k' := if k < f then k else k + 1;
        assert ix[k'] == x && k' != f;
      }
      if x in ix && x != ix[f] {
        var k :| 0 <= k < |ix| && ix[k] == x;
        assert k != f;
        if k < f {
          assert jx[k] == x;
        } else {
          assert jx[k - 1] == x;
        }
      }
    }
  }

  lemma IncreasingHeadLeast(s: seq<int>, j: nat)
    requires Increasing(s) && j < |s|
    ensures s[0] <= s[j]
  {
    if j > 0 {
      assert s[0] < s[j];
    }
  }

  /** A subsequence is fixed by the set of positions it keeps. */
  lemma {:induction false} IncreasingSameElements(s: seq<int>, t: seq<int>)
    requires Increasing(s) && Increasing(t)
    requires forall x :: x in s <==> x in t
    ensures s == t
    decreases |s|
  {
    if s != [] {
      assert s[0] in s;
    }
    if t != [] {
      assert t[0] in t;
    }
    if s != [] && t != [] {
      var i :| 0 <= i < |t| && t[i] == s[0];
      var j :| 0 <= j < |s| && s[j] == t[0];
      IncreasingHeadLeast(s, j);
      IncreasingHeadLeast(t, i);
      forall x
        ensures x in s[1..] <==> x in t[1..]
      {
        if x in s[1..] {
          var k :| 1 <= k < |s| && s[k] == x;
          assert s[0] < s[k];
          assert x in t && x != t[0];
          var m :| 0 <= m < |t| && t[m] == x;
          assert t[1..][m - 1] == x;
        }
        if x in t[1..] {
          var k :| 1 <= k < |t| && t[k] == x;
          assert t[0] < t[k];
          assert x in s && x != s[0];
          var m :| 0 <= m < |s| && s[m] == x;
          assert s[1..][m - 1] == x;
        }
      }
      IncreasingSameElements(s[1..], t[1..]);
      assert s == [s[0]] + s[1..] && t == [t[0]] + t[1..];
    }
  }
}
