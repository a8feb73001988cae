/**
  `Array.prototype.filter` over an immutable list, and the order it keeps:
  every list screen derives what it shows this way from a fixed source list.
 */
module Filtering {

  /** `a` can be obtained from `b` by deleting elements, keeping the order. */
  predicate IsSubsequence<T(==,!new)>(a: seq<T>, b: seq<T>)
    decreases |b|
  {
    if |a| == 0 then true
    else if |b| == 0 then false
    else (a[0] == b[0] && IsSubsequence(a[1..], b[1..])) || IsSubsequence(a, b[1..])
  }

  /** `s.filter(keep)`: the elements that pass, in their original order, each
      kept exactly as often as it occurs in `s`. */
  function Filter<T(==,!new)>(s: seq<T>, keep: T -> bool): (r: seq<T>)
    ensures IsSubsequence(r, s)
    ensures forall x :: x in r <==> x in s && keep(x)
    decreases |s|
  {
    if |s| == 0 then []
    else
      var rest := Filter(s[1..], keep);
      assert s == [s[0]] + s[1..];
      if keep(s[0]) then
        assert ([s[0]] + rest)[1..] == rest;
        [s[0]] + rest
      else rest
  }

  /** Each passing element is kept as often as it occurs; failing ones never. */
  lemma {:induction false} FilterCounts<T(!new)>(s: seq<T>, keep: T -> bool)
    ensures forall x :: multiset(Filter(s, keep))[x] == if keep(x) then multiset(s)[x] else 0
    decreases |s|
  {
    if |s| > 0 {
      FilterCounts(s[1..], keep);
      assert s == [s[0]] + s[1..];
    }
  }

  /** When every element passes, the filter returns the list itself. */
  lemma {:induction false} FilterAllPass<T(!new)>(s: seq<T>, keep: T -> bool)
    requires forall i :: 0 <= i < |s| ==> keep(s[i])
    ensures Filter(s, keep) == s
    decreases |s|
  {
    if |s| > 0 {
      FilterAllPass(s[1..], keep);
      assert s == [s[0]] + s[1..];
    }
  }

  /** Elements that fail at the front leave no trace in the result. */
  lemma {:induction false} FilterSkipsFailingPrefix<T(!new)>(s: seq<T>, keep: T -> bool, k: nat)
    requires k <= |s|
    requires forall i :: 0 <= i < k ==> !keep(s[i])
    ensures Filter(s, keep) == Filter(s[k..], keep)
    decreases k
  {
    if k > 0 {
      assert s[1..][k - 1..] == s[k..];
      forall i | 0 <= i < k - 1 ensures !keep(s[1..][i]) {
        assert s[1..][i] == s[i + 1];
      }
      FilterSkipsFailingPrefix(s[1..], keep, k - 1);
    }
  }

  /** When the first `k` elements fail and the rest pass, the result is the rest. */
  lemma FilterKeepsSuffix<T(!new)>(s: seq<T>, keep: T -> bool, k: nat)
    requires k <= |s|
    requires forall i :: 0 <= i < |s| ==> (keep(s[i]) <==> k <= i)
    ensures Filter(s, keep) == s[k..]
  {
    FilterSkipsFailingPrefix(s, keep, k);
    forall i | 0 <= i < |s[k..]| ensures keep(s[k..][i]) {
      assert s[k..][i] == s[k + i];
    }
    FilterAllPass(s[k..], keep);
  }

  /** When exactly the element at `k` fails, the filter cuts out just that position. */
  lemma {:induction false} FilterDropsOne<T(!new)>(s: seq<T>, keep: T -> bool, k: nat)
    requires k < |s| && !keep(s[k])
    requires forall i :: 0 <= i < |s| && i != k ==> keep(s[i])
    ensures Filter(s, keep) == s[..k] + s[k + 1..]
    decreases |s|
  {
    var t := s[1..];
    forall i | 0 <= i < |t| && i != k - 1 ensures keep(t[i]) {
      assert t[i] == s[i + 1];
    }
    if k == 0 {
      FilterAllPass(t, keep);
      assert Filter(s, keep) == Filter(t, keep);
    } else {
      FilterDropsOne(t, keep, k - 1);
      assert Filter(s, keep) == [s[0]] + Filter(t, keep);
      assert s[..k] + s[k + 1..] == [s[0]] + (t[..k - 1] + t[k..]);
    }
  }

  /** The filter drops something exactly when some element fails the test. */
  lemma {:induction false} FilterShorterIff<T(!new)>(s: seq<T>, keep: T -> bool)
    ensures |Filter(s, keep)| <= |s|
    ensures |Filter(s, keep)| < |s| <==> exists i :: 0 <= i < |s| && !keep(s[i])
    decreases |s|
  {
    if |s| > 0 {
      FilterShorterIff(s[1..], keep);
      if exists i :: 0 <= i < |s[1..]| && !keep(s[1..][i]) {
        var i :| 0 <= i < |s[1..]| && !keep(s[1..][i]);
        assert !keep(s[i + 1]);
      }
      if exists i :: 0 <= i < |s| && !keep(s[i]) {
        var i :| 0 <= i < |s| && !keep(s[i]);
        if i > 0 {
          assert !keep(s[1..][i - 1]);
        }
      }
    }
  }

  /** The filter returns nothing exactly when every element fails. */
  lemma {:induction false} FilterEmptyIff<T(!new)>(s: seq<T>, keep: T -> bool)
    ensures Filter(s, keep) == [] <==> forall i :: 0 <= i < |s| ==> !keep(s[i])
    decreases |s|
  {
    if |s| > 0 {
      FilterEmptyIff(s[1..], keep);
      assert forall i :: 1 <= i < |s| ==> s[i] == s[1..][i - 1];
    }
  }

  /** Filtering the output again with the same test changes nothing. */
  lemma FilterIdempotent<T(!new)>(s: seq<T>, keep: T -> bool)
    ensures Filter(Filter(s, keep), keep) == Filter(s, keep)
  {
    var r := Filter(s, keep);
    forall i | 0 <= i < |r| ensures keep(r[i]) {
      assert r[i] in r;
    }
    FilterAllPass(r, keep);
  }

  /** Every element of a subsequence comes from the larger sequence. */
  lemma {:induction false} SubsequenceMembers<T(!new)>(a: seq<T>, b: seq<T>)
    requires IsSubsequence(a, b)
    ensures forall x :: x in a ==> x in b
    decreases |b|
  {
    if |a| > 0 {
      if a[0] == b[0] && IsSubsequence(a[1..], b[1..]) {
        SubsequenceMembers(a[1..], b[1..]);
        assert a == [a[0]] + a[1..];
      } else {
        SubsequenceMembers(a, b[1..]);
      }
    }
  }

  /** `s` is ordered by strictly decreasing `key`, first element largest. */
  predicate StrictlyDecreasing<T>(s: seq<T>, key: T -> int) {
    forall i, j :: 0 <= i < j < |s| ==> key(s[i]) > key(s[j])
  }

  /** Deleting elements keeps a strictly decreasing order. */
  lemma {:induction false} SubsequenceKeepsOrder<T(!new)>(a: seq<T>, b: seq<T>, key: T -> int)
    requires IsSubsequence(a, b) && StrictlyDecreasing(b, key)
    ensures StrictlyDecreasing(a, key)
    decreases |b|
  {
    if |a| > 0 {
      assert StrictlyDecreasing(b[1..], key) by {
        forall i, j | 0 <= i < j < |b[1..]| ensures key(b[1..][i]) > key(b[1..][j]) {
          assert b[1..][i] == b[i + 1] && b[1..][j] == b[j + 1];
        }
      }
      if a[0] == b[0] && IsSubsequence(a[1..], b[1..]) {
        SubsequenceKeepsOrder(a[1..], b[1..], key);
        SubsequenceMembers(a[1..], b[1..]);
        forall i, j | 0 <= i < j < |a| ensures key(a[i]) > key(a[j]) {
          assert a[j] == a[1..][j - 1];
          assert a[j] in b[1..];
          var m :| 0 <= m < |b[1..]| && b[1..][m] == a[j];
          assert b[m + 1] == a[j];
          if i > 0 {
            assert a[i] == a[1..][i - 1];
          }
        }
      } else {
        SubsequenceKeepsOrder(a, b[1..], key);
      }
    }
  }
}
