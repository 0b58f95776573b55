/** Generic sequence operations that stand for Ruby's Array#select, #reject, #detect and #reverse. */
module Seqs {
  import opened Wrappers

  /** The complement of a predicate: `Filter(Not(f), s)` is Ruby's `s.reject { f }`. */
  function Not<T>(keep: T -> bool): T -> bool
  {
    x => !keep(x)
  }

  /** The elements of `s` that satisfy `keep`, in their order in `s` (Ruby's `select`). */
  function Filter<T>(keep: T -> bool, s: seq<T>): (r: seq<T>)
    ensures |r| <= |s|
    ensures forall i :: 0 <= i < |r| ==> r[i] in s && keep(r[i])
    ensures forall i :: 0 <= i < |s| && keep(s[i]) ==> s[i] in r
  {
    if s == [] then []
    else if keep(s[0]) then [s[0]] + Filter(keep, s[1..])
    else Filter(keep, s[1..])
  }

  /** Filtering a concatenation filters each part and keeps the parts in order:
      the kept elements of `a` all stay ahead of the kept elements of `b`. */
  lemma {:induction false} FilterConcat<T>(keep: T -> bool, a: seq<T>, b: seq<T>)
    ensures Filter(keep, a + b) == Filter(keep, a) + Filter(keep, b)
  {
    if a == [] {
      assert a + b == b;
    } else {
      assert (a + b)[0] == a[0];
      assert (a + b)[1..] == a[1..] + b;
      FilterConcat(keep, a[1..], b);
    }
  }

  /** Filtering twice with the same predicate is the same as filtering once. */
  lemma {:induction false} FilterIdempotent<T>(keep: T -> bool, s: seq<T>)
    ensures Filter(keep, Filter(keep, s)) == Filter(keep, s)
  {
    if s != [] {
      FilterIdempotent(keep, s[1..]);
      if keep(s[0]) {
        var r := [s[0]] + Filter(keep, s[1..]);
        assert r[0] == s[0] && r[1..] == Filter(keep, s[1..]);
      }
    }
  }

  /** A filter leaves the sequence unchanged exactly when every element passes. */
  lemma {:induction false} FilterKeepsAll<T>(keep: T -> bool, s: seq<T>)
    ensures Filter(keep, s) == s <==> forall i :: 0 <= i < |s| ==> keep(s[i])
  {
    if s != [] {
      FilterKeepsAll(keep, s[1..]);
      if !keep(s[0]) {
        assert |Filter(keep, s)| < |s|;
      } else if Filter(keep, s) == s {
        assert Filter(keep, s[1..]) == s[1..];
      } else {
        assert Filter(keep, s[1..]) != s[1..];
      }
    }
  }

  /** A filter keeps nothing exactly when no element passes. */
  lemma FilterKeepsNone<T>(keep: T -> bool, s: seq<T>)
    ensures Filter(keep, s) == [] <==> forall i :: 0 <= i < |s| ==> !keep(s[i])
  {
    if Filter(keep, s) != [] {
      assert Filter(keep, s)[0] in Filter(keep, s);
    }
  }

  /** Every element occurs in the result as often as in the input when it passes, and not at all otherwise. */
  lemma {:induction false} FilterMultiplicity<T>(keep: T -> bool, s: seq<T>, x: T)
    ensures multiset(Filter(keep, s))[x] == if keep(x) then multiset(s)[x] else 0
  {
    if s != [] {
      FilterMultiplicity(keep, s[1..], x);
      assert s == [s[0]] + s[1..];
      assert multiset(s) == multiset([s[0]]) + multiset(s[1..]);
      if keep(s[0]) {
        assert multiset(Filter(keep, s)) == multiset([s[0]]) + multiset(Filter(keep, s[1..]));
      }
    }
  }

  /** A predicate and its complement split a sequence between them. */
  lemma {:induction false} FilterPartition<T>(keep: T -> bool, s: seq<T>)
    ensures |Filter(keep, s)| + |Filter(Not(keep), s)| == |s|
    ensures multiset(Filter(keep, s)) + multiset(Filter(Not(keep), s)) == multiset(s)
  {
    if s != [] {
      FilterPartition(keep, s[1..]);
      assert Not(keep)(s[0]) == !keep(s[0]);
      assert s == [s[0]] + s[1..];
      assert multiset(s) == multiset([s[0]]) + multiset(s[1..]);
    }
  }

  /** The first element of `s` that satisfies `keep`, or `None` (Ruby's `detect`). */
  function Detect<T>(keep: T -> bool, s: seq<T>): (r: Option<T>)
    ensures r.None? <==> forall i :: 0 <= i < |s| ==> !keep(s[i])
    ensures r.Some? ==> exists i :: 0 <= i < |s| && s[i] == r.value && keep(s[i]) && forall j :: 0 <= j < i ==> !keep(s[j])
  {
    if s == [] then None
    else if keep(s[0]) then Some(s[0])
    else
      var r := Detect(keep, s[1..]);
      assert r.None? <==> forall i :: 1 <= i < |s| ==> !keep(s[i]) by {
        assert forall i :: 1 <= i < |s| ==> s[i] == s[1..][i - 1];
      }
      assert r.Some? ==> exists i :: 0 <= i < |s| && s[i] == r.value && keep(s[i]) && forall j :: 0 <= j < i ==> !keep(s[j]) by {
        if r.Some? {
          var i :| 0 <= i < |s[1..]| && s[1..][i] == r.value && keep(s[1..][i]) && forall j :: 0 <= j < i ==> !keep(s[1..][j]);
          assert s[i + 1] == r.value && keep(s[i + 1]);
          assert forall j :: 0 <= j < i + 1 ==> !keep(s[j]) by {
            forall j | 0 <= j < i + 1 ensures !keep(s[j]) {
              if j > 0 { assert s[j] == s[1..][j - 1]; }
            }
          }
        }
      }
      r
  }

  /** The elements of `s` last to first (Ruby's `reverse`). */
  function Reverse<T>(s: seq<T>): (r: seq<T>)
    ensures |r| == |s|
  {
    if s == [] then [] else [s[|s| - 1]] + Reverse(s[..|s| - 1])
  }

  /** Position `i` of the reversal holds the element `i` places from the end. */
  lemma {:induction false} ReverseAt<T>(s: seq<T>, i: int)
    requires 0 <= i < |s|
    ensures Reverse(s)[i] == s[|s| - 1 - i]
  {
    if i > 0 {
      ReverseAt(s[..|s| - 1], i - 1);
    }
  }

  /** Every position of the reversal at once, and its multiset. */
  lemma ReverseAll<T>(s: seq<T>)
    ensures forall i :: 0 <= i < |s| ==> Reverse(s)[i] == s[|s| - 1 - i]
    ensures multiset(Reverse(s)) == multiset(s)
  {
    forall i | 0 <= i < |s| ensures Reverse(s)[i] == s[|s| - 1 - i] {
      ReverseAt(s, i);
    }
    ReverseMultiset(s);
  }

  /** Reversal keeps every element with its multiplicity. */
  lemma {:induction false} ReverseMultiset<T>(s: seq<T>)
    ensures multiset(Reverse(s)) == multiset(s)
  {
    if s != [] {
      ReverseMultiset(s[..|s| - 1]);
      assert s == s[..|s| - 1] + [s[|s| - 1]];
    }
  }
}
