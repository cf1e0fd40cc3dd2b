/** Generic facts about sequences used by the filter, the money strip and the sort. */
module Seqs {

  /** `a` is obtained from `b` by deleting elements, the survivors keeping their order. */
  predicate IsSubsequence<T(==)>(a: seq<T>, b: seq<T>)
    decreases |b|
  {
    if |a| == 0 then true
    else if |b| == 0 then false
    else (a[0] == b[0] && IsSubsequence(a[1..], b[1..])) || IsSubsequence(a, b[1..])
  }

  /** Every element of a subsequence occurs in the longer sequence. */
  lemma {:induction false} SubsequenceMembers<T>(a: seq<T>, b: seq<T>)
    requires IsSubsequence(a, b)
    ensures forall x :: x in a ==> x in b
    decreases |b|
  {
    if |a| == 0 {
    } else if a[0] == b[0] && IsSubsequence(a[1..], b[1..]) {
      SubsequenceMembers(a[1..], b[1..]);
      forall x | x in a ensures x in b {
        if x != a[0] {
          assert x in a[1..];
        }
      }
    } else {
      SubsequenceMembers(a, b[1..]);
    }
  }

  /** Keeps exactly the elements satisfying `p`, in their original order
      (the `Array.prototype.filter` and global regex-replace idiom of the source). */
  function Select<T(==,!new)>(s: seq<T>, p: T -> bool): (r: seq<T>)
    ensures IsSubsequence(r, s)
    ensures forall x :: x in r ==> p(x)
    ensures forall x :: p(x) ==> multiset(r)[x] == multiset(s)[x]
    ensures |r| <= |s|
  {
    if |s| == 0 then []
    else
      assert s == [s[0]] + s[1..];
      var rest := Select(s[1..], p);
      if p(s[0]) then
        assert ([s[0]] + rest)[1..] == rest;
        [s[0]] + rest
      else rest
  }

  /** A subsequence holds each value at most as often as the longer sequence. */
  lemma {:induction false} SubsequenceMultiset<T>(a: seq<T>, b: seq<T>)
    requires IsSubsequence(a, b)
    ensures multiset(a) <= multiset(b)
    decreases |b|
  {
    if |a| == 0 {
    } else if a[0] == b[0] && IsSubsequence(a[1..], b[1..]) {
      SubsequenceMultiset(a[1..], b[1..]);
      assert a == [a[0]] + a[1..] && b == [b[0]] + b[1..];
    } else {
      SubsequenceMultiset(a, b[1..]);
      assert b == [b[0]] + b[1..];
    }
  }

  /** The contract of `Select` has exactly one solution: any order-preserving
      subsequence of passing elements that keeps every passing element as often
      as it occurs is `Select(s, p)`. */
  lemma {:induction false} SelectUnique<T(!new)>(s: seq<T>, r: seq<T>, p: T -> bool)
    requires IsSubsequence(r, s)
    requires forall x :: x in r ==> p(x)
    requires forall x :: p(x) ==> multiset(r)[x] == multiset(s)[x]
    ensures r == Select(s, p)
    decreases |s|
  {
    if |s| > 0 {
      assert s == [s[0]] + s[1..];
      SelectCons(s[0], s[1..], p);
      if p(s[0]) {
        assert |r| > 0 by {
          assert multiset(r)[s[0]] == multiset(s)[s[0]] > 0;
        }
        assert r[0] == s[0] && IsSubsequence(r[1..], s[1..]) by {
          if !(r[0] == s[0] && IsSubsequence(r[1..], s[1..])) {
            SubsequenceMultiset(r, s[1..]);
          }
        }
        assert multiset(r) == multiset{s[0]} + multiset(r[1..]) by {
          assert r == [r[0]] + r[1..];
        }
        assert forall x :: p(x) ==> multiset(r[1..])[x] == multiset(s[1..])[x];
        assert r == [s[0]] + r[1..];
        SelectUnique(s[1..], r[1..], p);
      } else {
        assert IsSubsequence(r, s[1..]) by {
          if |r| > 0 {
            assert r[0] != s[0];
          }
        }
        assert forall x :: p(x) ==> multiset(r)[x] == multiset(s[1..])[x];
        SelectUnique(s[1..], r, p);
      }
    }
  }

  /** Selecting from a sequence with one more element in front. */
  lemma SelectCons<T(!new)>(x: T, s: seq<T>, p: T -> bool)
    ensures Select([x] + s, p) == (if p(x) then [x] else []) + Select(s, p)
  {
    assert ([x] + s)[1..] == s;
  }

  /** A filter that keeps everything is the identity. */
  lemma {:induction false} SelectAll<T(!new)>(s: seq<T>, p: T -> bool)
    requires forall x :: x in s ==> p(x)
    ensures Select(s, p) == s
  {
    if |s| > 0 {
      SelectAll(s[1..], p);
    }
  }

  /** The elements of `s` in the opposite order. */
  function Reverse<T>(s: seq<T>): (r: seq<T>)
    ensures |r| == |s|
    ensures forall i :: 0 <= i < |s| ==> r[i] == s[|s| - 1 - i]
  {
    if |s| == 0 then [] else Reverse(s[1..]) + [s[0]]
  }

  /** Reversing permutes. */
  lemma {:induction false} ReversePermutes<T>(s: seq<T>)
    ensures multiset(Reverse(s)) == multiset(s)
  {
    if |s| > 0 {
      ReversePermutes(s[1..]);
      assert s == [s[0]] + s[1..];
    }
  }
}
