/** The stable sort both the route handler and the client view delegate to
    `Array.prototype.sort`. A comparator returns a number whose sign says which
    operand goes first; a non-positive result lets the left operand stay in front.
    The engine's algorithm is modelled by a stable insertion sort: with a comparator
    that is consistent in the ECMAScript sense (a total preorder whose sign flips
    when the operands are swapped) every stable sort yields this same sequence. */
module Sorting {
  import opened Seqs

  /** `cmp(a, b) <= 0` is a total, transitive relation: a consistent comparator. */
  ghost predicate TotalPreorder<T(!new)>(cmp: (T, T) -> int)
  {
    && (forall a, b :: cmp(a, b) <= 0 || cmp(b, a) <= 0)
    && (forall a, b, c :: cmp(a, b) <= 0 && cmp(b, c) <= 0 ==> cmp(a, c) <= 0)
  }

  /** `s` is in non-decreasing order under `cmp`. */
  ghost predicate Sorted<T>(s: seq<T>, cmp: (T, T) -> int)
  {
    forall i, j :: 0 <= i < j < |s| ==> cmp(s[i], s[j]) <= 0
  }

  /** `a` and `b` compare as equal, in both operand orders. */
  predicate Tied<T>(cmp: (T, T) -> int, a: T, b: T)
  {
    cmp(a, b) <= 0 && cmp(b, a) <= 0
  }

  /** No two distinct elements of `s` compare as equal: the keys in `s` are all distinct. */
  ghost predicate NoTiesIn<T>(s: seq<T>, cmp: (T, T) -> int)
  {
    forall a, b :: a in s && b in s && Tied(cmp, a, b) ==> a == b
  }

  /** The test "is tied with `x`", as a filter argument. */
  function TiedWith<T>(cmp: (T, T) -> int, x: T): T -> bool
  {
    y => Tied(cmp, y, x)
  }

  /** Inserts `x` in front of the first element it does not compare after. */
  function Insert<T>(x: T, s: seq<T>, cmp: (T, T) -> int): (r: seq<T>)
    ensures multiset(r) == multiset(s) + multiset{x}
    ensures |r| == |s| + 1
  {
    if |s| == 0 then [x]
    else if cmp(x, s[0]) <= 0 then [x] + s
    else
      assert s == [s[0]] + s[1..];
      [s[0]] + Insert(x, s[1..], cmp)
  }

  /** The sort: a permutation of its input. */
  function Sort<T>(s: seq<T>, cmp: (T, T) -> int): (r: seq<T>)
    ensures multiset(r) == multiset(s)
    ensures |r| == |s|
  {
    if |s| == 0 then []
    else
      assert s == [s[0]] + s[1..];
      Insert(s[0], Sort(s[1..], cmp), cmp)
  }

  /** A head below every element of a sorted tail gives a sorted sequence. */
  lemma ConsSorted<T>(h: T, t: seq<T>, cmp: (T, T) -> int)
    requires Sorted(t, cmp)
    requires forall k :: 0 <= k < |t| ==> cmp(h, t[k]) <= 0
    ensures Sorted([h] + t, cmp)
  {
    var r := [h] + t;
    forall i, j | 0 <= i < j < |r| ensures cmp(r[i], r[j]) <= 0 {
      if i == 0 {
        assert r[j] == t[j - 1];
      } else {
        assert r[i] == t[i - 1] && r[j] == t[j - 1];
      }
    }
  }

  /** An element of `Insert(x, s)` is `x` or an element of `s`. */
  lemma InsertMember<T>(x: T, s: seq<T>, cmp: (T, T) -> int, k: int)
    requires 0 <= k < |Insert(x, s, cmp)|
    ensures Insert(x, s, cmp)[k] == x || Insert(x, s, cmp)[k] in s
  {
    var t := Insert(x, s, cmp);
    assert t[k] in multiset(t);
  }

  /** Inserting into a sorted sequence keeps it sorted. */
  lemma {:induction false} InsertSorted<T(!new)>(x: T, s: seq<T>, cmp: (T, T) -> int)
    requires TotalPreorder(cmp)
    requires Sorted(s, cmp)
    ensures Sorted(Insert(x, s, cmp), cmp)
  {
    if |s| == 0 {
    } else if cmp(x, s[0]) <= 0 {
      forall k | 0 <= k < |s| ensures cmp(x, s[k]) <= 0 {
        if k > 0 {
          assert cmp(s[0], s[k]) <= 0;
        }
      }
      ConsSorted(x, s, cmp);
    } else {
      var t := Insert(x, s[1..], cmp);
      InsertSorted(x, s[1..], cmp);
      assert cmp(s[0], x) <= 0;
      forall k | 0 <= k < |t| ensures cmp(s[0], t[k]) <= 0 {
        InsertMember(x, s[1..], cmp, k);
        if t[k] != x {
          var m :| 0 <= m < |s[1..]| && s[1..][m] == t[k];
          assert s[m + 1] == t[k];
        }
      }
      ConsSorted(s[0], t, cmp);
    }
  }

  /** Under a consistent comparator the sort orders its output. */
  lemma {:induction false} SortSorted<T(!new)>(s: seq<T>, cmp: (T, T) -> int)
    requires TotalPreorder(cmp)
    ensures Sorted(Sort(s, cmp), cmp)
  {
    if |s| > 0 {
      SortSorted(s[1..], cmp);
      InsertSorted(s[0], Sort(s[1..], cmp), cmp);
    }
  }

  /** Sorting an already sorted sequence changes nothing, so sorting twice with
      the same comparator gives the same result as sorting once. */
  lemma {:induction false} SortOfSorted<T>(s: seq<T>, cmp: (T, T) -> int)
    requires Sorted(s, cmp)
    ensures Sort(s, cmp) == s
  {
    if |s| > 0 {
      assert Sorted(s[1..], cmp);
      SortOfSorted(s[1..], cmp);
      assert s == [s[0]] + s[1..];
    }
  }

  /** Sorting twice is sorting once. */
  lemma SortIdempotent<T(!new)>(s: seq<T>, cmp: (T, T) -> int)
    requires TotalPreorder(cmp)
    ensures Sort(Sort(s, cmp), cmp) == Sort(s, cmp)
  {
    SortSorted(s, cmp);
    SortOfSorted(Sort(s, cmp), cmp);
  }

  /** Inserting does not reorder elements tied with any `x`. */
  lemma {:induction false} InsertStable<T(!new)>(y: T, t: seq<T>, cmp: (T, T) -> int, x: T)
    requires TotalPreorder(cmp)
    ensures Select(Insert(y, t, cmp), TiedWith(cmp, x)) == Select([y] + t, TiedWith(cmp, x))
  {
    var p := TiedWith(cmp, x);
    if |t| == 0 {
    } else if cmp(y, t[0]) <= 0 {
    } else {
      InsertStable(y, t[1..], cmp, x);
      SelectCons(t[0], Insert(y, t[1..], cmp), p);
      SelectCons(y, t[1..], p);
      SelectCons(y, t, p);
      assert t == [t[0]] + t[1..];
      SelectCons(t[0], t[1..], p);
      assert !(p(t[0]) && p(y));
    }
  }

  /** Stability: for every `x`, the elements tied with `x` appear in the output in
      the same order as in the input. */
  lemma {:induction false} SortStable<T(!new)>(s: seq<T>, cmp: (T, T) -> int, x: T)
    requires TotalPreorder(cmp)
    ensures Select(Sort(s, cmp), TiedWith(cmp, x)) == Select(s, TiedWith(cmp, x))
  {
    if |s| > 0 {
      var p := TiedWith(cmp, x);
      SortStable(s[1..], cmp, x);
      InsertStable(s[0], Sort(s[1..], cmp), cmp, x);
      SelectCons(s[0], Sort(s[1..], cmp), p);
      SelectCons(s[0], s[1..], p);
      assert s == [s[0]] + s[1..];
    }
  }

  /** Two sorted permutations of each other are equal when no two of their
      elements tie. */
  lemma {:induction false} SortedUnique<T>(a: seq<T>, b: seq<T>, cmp: (T, T) -> int)
    requires NoTiesIn(a, cmp)
    requires Sorted(a, cmp) && Sorted(b, cmp)
    requires multiset(a) == multiset(b)
    ensures a == b
  {
    assert |a| == |multiset(a)| == |multiset(b)| == |b|;
    if |a| > 0 {
      HeadsEqual(a, b, cmp);
      assert multiset(a) == multiset{a[0]} + multiset(a[1..]) by {
        assert a == [a[0]] + a[1..];
      }
      assert multiset(b) == multiset{b[0]} + multiset(b[1..]) by {
        assert b == [b[0]] + b[1..];
      }
      assert multiset(a[1..]) == multiset(b[1..]) by {
        assert multiset(a) - multiset{a[0]} == multiset(a[1..]);
        assert multiset(b) - multiset{b[0]} == multiset(b[1..]);
      }
      assert NoTiesIn(a[1..], cmp) by {
        forall x | x in a[1..] ensures x in a {
          var k :| 0 <= k < |a[1..]| && a[1..][k] == x;
          assert a[k + 1] == x;
        }
      }
      SortedSlice(a, 1, |a|, cmp);
      SortedSlice(b, 1, |b|, cmp);
      SortedUnique(a[1..], b[1..], cmp);
      assert a == [a[0]] + a[1..] && b == [b[0]] + b[1..];
    }
  }

  /** Sorted permutations of each other start with the same element when no two
      of their elements tie. */
  lemma HeadsEqual<T>(a: seq<T>, b: seq<T>, cmp: (T, T) -> int)
    requires NoTiesIn(a, cmp)
    requires Sorted(a, cmp) && Sorted(b, cmp)
    requires multiset(a) == multiset(b)
    requires |a| > 0 && |b| > 0
    ensures a[0] == b[0]
  {
    if a[0] != b[0] {
      assert a[0] in multiset(b) && b[0] in multiset(a);
      var m :| 0 <= m < |b| && b[m] == a[0];
      var k :| 0 <= k < |a| && a[k] == b[0];
      assert cmp(b[0], a[0]) <= 0 by {
        assert m != 0;
      }
      assert cmp(a[0], b[0]) <= 0 by {
        assert k != 0;
      }
      assert Tied(cmp, a[0], b[0]);
    }
  }

  /** Swapping a comparator's operands turns a consistent comparator into a
      consistent one with exactly the same ties. */
  lemma SwappedPreorder<T(!new)>(asc: (T, T) -> int, desc: (T, T) -> int)
    requires forall a, b :: desc(a, b) <= 0 <==> asc(b, a) <= 0
    requires TotalPreorder(asc)
    ensures TotalPreorder(desc)
    ensures forall a, b :: Tied(desc, a, b) <==> Tied(asc, a, b)
  {
    forall a, b, c | desc(a, b) <= 0 && desc(b, c) <= 0 ensures desc(a, c) <= 0 {
      assert asc(c, b) <= 0 && asc(b, a) <= 0;
    }
  }

  /** Descending is ascending reversed when the keys in `s` are all distinct: with
      the operands of the comparator swapped the sorted output comes out reversed. */
  lemma ReverseDirection<T(!new)>(s: seq<T>, asc: (T, T) -> int, desc: (T, T) -> int)
    requires forall a, b :: desc(a, b) <= 0 <==> asc(b, a) <= 0
    requires TotalPreorder(asc) && NoTiesIn(s, asc)
    ensures Sort(s, desc) == Reverse(Sort(s, asc))
  {
    SwappedPreorder(asc, desc);
    SortSorted(s, asc);
    SortSorted(s, desc);
    var up := Sort(s, asc);
    var down := Reverse(up);
    ReversePermutes(up);
    forall i, j | 0 <= i < j < |down| ensures desc(down[i], down[j]) <= 0 {
      assert asc(up[|up| - 1 - j], up[|up| - 1 - i]) <= 0;
    }
    var sorted := Sort(s, desc);
    assert NoTiesIn(sorted, desc) by {
      forall a, b | a in sorted && b in sorted && Tied(desc, a, b) ensures a == b {
        assert a in multiset(sorted) && b in multiset(sorted);
        assert a in s && b in s && Tied(asc, a, b);
      }
    }
    SortedUnique(sorted, down, desc);
  }

  /** Sortedness depends only on which comparisons are non-positive. */
  lemma SortedTransfer<T>(s: seq<T>, c1: (T, T) -> int, c2: (T, T) -> int)
    requires forall a, b :: c1(a, b) <= 0 <==> c2(a, b) <= 0
    requires Sorted(s, c1)
    ensures Sorted(s, c2)
  {
  }

  /** A slice of a sorted sequence is sorted. */
  lemma SortedSlice<T>(s: seq<T>, lo: nat, hi: nat, cmp: (T, T) -> int)
    requires lo <= hi <= |s|
    requires Sorted(s, cmp)
    ensures Sorted(s[lo..hi], cmp)
  {
    forall i, j | 0 <= i < j < hi - lo ensures cmp(s[lo..hi][i], s[lo..hi][j]) <= 0 {
      assert cmp(s[lo + i], s[lo + j]) <= 0;
    }
  }
}
