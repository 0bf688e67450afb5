/**
 * The order `getPaginatedRows` sorts by, and the sort itself.  The locale-aware
 * `localeCompare` is replaced by lexicographic order on character codes (a
 * prefix sorts first), a total order in which only identical strings compare
 * equal.  `Array.prototype.sort` is represented by insertion sort; since a
 * sorted permutation is unique under such an order, every correct sort
 * returns the same sequence.
 */
module Ordering {

  /** `a.localeCompare(b) <= 0`, on character codes. */
  predicate Le(a: string, b: string)
    decreases |a|
  {
    |a| == 0 || (|b| > 0 && (a[0] < b[0] || (a[0] == b[0] && Le(a[1..], b[1..]))))
  }

  lemma {:induction false} LeReflexive(a: string)
    ensures Le(a, a)
    decreases |a|
  {
    if |a| > 0 {
      LeReflexive(a[1..]);
    }
  }

  lemma {:induction false} LeTotal(a: string, b: string)
    ensures Le(a, b) || Le(b, a)
    decreases |a|
  {
    if |a| > 0 && |b| > 0 && a[0] == b[0] {
      LeTotal(a[1..], b[1..]);
    }
  }

  lemma {:induction false} LeAntisymmetric(a: string, b: string)
    requires Le(a, b) && Le(b, a)
    ensures a == b
    decreases |a|
  {
    if |a| > 0 {
      LeAntisymmetric(a[1..], b[1..]);
      assert a == [a[0]] + a[1..] && b == [b[0]] + b[1..];
    }
  }

  lemma {:induction false} LeTransitive(a: string, b: string, c: string)
    requires Le(a, b) && Le(b, c)
    ensures Le(a, c)
    decreases |a|
  {
    if |a| > 0 && a[0] == b[0] && b[0] == c[0] {
      LeTransitive(a[1..], b[1..], c[1..]);
    }
  }

  /** `a` may stand before `b`: the comparator `a.localeCompare(b)` when ascending, `b.localeCompare(a)` otherwise. */
  predicate Precedes(a: string, b: string, asc: bool) {
    if asc then Le(a, b) else Le(b, a)
  }

  predicate Sorted(s: seq<string>, asc: bool) {
    forall i, j :: 0 <= i < j < |s| ==> Precedes(s[i], s[j], asc)
  }

  /** Inserts `x` before the first element it precedes. */
  function Insert(x: string, s: seq<string>, asc: bool): (r: seq<string>)
    requires Sorted(s, asc)
    ensures Sorted(r, asc)
    ensures multiset(r) == multiset(s) + multiset{x}
    decreases |s|
  {
    if s == [] then [x]
    else if Precedes(x, s[0], asc) then
      PrecedesAll(x, s, asc);
      [x] + s
    else
      var rest := Insert(x, s[1..], asc);
      LeTotal(x, s[0]);
      HeadBeforeInserted(s, x, rest, asc);
      ConsMultiset(s, rest, x);
      [s[0]] + rest
  }

  /** `s[0] + rest` has the old elements and `x` when `rest` has the tail's elements and `x`. */
  lemma ConsMultiset(s: seq<string>, rest: seq<string>, x: string)
    requires s != [] && multiset(rest) == multiset(s[1..]) + multiset{x}
    ensures multiset([s[0]] + rest) == multiset(s) + multiset{x}
  {
    HeadAndTail(s);
  }

  lemma HeadAndTail(a: seq<string>)
    requires a != []
    ensures multiset(a) == multiset{a[0]} + multiset(a[1..])
  {
    assert a == [a[0]] + a[1..];
  }

  /** The head of a sorted sequence, preceding `x`, may stand before the tail with `x` inserted. */
  lemma HeadBeforeInserted(s: seq<string>, x: string, rest: seq<string>, asc: bool)
    requires Sorted(s, asc) && s != [] && Precedes(s[0], x, asc) && Sorted(rest, asc)
    requires multiset(rest) == multiset(s[1..]) + multiset{x}
    ensures Sorted([s[0]] + rest, asc)
  {
    forall k | 0 <= k < |rest|
      ensures Precedes(s[0], rest[k], asc)
    {
      assert rest[k] in multiset(rest);
      if rest[k] != x {
        assert rest[k] in multiset(s[1..]);
        var m :| 0 <= m < |s[1..]| && s[1..][m] == rest[k];
        assert s[m + 1] == rest[k];
      }
    }
    ConsSorted(s[0], rest, asc);
  }

  lemma ConsSorted(h: string, t: seq<string>, asc: bool)
    requires Sorted(t, asc) && forall k :: 0 <= k < |t| ==> Precedes(h, t[k], asc)
    ensures Sorted([h] + t, asc)
  {
    var r := [h] + t;
    forall i, j | 0 <= i < j < |r|
      ensures Precedes(r[i], r[j], asc)
    {
      assert r[j] == t[j - 1];
      if i > 0 { assert r[i] == t[i - 1]; }
    }
  }

  /** An element that precedes the head of a sorted sequence precedes all of it. */
  lemma PrecedesAll(x: string, s: seq<string>, asc: bool)
    requires Sorted(s, asc) && s != [] && Precedes(x, s[0], asc)
    ensures Sorted([x] + s, asc)
  {
    forall j | 0 <= j < |s|
      ensures Precedes(x, s[j], asc)
    {
      if j == 0 {
      } else if asc {
        LeTransitive(x, s[0], s[j]);
      } else {
        LeTransitive(s[j], s[0], x);
      }
    }
    ConsSorted(x, s, asc);
  }

  /** `lines.sort(comparator)`: sorted by `Precedes` and a permutation of its input. */
  function Sort(s: seq<string>, asc: bool): (r: seq<string>)
    ensures Sorted(r, asc)
    ensures multiset(r) == multiset(s)
    ensures |r| == |s|
    decreases |s|
  {
    if s == [] then []
    else
      assert s == [s[0]] + s[1..];
      var r := Insert(s[0], Sort(s[1..], asc), asc);
      assert |r| == |multiset(r)| == |multiset(s)| == |s|;
      r
  }

  /** The head of a sorted sequence precedes every element of it. */
  lemma HeadPrecedes(a: seq<string>, x: string, asc: bool)
    requires Sorted(a, asc) && x in a
    ensures Precedes(a[0], x, asc)
  {
    var i :| 0 <= i < |a| && a[i] == x;
    if i == 0 { LeReflexive(x); }
  }

  /** Two sorted, non-empty permutations of the same strings start with the same string. */
  lemma SameHead(a: seq<string>, b: seq<string>, asc: bool)
    requires Sorted(a, asc) && Sorted(b, asc) && a != [] && b != []
    requires multiset(a) == multiset(b)
    ensures a[0] == b[0]
  {
    assert a[0] in multiset(b) && b[0] in multiset(a);
    HeadPrecedes(a, b[0], asc);
    HeadPrecedes(b, a[0], asc);
    if asc { LeAntisymmetric(a[0], b[0]); } else { LeAntisymmetric(b[0], a[0]); }
  }

  lemma TailMultiset(a: seq<string>, b: seq<string>)
    requires a != [] && b != [] && a[0] == b[0] && multiset(a) == multiset(b)
    ensures multiset(a[1..]) == multiset(b[1..])
  {
    HeadAndTail(a);
    HeadAndTail(b);
    assert multiset(a[1..]) == multiset(a) - multiset{a[0]};
  }

  lemma SortedTail(a: seq<string>, asc: bool)
    requires Sorted(a, asc) && a != []
    ensures Sorted(a[1..], asc)
  {
  }

  /** Two sorted permutations of the same strings are equal. */
  lemma {:induction false} SortedUnique(a: seq<string>, b: seq<string>, asc: bool)
    requires Sorted(a, asc) && Sorted(b, asc)
    requires multiset(a) == multiset(b)
    ensures a == b
    decreases |a|
  {
    assert |a| == |multiset(a)| == |multiset(b)| == |b|;
    if a != [] {
      SameHead(a, b, asc);
      TailMultiset(a, b);
      SortedTail(a, asc);
      SortedTail(b, asc);
      SortedUnique(a[1..], b[1..], asc);
      assert a == [a[0]] + a[1..] && b == [b[0]] + b[1..];
    }
  }

  function Reverse(s: seq<string>): (r: seq<string>)
    ensures |r| == |s|
    ensures forall k :: 0 <= k < |s| ==> r[k] == s[|s| - 1 - k]
  {
    if s == [] then [] else Reverse(s[1..]) + [s[0]]
  }

  lemma {:induction false} ReverseMultiset(s: seq<string>)
    ensures multiset(Reverse(s)) == multiset(s)
    decreases |s|
  {
    if s != [] {
      ReverseMultiset(s[1..]);
      assert s == [s[0]] + s[1..];
    }
  }

  /** An ascending sequence read backwards is descending. */
  lemma ReverseSorted(up: seq<string>)
    requires Sorted(up, true)
    ensures Sorted(Reverse(up), false)
  {
    var down := Reverse(up);
    forall i, j | 0 <= i < j < |down|
      ensures Precedes(down[i], down[j], false)
    {
      assert down[i] == up[|up| - 1 - i] && down[j] == up[|up| - 1 - j];
    }
  }

  /** Sorting descending gives the ascending order reversed. */
  lemma SortDescendingIsReversed(s: seq<string>)
    ensures Sort(s, false) == Reverse(Sort(s, true))
  {
    ReverseSorted(Sort(s, true));
    ReverseMultiset(Sort(s, true));
    SortedUnique(Sort(s, false), Reverse(Sort(s, true)), false);
  }

  /** Any sorted permutation of the input is what `Sort` returns. */
  lemma SortIsCanonical(s: seq<string>, t: seq<string>, asc: bool)
    requires Sorted(t, asc) && multiset(t) == multiset(s)
    ensures t == Sort(s, asc)
  {
    SortedUnique(t, Sort(s, asc), asc);
  }
}
