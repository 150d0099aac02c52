/** Ordering of strings and stable insertion sort, as used by sort.Slice and sort.Search callers. */
module Sorting {

  // ---- Lexicographic order on strings ----

  predicate StringLess(a: string, b: string) {
    if b == "" then false
    else if a == "" then true
    else a[0] < b[0] || (a[0] == b[0] && StringLess(a[1..], b[1..]))
  }

  /** Strings are strictly and totally ordered. */
  lemma {:induction false} StringOrder(a: string, b: string)
    ensures !(StringLess(a, b) && StringLess(b, a))
    ensures StringLess(a, b) || StringLess(b, a) || a == b
    ensures a == b ==> !StringLess(a, b)
  {
    if a != "" && b != "" {
      StringOrder(a[1..], b[1..]);
      assert a == [a[0]] + a[1..] && b == [b[0]] + b[1..];
    }
  }

  lemma {:induction false} StringLessTransitive(a: string, b: string, c: string)
    requires StringLess(a, b) && StringLess(b, c)
    ensures StringLess(a, c)
  {
    if a != "" && b != "" && c != "" && a[0] == b[0] == c[0] {
      StringLessTransitive(a[1..], b[1..], c[1..]);
    }
  }

  /** The order is that of dictionaries: a proper prefix comes first, and otherwise the first differing
      character decides. */
  lemma {:induction false} StringLessExactly(a: string, b: string)
    ensures StringLess(a, b) <==> a < b || exists k :: 0 <= k < |a| && k < |b| && a[..k] == b[..k] && a[k] < b[k]
  {
    if a != "" && b != "" {
      StringLessExactly(a[1..], b[1..]);
      if a[0] == b[0] {
        assert a == [a[0]] + a[1..] && b == [b[0]] + b[1..];
        if k :| 0 <= k < |a| && k < |b| && a[..k] == b[..k] && a[k] < b[k] {
          assert a[1..][..k - 1] == a[..k][1..] == b[..k][1..] == b[1..][..k - 1];
          assert a[1..][k - 1] < b[1..][k - 1];
        }
        if k :| 0 <= k < |a[1..]| && k < |b[1..]| && a[1..][..k] == b[1..][..k] && a[1..][k] < b[1..][k] {
          assert a[..k + 1] == [a[0]] + a[1..][..k] == [b[0]] + b[1..][..k] == b[..k + 1];
          assert a[k + 1] < b[k + 1];
        }
      } else if a[0] < b[0] {
        assert a[..0] == b[..0] && a[0] < b[0];
      } else {
        if k :| 0 <= k < |a| && k < |b| && a[..k] == b[..k] && a[k] < b[k] {
          if k > 0 { assert a[..k][0] == b[..k][0]; }
        }
      }
    }
  }

  // ---- Sorting by a total preorder ----

  ghost predicate TotalPreorder<T(!new)>(le: (T, T) -> bool) {
    && (forall a, b :: le(a, b) || le(b, a))
    && (forall a, b, c :: le(a, b) && le(b, c) ==> le(a, c))
  }

  ghost predicate Sorted<T>(s: seq<T>, le: (T, T) -> bool) {
    forall i, j :: 0 <= i < j < |s| ==> le(s[i], s[j])
  }

  /** Puts `x` before the first element that is strictly greater. */
  function Insert<T>(s: seq<T>, x: T, le: (T, T) -> bool): seq<T> {
    if s == [] then [x]
    else if !le(s[0], x) then [x] + s
    else [s[0]] + Insert(s[1..], x, le)
  }

  function Sort<T>(s: seq<T>, le: (T, T) -> bool): seq<T> {
    if s == [] then [] else Insert(Sort(s[..|s| - 1], le), s[|s| - 1], le)
  }

  function Take<T>(n: nat, s: seq<T>): seq<T> {
    if |s| <= n then s else s[..n]
  }

  lemma {:induction false} InsertLength<T>(s: seq<T>, x: T, le: (T, T) -> bool)
    ensures |Insert(s, x, le)| == |s| + 1
  {
    if s != [] { InsertLength(s[1..], x, le); }
  }

  lemma {:induction false} InsertMultiset<T>(s: seq<T>, x: T, le: (T, T) -> bool)
    ensures multiset(Insert(s, x, le)) == multiset(s) + multiset{x}
  {
    if s != [] {
      InsertMultiset(s[1..], x, le);
      assert s == [s[0]] + s[1..];
    }
  }

  lemma InsertElements<T>(s: seq<T>, x: T, le: (T, T) -> bool)
    ensures forall y :: y in Insert(s, x, le) <==> y == x || y in s
  {
    InsertMultiset(s, x, le);
    forall y ensures y in Insert(s, x, le) <==> y == x || y in s {
      assert y in Insert(s, x, le) <==> y in multiset(Insert(s, x, le));
      assert y in s <==> y in multiset(s);
    }
  }

  lemma {:induction false} InsertSorted<T(!new)>(s: seq<T>, x: T, le: (T, T) -> bool)
    requires TotalPreorder(le) && Sorted(s, le)
    ensures Sorted(Insert(s, x, le), le)
  {
    if s != [] && le(s[0], x) {
      InsertSorted(s[1..], x, le);
      InsertElements(s[1..], x, le);
      var r := Insert(s[1..], x, le);
      forall y | y in r ensures le(s[0], y) {
        if y != x {
          var i :| 0 <= i < |s[1..]| && s[1..][i] == y;
          assert s[i + 1] == y;
        }
      }
    } else if s != [] {
      forall j | 0 <= j < |s| ensures le(x, s[j]) {
        if j > 0 { assert le(s[0], s[j]); }
      }
    }
  }

  /** Sorting yields a sorted permutation. */
  lemma {:induction false} SortCorrect<T(!new)>(s: seq<T>, le: (T, T) -> bool)
    requires TotalPreorder(le)
    ensures Sorted(Sort(s, le), le)
    ensures multiset(Sort(s, le)) == multiset(s)
  {
    if s != [] {
      var rest, x := s[..|s| - 1], s[|s| - 1];
      SortCorrect(rest, le);
      InsertSorted(Sort(rest, le), x, le);
      InsertMultiset(Sort(rest, le), x, le);
      assert s == rest + [x];
    }
  }

  /** A position that separates the elements not greater than `x` from the greater ones is where it is inserted. */
  lemma {:induction false} InsertSplit<T>(s: seq<T>, x: T, le: (T, T) -> bool, at: nat)
    requires at <= |s|
    requires forall i :: 0 <= i < at ==> le(s[i], x)
    requires forall i :: at <= i < |s| ==> !le(s[i], x)
    ensures Insert(s, x, le) == s[..at] + [x] + s[at..]
  {
    if at > 0 {
      InsertSplit(s[1..], x, le, at - 1);
      assert s == [s[0]] + s[1..];
    }
  }

  /** Keeping only the first n of a sorted list before an insertion loses nothing of the first n after it. */
  lemma {:induction false} TakeInsert<T(!new)>(n: nat, s: seq<T>, x: T, le: (T, T) -> bool)
    requires TotalPreorder(le) && Sorted(s, le)
    ensures Take(n, Insert(Take(n, s), x, le)) == Take(n, Insert(s, x, le))
  {
    InsertLength(s, x, le);
    if |s| > n {
      InsertLength(s[..n], x, le);
      if n > 0 && le(s[0], x) {
        TakeInsert(n - 1, s[1..], x, le);
        InsertLength(s[1..], x, le);
        InsertLength(s[..n][1..], x, le);
        assert s[..n][1..] == s[1..][..n - 1];
      }
    }
  }

  lemma HeadIsLeast<T(!new)>(s: seq<T>, t: seq<T>, le: (T, T) -> bool)
    requires Sorted(t, le) && multiset(s) == multiset(t) && s != [] && t != []
    requires forall a :: a in s ==> le(a, a)
    ensures s[0] in t && le(t[0], s[0])
  {
    assert s[0] in multiset(t);
    var i :| 0 <= i < |t| && t[i] == s[0];
    assert t[0] in multiset(s);
  }

  ghost predicate Antisymmetric<T>(s: seq<T>, le: (T, T) -> bool) {
    && (forall a :: a in s ==> le(a, a))
    && forall a, b :: a in s && b in s && le(a, b) && le(b, a) ==> a == b
  }

  lemma HeadsEqual<T(!new)>(s: seq<T>, t: seq<T>, le: (T, T) -> bool)
    requires Sorted(s, le) && Sorted(t, le) && multiset(s) == multiset(t) && s != [] && t != []
    requires Antisymmetric(s, le)
    ensures s[0] == t[0]
  {
    forall a | a in t ensures a in s { assert a in multiset(t); }
    HeadIsLeast(s, t, le);
    HeadIsLeast(t, s, le);
  }

  lemma TailAntisymmetric<T(!new)>(s: seq<T>, le: (T, T) -> bool)
    requires s != [] && Antisymmetric(s, le)
    ensures Antisymmetric(s[1..], le)
  {
    assert forall a :: a in s[1..] ==> a in s;
  }

  lemma SortedTail<T>(s: seq<T>, le: (T, T) -> bool)
    requires s != [] && Sorted(s, le)
    ensures Sorted(s[1..], le)
  {
    assert forall i :: 0 <= i < |s[1..]| ==> s[1..][i] == s[i + 1];
  }

  /** Where equal-ranked elements are equal, a multiset has one sorted listing. */
  lemma {:induction false} SortedUnique<T(!new)>(s: seq<T>, t: seq<T>, le: (T, T) -> bool)
    requires Sorted(s, le) && Sorted(t, le) && multiset(s) == multiset(t)
    requires Antisymmetric(s, le)
    ensures s == t
  {
    hide Antisymmetric, Sorted;
    assert |s| == |multiset(s)| && |t| == |multiset(t)|;
    if s != [] {
      HeadsEqual(s, t, le);
      TailMultiset(s);
      TailMultiset(t);
      TailAntisymmetric(s, le);
      SortedTail(s, le);
      SortedTail(t, le);
      SortedUnique(s[1..], t[1..], le);
      assert s == [s[0]] + s[1..] && t == [t[0]] + t[1..];
    }
  }

  lemma TailMultiset<T>(s: seq<T>)
    requires s != []
    ensures multiset(s[1..]) == multiset(s) - multiset{s[0]}
  {
    assert s == [s[0]] + s[1..];
  }
}
