/**
 The in-place stable sort the scheduler calls (sort.SliceStable, sort.Float64s),
 specified by a function, and the three facts callers rely on: it permutes, it
 orders, and elements neither of which is less keep their order.
 */
module StableSort {
  import opened Sequences

  ghost predicate StrictWeakOrder<T(!new)>(less: (T, T) -> bool) {
    && (forall x, y :: less(x, y) ==> !less(y, x))
    && (forall x, y, z :: less(x, z) ==> less(x, y) || less(y, z))
  }

  ghost predicate Sorted<T>(less: (T, T) -> bool, s: seq<T>) {
    forall i, j :: 0 <= i < j < |s| ==> !less(s[j], s[i])
  }

  /** Places x after every element it is not less than. */
  function Insert<T>(less: (T, T) -> bool, s: seq<T>, x: T): seq<T> {
    if s == [] || !less(x, s[|s| - 1]) then s + [x]
    else Insert(less, s[..|s| - 1], x) + [s[|s| - 1]]
  }

  function Sort<T>(less: (T, T) -> bool, s: seq<T>): seq<T> {
    if s == [] then [] else Insert(less, Sort(less, s[..|s| - 1]), s[|s| - 1])
  }

  lemma {:induction false} InsertPermutes<T>(less: (T, T) -> bool, s: seq<T>, x: T)
    ensures multiset(Insert(less, s, x)) == multiset(s) + multiset{x}
  {
    if s != [] && less(x, s[|s| - 1]) {
      assert s == s[..|s| - 1] + [s[|s| - 1]];
      InsertPermutes(less, s[..|s| - 1], x);
    }
  }

  lemma {:induction false} SortPermutes<T>(less: (T, T) -> bool, s: seq<T>)
    ensures multiset(Sort(less, s)) == multiset(s)
    ensures |Sort(less, s)| == |s|
  {
    if s != [] {
      var n := |s| - 1;
      assert s == s[..n] + [s[n]];
      SortPermutes(less, s[..n]);
      InsertPermutes(less, Sort(less, s[..n]), s[n]);
    }
    assert |Sort(less, s)| == |multiset(Sort(less, s))| == |multiset(s)|;
  }

  lemma SameMembers<T>(s: seq<T>, t: seq<T>, x: T)
    requires multiset(s) == multiset(t)
    ensures x in s <==> x in t
  {
    assert x in s <==> x in multiset(s);
    assert x in t <==> x in multiset(t);
  }

  lemma SortMember<T>(less: (T, T) -> bool, s: seq<T>, x: T)
    ensures x in Sort(less, s) <==> x in s
  {
    SortPermutes(less, s);
    SameMembers(s, Sort(less, s), x);
  }

  lemma InsertMember<T>(less: (T, T) -> bool, s: seq<T>, x: T, y: T)
    ensures y in Insert(less, s, x) <==> y in s || y == x
  {
    InsertPermutes(less, s, x);
    assert multiset(s + [x]) == multiset(s) + multiset{x};
    SameMembers(s + [x], Insert(less, s, x), y);
  }

  lemma {:induction false} InsertSorted<T(!new)>(less: (T, T) -> bool, s: seq<T>, x: T)
    requires StrictWeakOrder(less) && Sorted(less, s)
    ensures Sorted(less, Insert(less, s, x))
  {
    if s != [] && less(x, s[|s| - 1]) {
      var n := |s| - 1;
      InsertSorted(less, s[..n], x);
      var r := Insert(less, s[..n], x);
      forall y | y in r ensures !less(s[n], y) {
        InsertMember(less, s[..n], x, y);
      }
    }
  }

  lemma {:induction false} SortSorted<T(!new)>(less: (T, T) -> bool, s: seq<T>)
    requires StrictWeakOrder(less)
    ensures Sorted(less, Sort(less, s))
  {
    if s != [] {
      var n := |s| - 1;
      SortSorted(less, s[..n]);
      InsertSorted(less, Sort(less, s[..n]), s[n]);
    }
  }

  lemma SortNoDuplicates<T>(less: (T, T) -> bool, s: seq<T>)
    requires NoDuplicates(s)
    ensures NoDuplicates(Sort(less, s))
  {
    SortPermutes(less, s);
    NoDuplicatesFromMultiset(s, Sort(less, s));
  }

  /** Where insertion puts the new element relative to the old ones. */
  lemma {:induction false} InsertOrder<T>(less: (T, T) -> bool, s: seq<T>, z: T, x: T, y: T)
    requires forall i, j :: 0 <= i <= j < |s| && less(z, s[i]) ==> less(z, s[j])
    requires NoDuplicates(s) && z !in s
    requires (x in s || x == z) && (y in s || y == z) && x != y
    ensures Precedes(Insert(less, s, z), x, y) <==>
            (if x == z then less(z, y) else if y == z then !less(z, x) else Precedes(s, x, y))
  {
    PrecedesMembers(s, x, y);
    if s == [] || !less(z, s[|s| - 1]) {
      PrecedesAppend(s, z, x, y);
    } else {
      var n := |s| - 1;
      var s', w := s[..n], s[n];
      assert s == s' + [w] && w !in s';
      var r := Insert(less, s', z);
      InsertMember(less, s', z, w);
      InsertMember(less, s', z, x);
      InsertMember(less, s', z, y);
      PrecedesAppend(r, w, x, y);
      PrecedesAppend(s', w, x, y);
      PrecedesMembers(r, x, y);
      PrecedesMembers(s', x, y);
      if x != w && y != w {
        InsertOrder(less, s', z, x, y);
      }
    }
  }

  /** The whole contract of a stable sort, as an order on occurrences. */
  lemma {:induction false} SortOrder<T(!new)>(less: (T, T) -> bool, s: seq<T>, x: T, y: T)
    requires StrictWeakOrder(less) && NoDuplicates(s)
    requires x in s && y in s && x != y
    ensures Precedes(Sort(less, s), x, y) <==> less(x, y) || (!less(y, x) && Precedes(s, x, y))
  {
    var n := |s| - 1;
    var s', z := s[..n], s[n];
    assert s == s' + [z] && z !in s';
    var r := Sort(less, s');
    SortSorted(less, s');
    SortNoDuplicates(less, s');
    SortMember(less, s', z);
    SortMember(less, s', x);
    SortMember(less, s', y);
    InsertOrder(less, r, z, x, y);
    PrecedesAppend(s', z, x, y);
    if x != z && y != z {
      SortOrder(less, s', x, y);
    } else if x == z {
      PrecedesMembers(s', x, y);
    }
  }

  lemma SortedSameLast<T(!new)>(less: (T, T) -> bool, s: seq<T>, t: seq<T>)
    requires Sorted(less, s) && Sorted(less, t) && multiset(s) == multiset(t) && s != [] && t != []
    requires forall x, y :: x in s && y in s && !less(x, y) && !less(y, x) ==> x == y
    ensures s[|s| - 1] == t[|t| - 1]
  {
    var x, y := s[|s| - 1], t[|t| - 1];
    SameMembers(s, t, x);
    SameMembers(s, t, y);
    var i :| 0 <= i < |t| && t[i] == x;
    var j :| 0 <= j < |s| && s[j] == y;
    assert x == y || !less(y, x);
    assert x == y || !less(x, y);
  }

  lemma DropSameLast<T>(s: seq<T>, t: seq<T>)
    requires s != [] && t != [] && s[|s| - 1] == t[|t| - 1] && multiset(s) == multiset(t)
    ensures multiset(s[..|s| - 1]) == multiset(t[..|t| - 1])
  {
    var z := s[|s| - 1];
    assert s == s[..|s| - 1] + [z] && t == t[..|t| - 1] + [z];
    assert multiset(s[..|s| - 1]) == multiset(s) - multiset{z};
    assert multiset(t[..|t| - 1]) == multiset(t) - multiset{z};
  }

  /** With an order that separates distinct elements there is one sorted arrangement. */
  lemma {:induction false} SortedUnique<T(!new)>(less: (T, T) -> bool, s: seq<T>, t: seq<T>)
    requires Sorted(less, s) && Sorted(less, t) && multiset(s) == multiset(t)
    requires forall x, y :: x in s && y in s && !less(x, y) && !less(y, x) ==> x == y
    ensures s == t
  {
    assert |s| == |multiset(s)| == |multiset(t)| == |t|;
    if s != [] {
      SortedSameLast(less, s, t);
      DropSameLast(s, t);
      var n := |s| - 1;
      assert forall x :: x in s[..n] ==> x in s;
      SortedUnique(less, s[..n], t[..n]);
      assert s == s[..n] + [s[n]] && t == t[..n] + [t[n]];
    }
  }

  lemma {:induction false} InsertAt<T>(less: (T, T) -> bool, s: seq<T>, x: T, j: nat)
    requires j <= |s|
    requires j == 0 || !less(x, s[j - 1])
    requires forall k :: j <= k < |s| ==> less(x, s[k])
    ensures Insert(less, s, x) == s[..j] + [x] + s[j..]
  {
    if j < |s| {
      var n := |s| - 1;
      assert s[..n][..j] == s[..j] && s[..n][j..] + [s[n]] == s[j..];
      InsertAt(less, s[..n], x, j);
    }
  }

  /** Sifts a[n] left into the ordered prefix a[..n]. */
  method InsertLast<T>(a: array<T>, n: nat, less: (T, T) -> bool)
    requires n < a.Length
    modifies a
    ensures a[..n + 1] == Insert(less, old(a[..n]), old(a[n]))
    ensures forall k :: n < k < a.Length ==> a[k] == old(a[k])
  {
    ghost var prefix, x := a[..n], a[n];
    var j := n;
    while j > 0 && less(a[j], a[j - 1])
      invariant 0 <= j <= n
      invariant a[j] == x
      invariant forall k :: 0 <= k < j ==> a[k] == prefix[k]
      invariant forall k :: j < k <= n ==> a[k] == prefix[k - 1]
      invariant forall k :: j <= k < n ==> less(x, prefix[k])
      invariant forall k :: n < k < a.Length ==> a[k] == old(a[k])
    {
      a[j], a[j - 1] := a[j - 1], a[j];
      j := j - 1;
    }
    InsertAt(less, prefix, x, j);
    assert a[..n + 1] == prefix[..j] + [x] + prefix[j..];
  }

  method SortInPlace<T>(a: array<T>, less: (T, T) -> bool)
    modifies a
    ensures a[..] == Sort(less, old(a[..]))
  {
    ghost var was := a[..];
    var i := 0;
    while i < a.Length
      invariant 0 <= i <= a.Length
      invariant a[..i] == Sort(less, was[..i])
      invariant forall k :: i <= k < a.Length ==> a[k] == was[k]
    {
      assert was[..i + 1][..i] == was[..i];
      InsertLast(a, i, less);
      i := i + 1;
    }
    assert was[..i] == was && a[..i] == a[..];
  }
}
