/**
 Sequence vocabulary shared by the selection pipeline and the latency profiles:
 order of occurrence in a duplicate-free list, and the filter-and-map shape of
 the source's selection loops.
 */
module Sequences {
  datatype Option<+T> = None | Some(value: T)

  ghost predicate NoDuplicates<T>(s: seq<T>) {
    forall i, j :: 0 <= i < j < |s| ==> s[i] != s[j]
  }

  /** x occurs somewhere before y. */
  ghost predicate Precedes<T>(s: seq<T>, x: T, y: T) {
    exists i, j :: 0 <= i < j < |s| && s[i] == x && s[j] == y
  }

  lemma PrecedesIsTotal<T>(s: seq<T>, x: T, y: T)
    requires NoDuplicates(s) && x in s && y in s && x != y
    ensures Precedes(s, x, y) <==> !Precedes(s, y, x)
  {
    var i :| 0 <= i < |s| && s[i] == x;
    var j :| 0 <= j < |s| && s[j] == y;
    if i < j {
      assert Precedes(s, x, y);
    } else {
      assert Precedes(s, y, x);
    }
  }

  /** Appending one fresh element only adds pairs that end in it. */
  lemma PrecedesAppend<T>(s: seq<T>, z: T, x: T, y: T)
    requires z !in s
    ensures Precedes(s + [z], x, y) <==> Precedes(s, x, y) || (x in s && y == z)
  {
    var t := s + [z];
    if Precedes(t, x, y) {
      var i, j :| 0 <= i < j < |t| && t[i] == x && t[j] == y;
      assert s[i] == x;
      if j < |s| {
        assert s[j] == y;
      }
    }
    if Precedes(s, x, y) {
      var i, j :| 0 <= i < j < |s| && s[i] == x && s[j] == y;
      assert t[i] == x && t[j] == y;
    }
    if x in s && y == z {
      var i :| 0 <= i < |s| && s[i] == x;
      assert t[i] == x && t[|s|] == y;
    }
  }

  lemma PrecedesMembers<T>(s: seq<T>, x: T, y: T)
    ensures Precedes(s, x, y) ==> x in s && y in s
  {
  }

  lemma EverythingPrecedesLast<T>(s: seq<T>, z: T)
    requires NoDuplicates(s) && z in s
    requires forall w :: w in s && w != z ==> Precedes(s, w, z)
    ensures s[|s| - 1] == z
  {
    assert s[|s| - 1] in s;
    LastPrecedesNothing(s, z);
  }

  lemma LastPrecedesNothing<T>(s: seq<T>, y: T)
    requires NoDuplicates(s) && s != []
    ensures !Precedes(s, s[|s| - 1], y)
  {
  }

  ghost predicate SameOrder<T(!new)>(s: seq<T>, t: seq<T>) {
    && NoDuplicates(s) && NoDuplicates(t) && |s| == |t|
    && (forall x :: x in s <==> x in t)
    && (forall x, y :: x in s && y in s && x != y && Precedes(s, x, y) ==> Precedes(t, x, y))
  }

  lemma SameLast<T(!new)>(s: seq<T>, t: seq<T>)
    requires SameOrder(s, t) && s != []
    ensures t[|t| - 1] == s[|s| - 1]
  {
    var z := s[|s| - 1];
    forall w | w in t && w != z ensures Precedes(t, w, z) {
      var i :| 0 <= i < |s| && s[i] == w;
      assert Precedes(s, w, z);
    }
    EverythingPrecedesLast(t, z);
  }

  lemma SameOrderWithoutLast<T(!new)>(s: seq<T>, t: seq<T>, z: T)
    requires SameOrder(s + [z], t + [z])
    ensures SameOrder(s, t)
  {
    var s', t' := s + [z], t + [z];
    assert s'[|s|] == z && t'[|t|] == z;
    assert forall i :: 0 <= i < |s| ==> s'[i] == s[i];
    assert forall i :: 0 <= i < |t| ==> t'[i] == t[i];
    assert z !in s && z !in t;
    forall x ensures x in s <==> x in t {
      assert x in s' <==> x in s || x == z;
      assert x in t' <==> x in t || x == z;
    }
    forall x, y | x in s && y in s && x != y && Precedes(s, x, y) ensures Precedes(t, x, y) {
      PrecedesAppend(s, z, x, y);
      PrecedesAppend(t, z, x, y);
    }
  }

  /** A duplicate-free list is determined by its elements and their order. */
  lemma {:induction false} SameOrderSameList<T(!new)>(s: seq<T>, t: seq<T>)
    requires SameOrder(s, t)
    ensures s == t
  {
    if s != [] {
      var s', t', z := s[..|s| - 1], t[..|t| - 1], s[|s| - 1];
      SameLast(s, t);
      assert s == s' + [z] && t == t' + [z];
      SameOrderWithoutLast(s', t', z);
      SameOrderSameList(s', t');
    }
  }

  lemma NoDuplicatesFromMultiset<T>(s: seq<T>, t: seq<T>)
    requires multiset(s) == multiset(t) && NoDuplicates(s)
    ensures NoDuplicates(t)
  {
    if !NoDuplicates(t) {
      var i, j :| 0 <= i < j < |t| && t[i] == t[j];
      assert t == t[..i] + [t[i]] + t[i + 1..j] + [t[j]] + t[j + 1..];
      assert multiset(t)[t[i]] >= 2;
      MultiplicityOfDistinct(s, t[i]);
    }
  }

  lemma {:induction false} MultiplicityOfDistinct<T>(s: seq<T>, x: T)
    requires NoDuplicates(s)
    ensures multiset(s)[x] <= 1
  {
    if s != [] {
      var n := |s| - 1;
      assert s == s[..n] + [s[n]];
      MultiplicityOfDistinct(s[..n], x);
      assert x == s[n] ==> x !in s[..n];
      assert x !in s[..n] ==> x !in multiset(s[..n]);
    }
  }

  /** Reversal, used to exhibit the order a Go map could equally well have produced. */
  function Reversed<T>(s: seq<T>): (r: seq<T>)
    ensures |r| == |s|
    ensures forall i :: 0 <= i < |s| ==> r[i] == s[|s| - 1 - i]
    ensures multiset(r) == multiset(s)
  {
    if s == [] then []
    else
      assert s == s[..|s| - 1] + [s[|s| - 1]];
      [s[|s| - 1]] + Reversed(s[..|s| - 1])
  }

  /** The loops that build a candidate list: keep f(x) where f accepts x, in order. */
  function FilterMap<A, B>(f: A -> Option<B>, s: seq<A>): (r: seq<B>)
    ensures forall y :: y in r ==> exists x :: x in s && f(x) == Some(y)
    ensures forall x :: x in s && f(x).Some? ==> f(x).value in r
  {
    if s == [] then []
    else
      var r := FilterMap(f, s[..|s| - 1]);
      var last := s[|s| - 1];
      assert s == s[..|s| - 1] + [last];
      match f(last)
      case None => r
      case Some(y) => r + [y]
  }

  lemma FilterMapAppend<A, B>(f: A -> Option<B>, s: seq<A>, x: A)
    ensures FilterMap(f, s + [x]) == FilterMap(f, s) + (if f(x).Some? then [f(x).value] else [])
  {
    assert (s + [x])[..|s|] == s;
  }

  lemma {:induction false} FilterMapConcat<A, B>(f: A -> Option<B>, s: seq<A>, t: seq<A>)
    ensures FilterMap(f, s + t) == FilterMap(f, s) + FilterMap(f, t)
  {
    if t == [] {
      assert s + t == s;
    } else {
      var n := |t| - 1;
      assert t == t[..n] + [t[n]] && s + t == (s + t[..n]) + [t[n]];
      FilterMapConcat(f, s, t[..n]);
      FilterMapAppend(f, s + t[..n], t[n]);
    }
  }

  ghost predicate InjectiveOn<A, B>(f: A -> Option<B>, s: seq<A>) {
    forall x, y :: x in s && y in s && x != y && f(x).Some? ==> f(x) != f(y)
  }

  /** Filtering with an injective map keeps the order and creates no duplicates. */
  lemma {:induction false} FilterMapOrder<A, B>(f: A -> Option<B>, s: seq<A>, a: A, b: A)
    requires NoDuplicates(s) && InjectiveOn(f, s)
    requires a in s && b in s && a != b && f(a).Some? && f(b).Some?
    ensures NoDuplicates(FilterMap(f, s))
    ensures Precedes(FilterMap(f, s), f(a).value, f(b).value) <==> Precedes(s, a, b)
  {
    FilterMapNoDuplicates(f, s);
    var n := |s| - 1;
    var s', z := s[..n], s[n];
    assert s == s' + [z] && z !in s';
    var r' := FilterMap(f, s');
    PrecedesAppend(s', z, a, b);
    if f(z).Some? {
      FreshImage(f, s', z);
      PrecedesAppend(r', f(z).value, f(a).value, f(b).value);
    }
    if a != z && b != z {
      FilterMapOrder(f, s', a, b);
    } else if a == z {
      PrecedesMembers(s', a, b);
      PrecedesMembers(r', f(a).value, f(b).value);
    } else {
      PrecedesMembers(s', a, b);
      PrecedesMembers(r', f(a).value, f(b).value);
    }
  }

  lemma FreshImage<A, B>(f: A -> Option<B>, s: seq<A>, z: A)
    requires z !in s && f(z).Some? && InjectiveOn(f, s + [z])
    ensures f(z).value !in FilterMap(f, s)
  {
    forall x | x in s ensures f(x) != f(z) {
      assert x in s + [z] && z in s + [z];
    }
  }

  lemma {:induction false} FilterMapNoDuplicates<A, B>(f: A -> Option<B>, s: seq<A>)
    requires NoDuplicates(s) && InjectiveOn(f, s)
    ensures NoDuplicates(FilterMap(f, s))
  {
    if s != [] {
      var n := |s| - 1;
      assert s == s[..n] + [s[n]];
      FilterMapNoDuplicates(f, s[..n]);
      if f(s[n]).Some? {
        assert f(s[n]).value !in FilterMap(f, s[..n]);
      }
    }
  }

  /** Where a kept element stands in the result. */
  lemma FilterMapPosition<A, B>(f: A -> Option<B>, s: seq<A>, i: nat)
    requires i < |s| && f(s[i]).Some?
    ensures |FilterMap(f, s[..i])| < |FilterMap(f, s)|
    ensures FilterMap(f, s)[|FilterMap(f, s[..i])|] == f(s[i]).value
  {
    var upTo := s[..i] + [s[i]];
    assert s == upTo + s[i + 1..];
    FilterMapConcat(f, upTo, s[i + 1..]);
    FilterMapAppend(f, s[..i], s[i]);
  }

  lemma FilterMapPositionsInOrder<A, B>(f: A -> Option<B>, s: seq<A>, i: nat, j: nat)
    requires i < j <= |s| && f(s[i]).Some?
    ensures |FilterMap(f, s[..i])| < |FilterMap(f, s[..j])|
  {
    assert s[..j][..i] == s[..i];
    FilterMapPosition(f, s[..j], i);
  }

  lemma {:induction false} FilterMapPreimage<A, B>(f: A -> Option<B>, s: seq<A>, k: nat) returns (i: nat)
    requires k < |FilterMap(f, s)|
    ensures i < |s| && f(s[i]).Some? && |FilterMap(f, s[..i])| == k
  {
    var n := |s| - 1;
    if k < |FilterMap(f, s[..n])| {
      i := FilterMapPreimage(f, s[..n], k);
      assert s[..n][..i] == s[..i];
    } else {
      i := n;
    }
  }
}
