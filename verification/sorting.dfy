/** `Array.prototype.sort` with a comparator, modelled as a stable insertion
    sort. `lt(a, b)` stands for "the comparator returns a negative number for
    (a, b)", i.e. `a` must come before `b`. */
module Sorting {
  import opened Seqs

  /** `lt` is a strict weak order on the elements of `s`: irreflexive,
      transitive, and "not before" is transitive as well. This is what
      ECMAScript calls a consistent comparator. */
  ghost predicate StrictWeakOrderOn<T>(lt: (T, T) -> bool, s: seq<T>) {
    && (forall a :: a in s ==> !lt(a, a))
    && (forall a, b, c {:trigger lt(a, b), lt(b, c)} ::
          a in s && b in s && c in s && lt(a, b) && lt(b, c) ==> lt(a, c))
    && (forall a, b, c {:trigger lt(a, b), lt(b, c)} {:trigger lt(a, c), lt(a, b)} {:trigger lt(a, c), lt(b, c)} ::
          a in s && b in s && c in s && lt(a, c) && !lt(a, b) ==> lt(b, c))
  }

  /** Neither element has to come before the other. */
  predicate Equivalent<T>(lt: (T, T) -> bool, a: T, b: T) {
    !lt(a, b) && !lt(b, a)
  }

  /** No element is placed after one it has to come before. */
  ghost predicate SortedBy<T>(lt: (T, T) -> bool, s: seq<T>) {
    forall i, j :: 0 <= i < j < |s| ==> !lt(s[j], s[i])
  }

  /** The elements of `s` equivalent to `c`, in the order `s` holds them. */
  function Class<T(!new)>(lt: (T, T) -> bool, s: seq<T>, c: T): seq<T> {
    Filter(s, EquivalentTo(lt, c))
  }

  /** The test "is equivalent to `c`" as a function value. */
  function EquivalentTo<T>(lt: (T, T) -> bool, c: T): T -> bool {
    y => Equivalent(lt, y, c)
  }

  /** Inserts `x` before the first element it does not have to follow. */
  function InsertSorted<T>(lt: (T, T) -> bool, x: T, s: seq<T>): (r: seq<T>)
    ensures |r| == |s| + 1
    ensures multiset(r) == multiset(s) + multiset{x}
  {
    if s == [] then [x]
    else if lt(s[0], x) then
      assert s == [s[0]] + s[1..];
      [s[0]] + InsertSorted(lt, x, s[1..])
    else [x] + s
  }

  /** Insertion sort, placing earlier elements before equivalent later ones. */
  function SortBy<T>(lt: (T, T) -> bool, s: seq<T>): (r: seq<T>)
    ensures |r| == |s|
    ensures multiset(r) == multiset(s)
  {
    if s == [] then []
    else
      assert s == [s[0]] + s[1..];
      InsertSorted(lt, s[0], SortBy(lt, s[1..]))
  }

  /** Two elements already in order stay as they are. */
  lemma SortPair<T>(lt: (T, T) -> bool, x: T, y: T)
    requires !lt(y, x)
    ensures SortBy(lt, [x, y]) == [x, y]
  {
    assert [x, y][1..] == [y];
    assert [y][1..] == [];
  }

  lemma StrictWeakOrderSub<T>(lt: (T, T) -> bool, s: seq<T>, t: seq<T>)
    requires StrictWeakOrderOn(lt, s)
    requires forall y :: y in t ==> y in s
    ensures StrictWeakOrderOn(lt, t)
  {
  }

  /** In a strict weak order, equivalence is transitive. */
  lemma EquivalentTransitive<T>(lt: (T, T) -> bool, s: seq<T>, a: T, b: T, c: T)
    requires StrictWeakOrderOn(lt, s)
    requires a in s && b in s && c in s
    requires Equivalent(lt, a, b) && Equivalent(lt, b, c)
    ensures Equivalent(lt, a, c)
  {
  }

  /** An element placed after the head it has to follow keeps the order. */
  lemma InsertAfterHead<T>(lt: (T, T) -> bool, x: T, s: seq<T>)
    requires s != [] && lt(s[0], x)
    requires StrictWeakOrderOn(lt, s + [x])
    requires SortedBy(lt, s) && SortedBy(lt, InsertSorted(lt, x, s[1..]))
    ensures SortedBy(lt, [s[0]] + InsertSorted(lt, x, s[1..]))
  {
    var dom := s + [x];
    var r' := InsertSorted(lt, x, s[1..]);
    var r := [s[0]] + r';
    assert s[0] in dom && x in dom;
    forall i, j | 0 <= i < j < |r| ensures !lt(r[j], r[i]) {
      if i == 0 {
        assert r[j] in multiset(r');
        assert r[j] in multiset(s[1..]) || r[j] == x;
        if r[j] != x {
          var k :| 0 <= k < |s[1..]| && s[1..][k] == r[j];
          assert s[k + 1] == r[j];
        }
      } else {
        assert r[i] == r'[i - 1] && r[j] == r'[j - 1];
      }
    }
  }

  /** An element placed before a head it need not follow keeps the order. */
  lemma InsertAtFront<T>(lt: (T, T) -> bool, x: T, s: seq<T>)
    requires s != [] && !lt(s[0], x)
    requires StrictWeakOrderOn(lt, s + [x])
    requires SortedBy(lt, s)
    ensures SortedBy(lt, [x] + s)
  {
    var dom := s + [x];
    var r := [x] + s;
    assert s[0] in dom && x in dom;
    forall i, j | 0 <= i < j < |r| ensures !lt(r[j], r[i]) {
      if i == 0 {
        assert r[j] == s[j - 1];
        if j > 1 {
          assert !lt(s[j - 1], s[0]);
          assert s[j - 1] in dom;
        }
      } else {
        assert r[i] == s[i - 1] && r[j] == s[j - 1];
      }
    }
  }

  lemma {:induction false} InsertSortedIsSorted<T>(lt: (T, T) -> bool, x: T, s: seq<T>)
    requires StrictWeakOrderOn(lt, s + [x])
    requires SortedBy(lt, s)
    ensures SortedBy(lt, InsertSorted(lt, x, s))
  {
    if s != [] {
      if lt(s[0], x) {
        StrictWeakOrderSub(lt, s + [x], s[1..] + [x]);
        InsertSortedIsSorted(lt, x, s[1..]);
        InsertAfterHead(lt, x, s);
      } else {
        InsertAtFront(lt, x, s);
      }
    }
  }

  /** The insertion sort's result is sorted. */
  lemma {:induction false} SortByIsSorted<T>(lt: (T, T) -> bool, s: seq<T>)
    requires StrictWeakOrderOn(lt, s)
    ensures SortedBy(lt, SortBy(lt, s))
  {
    if s != [] {
      StrictWeakOrderSub(lt, s, s[1..]);
      SortByIsSorted(lt, s[1..]);
      var t := SortBy(lt, s[1..]);
      forall y | y in t + [s[0]] ensures y in s {
        if y in t {
          assert y in multiset(s[1..]);
        }
      }
      StrictWeakOrderSub(lt, s, t + [s[0]]);
      InsertSortedIsSorted(lt, s[0], t);
    }
  }

  /** Two elements one of which has to come first are never both equivalent to a third. */
  lemma OrderedNotBothEquivalent<T>(lt: (T, T) -> bool, dom: seq<T>, a: T, b: T, c: T)
    requires StrictWeakOrderOn(lt, dom)
    requires a in dom && b in dom && c in dom
    requires lt(a, b)
    ensures !(Equivalent(lt, a, c) && Equivalent(lt, b, c))
  {
  }

  lemma {:induction false} InsertSortedClass<T(!new)>(lt: (T, T) -> bool, x: T, s: seq<T>, c: T)
    requires StrictWeakOrderOn(lt, s + [x, c])
    ensures Class(lt, InsertSorted(lt, x, s), c)
         == (if Equivalent(lt, x, c) then [x] else []) + Class(lt, s, c)
  {
    var p := EquivalentTo(lt, c);
    if s == [] {
      FilterCons(x, [], p);
    } else {
      var dom := s + [x, c];
      FilterCons(s[0], s[1..], p);
      assert s == [s[0]] + s[1..];
      if lt(s[0], x) {
        StrictWeakOrderSub(lt, dom, s[1..] + [x, c]);
        InsertSortedClass(lt, x, s[1..], c);
        FilterCons(s[0], InsertSorted(lt, x, s[1..]), p);
        assert s[0] in dom && x in dom && c in dom;
        OrderedNotBothEquivalent(lt, dom, s[0], x, c);
      } else {
        FilterCons(x, s, p);
      }
    }
  }

  /** Stability: the sort keeps every equivalence class in input order. */
  lemma {:induction false} SortByIsStable<T(!new)>(lt: (T, T) -> bool, s: seq<T>, c: T)
    requires StrictWeakOrderOn(lt, s + [c])
    ensures Class(lt, SortBy(lt, s), c) == Class(lt, s, c)
  {
    if s != [] {
      var p := EquivalentTo(lt, c);
      assert s == [s[0]] + s[1..];
      StrictWeakOrderSub(lt, s + [c], s[1..] + [c]);
      SortByIsStable(lt, s[1..], c);
      var t := SortBy(lt, s[1..]);
      forall y | y in t + [s[0], c] ensures y in s + [c] {
        if y in t {
          assert y in multiset(s[1..]);
        }
      }
      StrictWeakOrderSub(lt, s + [c], t + [s[0], c]);
      InsertSortedClass(lt, s[0], t, c);
      FilterCons(s[0], s[1..], p);
    }
  }

  /** The first elements of two sorted arrangements of the same elements are equivalent. */
  lemma SortedHeadsEquivalent<T>(lt: (T, T) -> bool, t: seq<T>, u: seq<T>)
    requires StrictWeakOrderOn(lt, t)
    requires multiset(t) == multiset(u) && t != [] && u != []
    requires SortedBy(lt, t) && SortedBy(lt, u)
    ensures Equivalent(lt, t[0], u[0])
  {
    assert u[0] in multiset(t) && t[0] in multiset(u);
    var i :| 0 <= i < |t| && t[i] == u[0];
    var j :| 0 <= j < |u| && u[j] == t[0];
    if i > 0 { assert !lt(t[i], t[0]); }
    if j > 0 { assert !lt(u[j], u[0]); }
  }

  /** Class agreement on the head's class makes the heads equal. */
  lemma EqualHeads<T(!new)>(lt: (T, T) -> bool, t: seq<T>, u: seq<T>)
    requires t != [] && u != [] && t[0] in t
    requires StrictWeakOrderOn(lt, t)
    requires Equivalent(lt, t[0], u[0])
    requires Class(lt, t, t[0]) == Class(lt, u, t[0])
    ensures t[0] == u[0]
  {
    var a := t[0];
    var p := EquivalentTo(lt, a);
    assert t == [a] + t[1..] && u == [u[0]] + u[1..];
    FilterCons(a, t[1..], p);
    FilterCons(u[0], u[1..], p);
    assert p(a) && p(u[0]);
    assert Filter(t, p)[0] == a;
    assert Filter(u, p)[0] == u[0];
  }

  /** Dropping a common head keeps class agreement. */
  lemma TailClasses<T(!new)>(lt: (T, T) -> bool, a: T, t: seq<T>, u: seq<T>, c: T)
    requires Class(lt, [a] + t, c) == Class(lt, [a] + u, c)
    ensures Class(lt, t, c) == Class(lt, u, c)
  {
    var q := EquivalentTo(lt, c);
    FilterCons(a, t, q);
    FilterCons(a, u, q);
    var head := if q(a) then [a] else [];
    assert Filter(t, q) == (head + Filter(t, q))[|head|..];
    assert Filter(u, q) == (head + Filter(u, q))[|head|..];
  }

  /** Equal multisets with a common head have equal tails. */
  lemma TailMultisets<T>(a: T, t: seq<T>, u: seq<T>, m: multiset<T>)
    requires multiset([a] + t) == m && multiset([a] + u) == m
    ensures multiset(t) == multiset(u)
  {
    assert multiset([a] + t) == multiset{a} + multiset(t);
    assert multiset([a] + u) == multiset{a} + multiset(u);
    assert multiset(t) == m - multiset{a};
    assert multiset(u) == m - multiset{a};
  }

  /** Class agreement on a whole sequence survives dropping a common head. */
  lemma AllTailClasses<T(!new)>(lt: (T, T) -> bool, a: T, t: seq<T>, u: seq<T>)
    requires forall c :: c in [a] + t ==> Class(lt, [a] + t, c) == Class(lt, [a] + u, c)
    ensures forall c :: c in t ==> Class(lt, t, c) == Class(lt, u, c)
  {
    forall c | c in t ensures Class(lt, t, c) == Class(lt, u, c) {
      assert c in [a] + t;
      TailClasses(lt, a, t, u, c);
    }
  }

  /** The tail of a sorted sequence is sorted. */
  lemma SortedTail<T>(lt: (T, T) -> bool, t: seq<T>)
    requires t != [] && SortedBy(lt, t)
    ensures SortedBy(lt, t[1..])
  {
    forall i, j | 0 <= i < j < |t[1..]| ensures !lt(t[1..][j], t[1..][i]) {
      assert t[1..][j] == t[j + 1] && t[1..][i] == t[i + 1];
    }
  }

  /** Two sorted arrangements of the same elements that agree on the order
      inside every equivalence class are the same sequence. */
  lemma {:induction false} SortedStableUnique<T(!new)>(lt: (T, T) -> bool, t: seq<T>, u: seq<T>)
    requires StrictWeakOrderOn(lt, t)
    requires multiset(t) == multiset(u)
    requires SortedBy(lt, t) && SortedBy(lt, u)
    requires forall c :: c in t ==> Class(lt, t, c) == Class(lt, u, c)
    ensures t == u
    decreases |t|
  {
    if t == [] {
      assert |u| == |multiset(u)| == 0;
    } else {
      assert |u| == |multiset(u)| == |t| > 0;
      SortedHeadsEquivalent(lt, t, u);
      assert t[0] in t;
      EqualHeads(lt, t, u);
      var a := t[0];
      assert t == [a] + t[1..] && u == [a] + u[1..];
      StrictWeakOrderSub(lt, t, t[1..]);
      TailMultisets(a, t[1..], u[1..], multiset(t));
      AllTailClasses(lt, a, t[1..], u[1..]);
      SortedTail(lt, t);
      SortedTail(lt, u);
      SortedStableUnique(lt, t[1..], u[1..]);
    }
  }

  /** Any rearrangement of `s` that is sorted and keeps every equivalence
      class in input order is the insertion sort's result: for a consistent
      comparator, `SortBy` is the one answer a stable sort may give. */
  lemma SortByIsUnique<T(!new)>(lt: (T, T) -> bool, s: seq<T>, t: seq<T>)
    requires StrictWeakOrderOn(lt, s)
    requires multiset(t) == multiset(s)
    requires SortedBy(lt, t)
    requires forall c :: c in s ==> Class(lt, t, c) == Class(lt, s, c)
    ensures t == SortBy(lt, s)
  {
    var u := SortBy(lt, s);
    SortByIsSorted(lt, s);
    forall y | y in t ensures y in s {
      assert y in multiset(t);
    }
    StrictWeakOrderSub(lt, s, t);
    forall c | c in t ensures Class(lt, t, c) == Class(lt, u, c) {
      assert c in multiset(t);
      StrictWeakOrderSub(lt, s, s + [c]);
      SortByIsStable(lt, s, c);
    }
    SortedStableUnique(lt, t, u);
  }

  /** The sort's first element is not preceded by anything in `s`, and it is
      the first element of `s` in its equivalence class. */
  lemma SortByHead<T(!new)>(lt: (T, T) -> bool, s: seq<T>)
    requires StrictWeakOrderOn(lt, s) && s != []
    ensures var h := SortBy(lt, s)[0];
      && h in s
      && (forall x :: x in s ==> !lt(x, h))
      && Class(lt, s, h) != [] && Class(lt, s, h)[0] == h
  {
    var r := SortBy(lt, s);
    var h := r[0];
    assert h in multiset(s);
    SortByIsSorted(lt, s);
    forall x | x in s ensures !lt(x, h) {
      assert x in multiset(r);
      var j :| 0 <= j < |r| && r[j] == x;
    }
    StrictWeakOrderSub(lt, s, s + [h]);
    SortByIsStable(lt, s, h);
    assert r == [h] + r[1..];
    FilterCons(h, r[1..], EquivalentTo(lt, h));
  }
}
