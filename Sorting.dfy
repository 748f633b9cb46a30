/** Python's stable `list.sort(key=...)`, as a functional insertion sort and
    as an in-place insertion sort on an array proved equal to it. */
module Sorting {

  /** `s` is ordered non-decreasingly by `key`. */
  predicate SortedBy<T>(s: seq<T>, key: T -> int)
  {
    forall i, j :: 0 <= i < j < |s| ==> key(s[i]) <= key(s[j])
  }

  /** `x` placed after every trailing element whose key exceeds its own,
      i.e. after the last element whose key is at most `key(x)`. */
  function Insert<T>(s: seq<T>, x: T, key: T -> int): (r: seq<T>)
    ensures |r| == |s| + 1
  {
    if s == [] then [x]
    else if key(s[|s| - 1]) <= key(x) then s + [x]
    else Insert(s[..|s| - 1], x, key) + [s[|s| - 1]]
  }

  /** Stable sort: each element is inserted after the equal-keyed elements
      that precede it in the input. */
  function SortBy<T>(s: seq<T>, key: T -> int): (r: seq<T>)
    ensures |r| == |s|
  {
    if s == [] then []
    else Insert(SortBy(s[..|s| - 1], key), s[|s| - 1], key)
  }

  /** The elements of `s` whose key is `k`, in their order in `s`. */
  function KeyClass<T>(s: seq<T>, key: T -> int, k: int): (r: seq<T>)
    ensures |r| <= |s|

  {
    if s == [] then []
    else KeyClass(s[..|s| - 1], key, k) + (if key(s[|s| - 1]) == k then [s[|s| - 1]] else [])
  }

  lemma {:induction false} KeyClassAppend<T>(a: seq<T>, b: seq<T>, key: T -> int, k: int)
    ensures KeyClass(a + b, key, k) == KeyClass(a, key, k) + KeyClass(b, key, k)
  {
    if b == [] {
      assert a + b == a;
    } else {
      assert (a + b)[..|a + b| - 1] == a + b[..|b| - 1];
      KeyClassAppend(a, b[..|b| - 1], key, k);
    }
  }

  /** Insert puts `x` at a single cut point: everything after it has a larger key
      and the element just before it (if any) has a key no larger. */
  lemma {:induction false} InsertCut<T>(s: seq<T>, x: T, key: T -> int) returns (j: nat)
    ensures j <= |s|
    ensures Insert(s, x, key) == s[..j] + [x] + s[j..]
    ensures j > 0 ==> key(s[j - 1]) <= key(x)
    ensures forall m :: j <= m < |s| ==> key(s[m]) > key(x)
  {
    if s == [] {
      j := 0;
    } else if key(s[|s| - 1]) <= key(x) {
      j := |s|;
      assert s[..j] == s && s[j..] == [];
    } else {
      var init := s[..|s| - 1];
      j := InsertCut(init, x, key);
      assert init[..j] == s[..j];
      assert init[j..] + [s[|s| - 1]] == s[j..];
    }
  }

  /** Putting `x` at a cut point like Insert's keeps a sorted sequence sorted. */
  lemma SortedAtCut<T>(s: seq<T>, x: T, key: T -> int, j: nat, r: seq<T>)
    requires SortedBy(s, key)
    requires j <= |s|
    requires r == s[..j] + [x] + s[j..]
    requires j > 0 ==> key(s[j - 1]) <= key(x)
    requires forall m :: j <= m < |s| ==> key(s[m]) > key(x)
    ensures SortedBy(r, key)
  {
    assert forall m :: 0 <= m < j ==> r[m] == s[m];
    assert r[j] == x;
    assert forall m :: j < m < |r| ==> r[m] == s[m - 1];
    forall p, q | 0 <= p < q < |r|
      ensures key(r[p]) <= key(r[q])
    {
      if q < j {
        assert key(s[p]) <= key(s[q]);
      } else if q == j {
        assert key(s[p]) <= key(s[j - 1]);
      } else if p < j {
        assert key(s[p]) <= key(s[q - 1]);
      } else if p == j {
        assert key(s[q - 1]) > key(x);
      } else {
        assert key(s[p - 1]) <= key(s[q - 1]);
      }
    }
  }

  lemma InsertSorted<T>(s: seq<T>, x: T, key: T -> int)
    requires SortedBy(s, key)
    ensures SortedBy(Insert(s, x, key), key)
  {
    var j := InsertCut(s, x, key);
    SortedAtCut(s, x, key, j, Insert(s, x, key));
  }

  lemma InsertPermutes<T>(s: seq<T>, x: T, key: T -> int)
    ensures multiset(Insert(s, x, key)) == multiset(s) + multiset{x}
  {
    var j := InsertCut(s, x, key);
    var front, back := s[..j], s[j..];
    assert s == front + back;
    assert multiset(front + [x] + back) == multiset(front) + multiset{x} + multiset(back);
  }

  lemma KeyClassSingle<T>(x: T, key: T -> int, k: int)
    ensures KeyClass([x], key, k) == (if key(x) == k then [x] else [])
  {
    assert [x][..0] == [];
  }

  lemma {:induction false} InsertKeyClass<T>(s: seq<T>, x: T, key: T -> int, k: int)
    ensures KeyClass(Insert(s, x, key), key, k) == KeyClass(s, key, k) + (if key(x) == k then [x] else [])
  {
    KeyClassSingle(x, key, k);
    if s == [] {
      assert Insert(s, x, key) == [x];
    } else if key(s[|s| - 1]) <= key(x) {
      assert Insert(s, x, key) == s + [x];
      KeyClassAppend(s, [x], key, k);
    } else {
      var init, last := s[..|s| - 1], s[|s| - 1];
      assert s == init + [last];
      assert Insert(s, x, key) == Insert(init, x, key) + [last];
      InsertKeyClass(init, x, key, k);
      KeyClassAppend(Insert(init, x, key), [last], key, k);
      KeyClassAppend(init, [last], key, k);
      KeyClassSingle(last, key, k);
    }
  }

  /** The sort orders by key and keeps the elements. */
  lemma {:induction false} SortBySorted<T>(s: seq<T>, key: T -> int)
    ensures SortedBy(SortBy(s, key), key)
    ensures multiset(SortBy(s, key)) == multiset(s)
  {
    if s != [] {
      var init, last := s[..|s| - 1], s[|s| - 1];
      var sortedInit := SortBy(init, key);
      assert SortBy(s, key) == Insert(sortedInit, last, key);
      SortBySorted(init, key);
      InsertSorted(sortedInit, last, key);
      InsertPermutes(sortedInit, last, key);
      assert s == init + [last];
    }
  }

  /** The sort is stable: the elements sharing a key keep their relative order. */
  lemma {:induction false} SortByStable<T>(s: seq<T>, key: T -> int, k: int)
    ensures KeyClass(SortBy(s, key), key, k) == KeyClass(s, key, k)
  {
    if s != [] {
      var init := s[..|s| - 1];
      SortByStable(init, key, k);
      InsertKeyClass(SortBy(init, key), s[|s| - 1], key, k);
    }
  }

  lemma {:induction false} KeyClassMembers<T>(s: seq<T>, key: T -> int, k: int, y: T)
    requires y in KeyClass(s, key, k)
    ensures y in s && key(y) == k
  {
    if s != [] {
      var init := s[..|s| - 1];
      if y in KeyClass(init, key, k) {
        KeyClassMembers(init, key, k, y);
      }
    }
  }

  /** A sorted sequence has no element keyed above its last one. */
  lemma {:induction false} SortedLastIsMax<T>(t: seq<T>, key: T -> int, k: int)
    requires SortedBy(t, key) && t != []
    requires key(t[|t| - 1]) < k
    ensures KeyClass(t, key, k) == []
  {
    if KeyClass(t, key, k) != [] {
      var y := KeyClass(t, key, k)[0];
      KeyClassMembers(t, key, k, y);
    }
  }

  lemma KeyClassOfLast<T>(s: seq<T>, key: T -> int)
    requires s != []
    ensures KeyClass(s, key, key(s[|s| - 1])) == KeyClass(s[..|s| - 1], key, key(s[|s| - 1])) + [s[|s| - 1]]
  {
  }

  lemma SnocInjective<T>(x: seq<T>, a: T, y: seq<T>, b: T)
    requires x + [a] == y + [b]
    ensures x == y && a == b
  {
    assert x == (x + [a])[..|x|] && y == (y + [b])[..|y|];
    assert a == (x + [a])[|x|] && b == (y + [b])[|y|];
  }

  /** Sequences with the same key classes whose last elements share a key
      end in the same element, and their remaining prefixes `ti` and `ui`
      again have the same key classes. */
  lemma SameClassesInit<T>(t: seq<T>, u: seq<T>, ti: seq<T>, ui: seq<T>, key: T -> int)
    requires t != [] && u != [] && key(t[|t| - 1]) == key(u[|u| - 1])
    requires ti == t[..|t| - 1] && ui == u[..|u| - 1]
    requires forall k :: KeyClass(t, key, k) == KeyClass(u, key, k)
    ensures t[|t| - 1] == u[|u| - 1]
    ensures forall k :: KeyClass(ti, key, k) == KeyClass(ui, key, k)
  {
    var a, b := t[|t| - 1], u[|u| - 1];
    var ka := key(a);
    KeyClassOfLast(t, key);
    KeyClassOfLast(u, key);
    SnocInjective(KeyClass(ti, key, ka), a, KeyClass(ui, key, ka), b);
    forall k | k != ka
      ensures KeyClass(ti, key, k) == KeyClass(ui, key, k)
    {
      assert KeyClass(t, key, k) == KeyClass(ti, key, k);
      assert KeyClass(u, key, k) == KeyClass(ui, key, k);
    }
  }

  /** Two sorted sequences with the same key classes are equal: being sorted and
      stable determines the result completely. */
  lemma {:induction false} SortedUnique<T>(t: seq<T>, u: seq<T>, key: T -> int)
    requires SortedBy(t, key) && SortedBy(u, key)
    requires forall k :: KeyClass(t, key, k) == KeyClass(u, key, k)
    ensures t == u
  {
    if t == [] || u == [] {
      if t != [] {
        KeyClassOfLast(t, key);
        assert false;
      } else if u != [] {
        KeyClassOfLast(u, key);
        assert false;
      }
    } else {
      var a, b := t[|t| - 1], u[|u| - 1];
      if key(a) < key(b) {
        KeyClassOfLast(u, key);
        SortedLastIsMax(t, key, key(b));
        assert false;
      } else if key(b) < key(a) {
        KeyClassOfLast(t, key);
        SortedLastIsMax(u, key, key(a));
        assert false;
      } else {
        var ti, ui := t[..|t| - 1], u[..|u| - 1];
        SameClassesInit(t, u, ti, ui, key);
        assert SortedBy(ti, key) && SortedBy(ui, key);
        SortedUnique(ti, ui, key);
        assert t == ti + [a] && u == ui + [b];
      }
    }
  }

  /** Any sorted sequence that keeps every key class of `s` in order is
      the stable sort of `s`. */
  lemma SortByUnique<T>(s: seq<T>, t: seq<T>, key: T -> int)
    requires SortedBy(t, key)
    requires forall k :: KeyClass(t, key, k) == KeyClass(s, key, k)
    ensures t == SortBy(s, key)
  {
    var r := SortBy(s, key);
    SortBySorted(s, key);
    forall k
      ensures KeyClass(r, key, k) == KeyClass(s, key, k)
    {
      SortByStable(s, key, k);
    }
    SortedUnique(t, r, key);
  }

  /** Any cut point with Insert's two defining properties is Insert's. */
  lemma {:induction false} InsertAt<T>(s: seq<T>, j: nat, x: T, key: T -> int)
    requires j <= |s|
    requires j > 0 ==> key(s[j - 1]) <= key(x)
    requires forall m :: j <= m < |s| ==> key(s[m]) > key(x)
    ensures Insert(s, x, key) == s[..j] + [x] + s[j..]
  {
    if j == |s| {
      assert s[..j] == s && s[j..] == [];
    } else {
      var init := s[..|s| - 1];
      InsertAt(init, j, x, key);
      assert init[..j] == s[..j];
      assert init[j..] + [s[|s| - 1]] == s[j..];
    }
  }

  /** Shifts `a[i]` left into the prefix `a[..i]` as Insert places it; the rest
      of the array is untouched. */
  method InsertInPlace<T>(a: array<T>, i: nat, key: T -> int)
    requires i < a.Length
    modifies a
    ensures a[..i + 1] == Insert(old(a[..i]), old(a[i]), key)
    ensures a[i + 1..] == old(a[i + 1..])
  {
    ghost var prefix := a[..i];
    var x := a[i];
    var j := i;
    while j > 0 && key(a[j - 1]) > key(x)
      invariant 0 <= j <= i
      invariant forall k :: 0 <= k < j ==> a[k] == prefix[k]
      invariant forall k :: j < k <= i ==> a[k] == prefix[k - 1]
      invariant forall k :: i < k < a.Length ==> a[k] == old(a[k])
      invariant forall m :: j <= m < i ==> key(prefix[m]) > key(x)
    {
      a[j] := a[j - 1];
      j := j - 1;
    }
    a[j] := x;
    InsertAt(prefix, j, x, key);
    assert a[..i + 1] == prefix[..j] + [x] + prefix[j..];
  }

  /** In-place insertion sort, the same permutation as the stable `list.sort`. */
  method InsertionSort<T>(a: array<T>, key: T -> int)
    modifies a
    ensures a[..] == SortBy(old(a[..]), key)
  {
    ghost var orig := a[..];
    var i := 0;
    while i < a.Length
      invariant 0 <= i <= a.Length
      invariant a[..i] == SortBy(orig[..i], key)
      invariant a[i..] == orig[i..]
    {
      assert a[i] == orig[i];
      InsertInPlace(a, i, key);
      assert orig[..i + 1][..i] == orig[..i];
      i := i + 1;
    }
    assert a[..] == a[..i];
    assert orig[..i] == orig;
  }

  /** An element at two positions is counted twice. */
  lemma RepeatCounts<T>(r: seq<T>, i: int, j: int)
    requires 0 <= i < j < |r| && r[i] == r[j]
    ensures multiset(r)[r[i]] >= 2
  {
    assert r == r[..j] + r[j..];
    assert r[i] in r[..j];
    assert r[j] in r[j..];
  }

  /** Sorting keeps exactly the elements it was given. */
  lemma SortByMembers<T>(s: seq<T>, key: T -> int)
    ensures forall x :: x in SortBy(s, key) <==> x in s
  {
    SortBySorted(s, key);
    forall x
      ensures x in SortBy(s, key) <==> x in s
    {
      assert x in SortBy(s, key) <==> x in multiset(SortBy(s, key));
      assert x in s <==> x in multiset(s);
    }
  }
}
