/**
 * Sorting. Python's sort is a built-in; what matters here is that the sorted listing of a set of
 * strictly ordered keys is unique, so that a result given in sorted order is a function of the
 * set alone, and that sorting by a key is stable.
 */
module Sorting {
  ghost predicate StrictOrder<T(!new)>(less: (T, T) -> bool) {
    && (forall x :: !less(x, x))
    && (forall x, y :: x != y ==> less(x, y) || less(y, x))
    && (forall x, y, z :: less(x, y) && less(y, z) ==> less(x, z))
  }

  predicate Sorted<T>(s: seq<T>, less: (T, T) -> bool) {
    forall i, j :: 0 <= i < j < |s| ==> less(s[i], s[j])
  }

  ghost predicate IsLeast<T(!new)>(m: T, items: set<T>, less: (T, T) -> bool) {
    m in items && forall x <- items :: x == m || less(m, x)
  }

  lemma {:induction false} LeastExists<T(!new)>(items: set<T>, less: (T, T) -> bool)
    requires StrictOrder(less) && items != {}
    ensures exists m :: IsLeast(m, items, less)
  {
    var x :| x in items;
    if items == {x} {
      assert IsLeast(x, items, less);
    } else {
      assert items - {x} != {};
      LeastExists(items - {x}, less);
      var m :| IsLeast(m, items - {x}, less);
      if less(x, m) {
        forall y <- items ensures y == x || less(x, y) {
          assert y == x || y == m || less(m, y);
        }
        assert IsLeast(x, items, less);
      } else {
        assert IsLeast(m, items, less);
      }
    }
  }

  ghost predicate Lists<T(!new)>(s: seq<T>, items: set<T>) {
    forall x :: x in s <==> x in items
  }

  /** The elements of `items` in increasing order. */
  ghost function Sort<T(!new)>(items: set<T>, less: (T, T) -> bool): (s: seq<T>)
    requires StrictOrder(less)
    ensures Sorted(s, less) && Lists(s, items)
    decreases |items|
  {
    if items == {} then []
    else
      LeastExists(items, less);
      var m :| IsLeast(m, items, less);
      [m] + Sort(items - {m}, less)
  }

  /** A sorted listing of a set is the only one. */
  lemma {:induction false} SortedIsUnique<T(!new)>(s: seq<T>, t: seq<T>, less: (T, T) -> bool)
    requires StrictOrder(less) && Sorted(s, less) && Sorted(t, less)
    requires forall x :: x in s <==> x in t
    ensures s == t
  {
    if s == [] {
      assert forall i :: 0 <= i < |t| ==> t[i] in t;
    } else {
      assert s[0] in t;
      assert t[0] in s;
      SameFirst(s, t, less);
      SameRest(s, t, less);
      SortedIsUnique(s[1..], t[1..], less);
    }
  }

  lemma SameFirst<T(!new)>(s: seq<T>, t: seq<T>, less: (T, T) -> bool)
    requires StrictOrder(less) && Sorted(s, less) && Sorted(t, less)
    requires s != [] && t != [] && s[0] in t && t[0] in s
    ensures s[0] == t[0]
  {
    FirstIsLeast(s, t[0], less);
    FirstIsLeast(t, s[0], less);
  }

  lemma FirstIsLeast<T(!new)>(s: seq<T>, x: T, less: (T, T) -> bool)
    requires Sorted(s, less) && x in s
    ensures x == s[0] || less(s[0], x)
  {
    var i :| 0 <= i < |s| && s[i] == x;
    assert i == 0 || less(s[0], s[i]);
  }

  lemma SameRest<T(!new)>(s: seq<T>, t: seq<T>, less: (T, T) -> bool)
    requires StrictOrder(less) && Sorted(s, less) && Sorted(t, less)
    requires s != [] && t != [] && s[0] == t[0]
    requires forall x :: x in s <==> x in t
    ensures forall x :: x in s[1..] <==> x in t[1..]
  {
    forall x ensures x in s[1..] <==> x in t[1..] {
      RestWithoutFirst(s, x, less);
      RestWithoutFirst(t, x, less);
    }
  }

  lemma RestWithoutFirst<T(!new)>(s: seq<T>, x: T, less: (T, T) -> bool)
    requires StrictOrder(less) && Sorted(s, less) && s != []
    ensures x in s[1..] <==> x in s && x != s[0]
  {
    if x in s[1..] {
      var i :| 0 <= i < |s| - 1 && s[1..][i] == x;
      assert less(s[0], s[i + 1]);
    }
  }

  lemma InsertedIsSorted<T(!new)>(s: seq<T>, i: nat, x: T, less: (T, T) -> bool)
    requires StrictOrder(less) && Sorted(s, less) && i <= |s|
    requires forall j :: 0 <= j < i ==> less(s[j], x)
    requires i == |s| || less(x, s[i])
    ensures Sorted(s[..i] + [x] + s[i..], less)
  {
    forall j | i <= j < |s| ensures less(x, s[j]) {
      assert j == i || less(s[i], s[j]);
    }
  }

  lemma InsertedElements<T>(s: seq<T>, i: nat, x: T, y: T)
    requires i <= |s|
    ensures y in s[..i] + [x] + s[i..] <==> y in s || y == x
  {
    assert s == s[..i] + s[i..];
  }

  /** Insert `x` into a sorted sequence. */
  method Insert<T(!new, ==)>(s: seq<T>, x: T, less: (T, T) -> bool) returns (r: seq<T>)
    requires StrictOrder(less) && Sorted(s, less) && x !in s
    ensures Sorted(r, less)
    ensures forall y :: y in r <==> y in s || y == x
  {
    var i := 0;
    while i < |s| && less(s[i], x)
      invariant i <= |s|
      invariant forall j :: 0 <= j < i ==> less(s[j], x)
    {
      i := i + 1;
    }
    InsertedIsSorted(s, i, x, less);
    forall y ensures y in s[..i] + [x] + s[i..] <==> y in s || y == x {
      InsertedElements(s, i, x, y);
    }
    r := s[..i] + [x] + s[i..];
  }

  method SortedOf<T(!new, ==)>(items: set<T>, less: (T, T) -> bool) returns (s: seq<T>)
    requires StrictOrder(less)
    ensures s == Sort(items, less)
  {
    s := [];
    var rest := items;
    while rest != {}
      invariant rest <= items
      invariant Sorted(s, less)
      invariant Lists(s, items - rest)
      decreases |rest|
    {
      var x :| x in rest;
      s := Insert(s, x, less);
      rest := rest - {x};
    }
    SortedIsUnique(s, Sort(items, less), less);
  }

  // ---------- Text ----------

  /** Strings compare by code point, a prefix before its extensions. */
  predicate TextLess(a: string, b: string) {
    if b == [] then false
    else if a == [] then true
    else a[0] < b[0] || (a[0] == b[0] && TextLess(a[1..], b[1..]))
  }

  lemma {:induction false} TextIsTotal(a: string, b: string)
    ensures !(TextLess(a, b) && TextLess(b, a))
    ensures a != b <==> TextLess(a, b) || TextLess(b, a)
  {
    if a != [] && b != [] {
      TextIsTotal(a[1..], b[1..]);
      assert a == [a[0]] + a[1..] && b == [b[0]] + b[1..];
    }
  }

  lemma {:induction false} TextIsTransitive(a: string, b: string, c: string)
    requires TextLess(a, b) && TextLess(b, c)
    ensures TextLess(a, c)
  {
    if a != [] && a[0] == b[0] == c[0] {
      TextIsTransitive(a[1..], b[1..], c[1..]);
    }
  }

  lemma TextOrder()
    ensures StrictOrder(TextLess)
  {
    forall x: string, y: string
      ensures !TextLess(x, x)
      ensures x != y ==> TextLess(x, y) || TextLess(y, x)
    {
      TextIsTotal(x, y);
      TextIsTotal(x, x);
    }
    forall x, y, z | TextLess(x, y) && TextLess(y, z) ensures TextLess(x, z) {
      TextIsTransitive(x, y, z);
    }
  }

  /** The texts agree before place `n`, and there `a` ends or has the smaller code point. */
  predicate PrecedesAt(a: string, b: string, n: nat) {
    n <= |a| && n < |b| && a[..n] == b[..n] && (n == |a| || a[n] < b[n])
  }

  /** Text comes before text if it ends first or has the smaller code point at the first difference. */
  ghost predicate TextBefore(a: string, b: string) {
    exists n: nat :: PrecedesAt(a, b, n)
  }

  lemma FirstDecides(a: string, b: string, n: nat)
    requires PrecedesAt(a, b, n) && n > 0
    ensures a != "" && b != "" && a[0] == b[0] && PrecedesAt(a[1..], b[1..], n - 1)
  {
    assert a[0] == a[..n][0] == b[..n][0] == b[0];
    assert a[1..][..n - 1] == a[..n][1..] && b[1..][..n - 1] == b[..n][1..];
  }

  lemma OneMoreAgrees(a: string, b: string, n: nat)
    requires a != "" && b != "" && a[0] == b[0] && PrecedesAt(a[1..], b[1..], n)
    ensures PrecedesAt(a, b, n + 1)
  {
    assert a[..n + 1] == [a[0]] + a[1..][..n] && b[..n + 1] == [b[0]] + b[1..][..n];
  }

  lemma {:induction false} TextLessMeaning(a: string, b: string)
    ensures TextLess(a, b) <==> TextBefore(a, b)
  {
    if a != "" && b != "" && a[0] == b[0] {
      TextLessMeaning(a[1..], b[1..]);
      if n: nat :| PrecedesAt(a[1..], b[1..], n) {
        OneMoreAgrees(a, b, n);
      }
    } else if TextLess(a, b) {
      assert PrecedesAt(a, b, 0);
    }
    if n: nat :| PrecedesAt(a, b, n) {
      if n > 0 { FirstDecides(a, b, n); }
    }
  }

  // ---------- The stable sort by a falling key ----------

  /** Insert an item behind those whose key is at least as large. */
  function InsertFalling<T>(items: seq<T>, item: T, key: T -> int): seq<T> {
    if items == [] || key(items[0]) < key(item) then [item] + items
    else [items[0]] + InsertFalling(items[1..], item, key)
  }

  /** Python's `sorted(items, key=key, reverse=True)`: items of one key keep their order. */
  function SortFalling<T>(items: seq<T>, key: T -> int): seq<T> {
    if items == [] then [] else InsertFalling(SortFalling(items[..|items| - 1], key), items[|items| - 1], key)
  }

  predicate Falling<T>(items: seq<T>, key: T -> int) {
    forall i, j | 0 <= i < j < |items| :: key(items[i]) >= key(items[j])
  }

  lemma {:induction false} InsertedMembers<T>(items: seq<T>, item: T, key: T -> int, x: T)
    ensures x in InsertFalling(items, item, key) <==> x in items || x == item
  {
    if items != [] && key(items[0]) >= key(item) {
      InsertedMembers(items[1..], item, key, x);
      assert items == [items[0]] + items[1..];
    }
  }

  lemma {:induction false} InsertedFalls<T>(items: seq<T>, item: T, key: T -> int)
    requires Falling(items, key)
    ensures Falling(InsertFalling(items, item, key), key)
  {
    if items != [] && key(items[0]) >= key(item) {
      var tail, rest := items[1..], InsertFalling(items[1..], item, key);
      InsertedFalls(tail, item, key);
      forall j | 0 <= j < |rest| ensures key(items[0]) >= key(rest[j]) {
        InsertedMembers(tail, item, key, rest[j]);
        if rest[j] != item {
          var k :| 0 <= k < |tail| && tail[k] == rest[j];
          assert tail[k] == items[k + 1];
        }
      }
    }
  }

  lemma {:induction false} SortedFalls<T>(items: seq<T>, key: T -> int)
    ensures Falling(SortFalling(items, key), key)
    ensures forall x :: x in SortFalling(items, key) <==> x in items
  {
    if items != [] {
      SortedFalls(items[..|items| - 1], key);
      var init, last := items[..|items| - 1], items[|items| - 1];
      InsertedFalls(SortFalling(init, key), last, key);
      assert items == init + [last];
      forall x ensures x in SortFalling(items, key) <==> x in items {
        InsertedMembers(SortFalling(init, key), last, key, x);
      }
    }
  }
}
