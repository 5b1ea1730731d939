/**
 * Insertion-ordered tables from children to parents, and what repeated assignment leaves in
 * them: a key keeps the place of its first assignment and the value of its last. Filing the
 * keys under their values keeps their order.
 */
module ParentTables {
  import opened Options
  import opened Sorting

  /** `dict[child, parent]`, with its insertion order. */
  type ParentTable = seq<(nat, nat)>

  function Keys(table: ParentTable): (keys: seq<nat>)
    ensures |keys| == |table| && forall i :: 0 <= i < |keys| ==> keys[i] == table[i].0
  {
    seq(|table|, i requires 0 <= i < |table| => table[i].0)
  }

  /** `table[key] = value`: a key that is there keeps its place. */
  function Assigned(table: ParentTable, key: nat, value: nat): ParentTable {
    if table == [] then [(key, value)]
    else if table[0].0 == key then [(key, value)] + table[1..]
    else [table[0]] + Assigned(table[1..], key, value)
  }

  /** The table that assigning the entries in order leaves behind. */
  function Table(entries: ParentTable): ParentTable {
    if entries == [] then []
    else
      var last := entries[|entries| - 1];
      Assigned(Table(entries[..|entries| - 1]), last.0, last.1)
  }

  lemma OneMoreEntry(entries: ParentTable, entry: (nat, nat))
    ensures Table(entries + [entry]) == Assigned(Table(entries), entry.0, entry.1)
  {
    assert (entries + [entry])[..|entries|] == entries;
  }

  lemma NextEntry(entries: ParentTable, more: ParentTable, i: nat)
    requires i < |more|
    ensures Table(entries + more[..i + 1]) == Assigned(Table(entries + more[..i]), more[i].0, more[i].1)
  {
    OneMoreEntry(entries + more[..i], more[i]);
    assert entries + more[..i + 1] == entries + more[..i] + [more[i]];
  }

  lemma NextOfList<T>(s: seq<T>, i: nat)
    requires i < |s|
    ensures s[..i + 1] == s[..i] + [s[i]]
  {
  }

  lemma WholeList<T>(s: seq<T>)
    ensures s[..|s|] == s
  {
  }

  predicate Distinct(ids: seq<nat>) {
    forall i, j :: 0 <= i < j < |ids| ==> ids[i] != ids[j]
  }

  // ---------- Values ----------

  function Lookup(table: ParentTable, key: nat): Option<nat> {
    if table == [] then None
    else if table[0].0 == key then Some(table[0].1)
    else Lookup(table[1..], key)
  }

  /** The value assigned last. */
  function LastValue(entries: ParentTable, key: nat): Option<nat> {
    if entries == [] then None
    else
      var last := entries[|entries| - 1];
      if last.0 == key then Some(last.1) else LastValue(entries[..|entries| - 1], key)
  }

  lemma {:induction false} LookupAssigned(table: ParentTable, key: nat, value: nat, k: nat)
    ensures Lookup(Assigned(table, key, value), k) == if k == key then Some(value) else Lookup(table, k)
  {
    if table != [] && table[0].0 != key {
      LookupAssigned(table[1..], key, value, k);
    }
  }

  /** The table holds the value assigned last. */
  lemma {:induction false} TableHoldsLast(entries: ParentTable, key: nat)
    ensures Lookup(Table(entries), key) == LastValue(entries, key)
  {
    if entries != [] {
      var init, last := entries[..|entries| - 1], entries[|entries| - 1];
      TableHoldsLast(init, key);
      LookupAssigned(Table(init), last.0, last.1, key);
    }
  }

  // ---------- Order ----------

  /** The keys without repetitions, each where it occurs first. */
  function FirstKeys(keys: seq<nat>): seq<nat> {
    if keys == [] then []
    else
      var init, last := keys[..|keys| - 1], keys[|keys| - 1];
      FirstKeys(init) + if last in init then [] else [last]
  }

  lemma {:induction false} FirstKeysMembers(keys: seq<nat>, k: nat)
    ensures k in FirstKeys(keys) <==> k in keys
  {
    if keys != [] {
      FirstKeysMembers(keys[..|keys| - 1], k);
      assert keys == keys[..|keys| - 1] + [keys[|keys| - 1]];
    }
  }

  lemma KeysCons(entry: (nat, nat), rest: ParentTable)
    ensures Keys([entry] + rest) == [entry.0] + Keys(rest)
  {
  }

  lemma InRest(first: nat, rest: seq<nat>, k: nat)
    ensures k in [first] + rest <==> k == first || k in rest
  {
  }

  lemma {:induction false} AssignedKeys(table: ParentTable, key: nat, value: nat)
    ensures Keys(Assigned(table, key, value)) == Keys(table) + if key in Keys(table) then [] else [key]
  {
    if table == [] {
      KeysCons((key, value), []);
    } else {
      assert table == [table[0]] + table[1..];
      KeysCons(table[0], table[1..]);
      InRest(table[0].0, Keys(table[1..]), key);
      if table[0].0 == key {
        KeysCons((key, value), table[1..]);
      } else {
        AssignedKeys(table[1..], key, value);
        KeysCons(table[0], Assigned(table[1..], key, value));
      }
    }
  }

  lemma {:induction false} NewKeyGoesLast(table: ParentTable, key: nat, value: nat)
    requires forall i | 0 <= i < |table| :: table[i].0 != key
    ensures Assigned(table, key, value) == table + [(key, value)]
  {
    if table != [] {
      NewKeyGoesLast(table[1..], key, value);
    }
  }

  /** The table's keys are those of the entries, in the order of their first assignment. */
  lemma {:induction false} TableKeys(entries: ParentTable)
    ensures Keys(Table(entries)) == FirstKeys(Keys(entries))
  {
    if entries != [] {
      var init, last := entries[..|entries| - 1], entries[|entries| - 1];
      TableKeys(init);
      AssignedKeys(Table(init), last.0, last.1);
      assert Keys(entries)[..|entries| - 1] == Keys(init) && Keys(entries)[|entries| - 1] == last.0;
      FirstKeysMembers(Keys(init), last.0);
    }
  }

  /** Where a key occurs first. */
  function First(keys: seq<nat>, k: nat): (i: nat)
    ensures i <= |keys|
    ensures i < |keys| ==> keys[i] == k
    ensures forall j :: 0 <= j < i ==> keys[j] != k
  {
    if keys == [] || keys[0] == k then 0 else 1 + First(keys[1..], k)
  }

  /** Earlier first, and in doubt the smaller number: a total order. */
  predicate FirstBefore(keys: seq<nat>, a: nat, b: nat) {
    First(keys, a) < First(keys, b) || (First(keys, a) == First(keys, b) && a < b)
  }

  function ByFirst(keys: seq<nat>): (nat, nat) -> bool {
    (a: nat, b: nat) => FirstBefore(keys, a, b)
  }

  lemma ByFirstIsStrict(keys: seq<nat>)
    ensures StrictOrder(ByFirst(keys))
  {
  }

  lemma FirstInPrefix(keys: seq<nat>, n: nat, k: nat)
    requires n <= |keys| && k in keys[..n]
    ensures First(keys[..n], k) == First(keys, k) < n
  {
    var i := First(keys[..n], k);
    assert keys[..n][i] == keys[i] && forall j | 0 <= j < i :: keys[..n][j] == keys[j];
  }

  /** The keys of the longer list keep their order, and the new one comes behind them. */
  lemma KeptInOrder(keys: seq<nat>, n: nat, a: nat, b: nat)
    requires n < |keys| && a in keys[..n]
    requires if b in keys[..n] then FirstBefore(keys[..n], a, b) else b == keys[n]
    ensures FirstBefore(keys, a, b)
  {
    FirstInPrefix(keys, n, a);
    if b in keys[..n] {
      FirstInPrefix(keys, n, b);
    } else {
      assert forall j | 0 <= j < n :: keys[..n][j] == keys[j];
    }
  }

  lemma {:induction false} FirstKeysInOrder(keys: seq<nat>)
    ensures Sorted(FirstKeys(keys), ByFirst(keys))
  {
    if keys != [] {
      var n := |keys| - 1;
      FirstKeysInOrder(keys[..n]);
      MoreKeysInOrder(keys, n, FirstKeys(keys[..n]));
    }
  }

  lemma MoreKeysInOrder(keys: seq<nat>, n: nat, firsts: seq<nat>)
    requires |keys| == n + 1 && firsts == FirstKeys(keys[..n]) && Sorted(firsts, ByFirst(keys[..n]))
    ensures Sorted(FirstKeys(keys), ByFirst(keys))
  {
    forall i, j | 0 <= i < j < |FirstKeys(keys)|
      ensures FirstBefore(keys, FirstKeys(keys)[i], FirstKeys(keys)[j])
    {
      KeyOfPrefix(keys[..n], firsts, i);
      if j < |firsts| {
        KeyOfPrefix(keys[..n], firsts, j);
        assert ByFirst(keys[..n])(firsts[i], firsts[j]);
      }
      KeptInOrder(keys, n, firsts[i], FirstKeys(keys)[j]);
    }
  }

  lemma KeyOfPrefix(keys: seq<nat>, firsts: seq<nat>, i: nat)
    requires firsts == FirstKeys(keys) && i < |firsts|
    ensures firsts[i] in keys
  {
    assert firsts[i] in firsts;
    FirstKeysMembers(keys, firsts[i]);
  }

  // ---------- Keys with one value ----------

  /** The keys with this value, in the table's order. */
  function Filed(table: ParentTable, value: nat): seq<nat> {
    if table == [] then []
    else
      var last := table[|table| - 1];
      Filed(table[..|table| - 1], value) + if last.1 == value then [last.0] else []
  }

  lemma {:induction false} FiledMembers(table: ParentTable, value: nat, k: nat)
    ensures k in Filed(table, value) <==> (k, value) in table
  {
    if table != [] {
      FiledMembers(table[..|table| - 1], value, k);
      assert table == table[..|table| - 1] + [table[|table| - 1]];
    }
  }

  lemma {:induction false} DistinctLookup(table: ParentTable, key: nat, value: nat)
    requires Distinct(Keys(table))
    ensures (key, value) in table <==> Lookup(table, key) == Some(value)
  {
    if table != [] {
      var rest := table[1..];
      assert table == [table[0]] + rest;
      assert forall i :: 0 <= i < |rest| ==> Keys(rest)[i] == Keys(table)[i + 1];
      DistinctLookup(rest, key, value);
      if table[0].0 == key {
        forall i | 0 <= i < |rest| ensures rest[i].0 != key {
          assert Keys(table)[0] != Keys(table)[i + 1];
        }
      }
    }
  }

  lemma SortedIsDistinct(keys: seq<nat>, s: seq<nat>)
    requires Sorted(s, ByFirst(keys))
    ensures Distinct(s)
  {
    forall i, j | 0 <= i < j < |s| ensures s[i] != s[j] {
      assert ByFirst(keys)(s[i], s[j]);
    }
  }

  lemma {:induction false} FiledInOrder(table: ParentTable, value: nat, less: (nat, nat) -> bool)
    requires Sorted(Keys(table), less)
    ensures Sorted(Filed(table, value), less)
  {
    if table != [] {
      var n := |table| - 1;
      var init, last := table[..n], table[n];
      assert Keys(init) == Keys(table)[..n];
      FiledInOrder(init, value, less);
      forall i | 0 <= i < |Filed(init, value)| ensures less(Filed(init, value)[i], last.0) {
        var k := Filed(init, value)[i];
        assert k in Filed(init, value);
        FiledMembers(init, value, k);
        var j :| 0 <= j < n && table[j] == (k, value);
        assert less(Keys(table)[j], Keys(table)[n]);
      }
    }
  }

  /**
   * The keys filed under a value are those to which it was assigned last, in the order in which they were first
   * assigned anything.
   */
  lemma FiledMeaning(entries: ParentTable, value: nat)
    ensures forall k :: k in Filed(Table(entries), value) <==> LastValue(entries, k) == Some(value)
    ensures Sorted(Filed(Table(entries), value), ByFirst(Keys(entries)))
  {
    TableKeys(entries);
    FirstKeysInOrder(Keys(entries));
    SortedIsDistinct(Keys(entries), Keys(Table(entries)));
    forall k ensures k in Filed(Table(entries), value) <==> LastValue(entries, k) == Some(value) {
      FiledMembers(Table(entries), value, k);
      DistinctLookup(Table(entries), k, value);
      TableHoldsLast(entries, k);
    }
    FiledInOrder(Table(entries), value, ByFirst(Keys(entries)));
  }
}
