/**
 * Sequences: concatenation regrouped, and selections. A selection holds the items of a sequence that
 * are kept, at their rising places, so that it is complete, keeps the order, and is the only
 * one.
 */
module Sequences {

  lemma Regroup<T>(a: seq<T>, b: seq<T>, c: seq<T>)
    ensures a + (b + c) == a + b + c
  {
  }

  lemma MoveOver<T>(done: seq<T>, x: T, rest: seq<T>)
    ensures done + ([x] + rest) == done + [x] + rest
  {
  }

  lemma NothingMore<T>(xs: seq<T>)
    ensures xs + [] == xs
  {
  }

  // ---------- Selections ----------

  predicate Rising(places: seq<nat>) {
    forall j, k | 0 <= j < k < |places| :: places[j] < places[k]
  }

  /** At these places `s` holds the chosen items, all of them kept. */
  predicate HoldsAt<T(==)>(s: seq<T>, keep: T -> bool, chosen: seq<T>, places: seq<nat>) {
    && |places| == |chosen|
    && forall j | 0 <= j < |places| :: places[j] < |s| && s[places[j]] == chosen[j] && keep(chosen[j])
  }

  predicate CoversKept<T>(s: seq<T>, keep: T -> bool, places: seq<nat>) {
    forall i | 0 <= i < |s| && keep(s[i]) :: i in places
  }

  /** `places` are the rising places of all the items that are kept, and `chosen` the items there. */
  predicate SelectsAt<T(==)>(s: seq<T>, keep: T -> bool, chosen: seq<T>, places: seq<nat>) {
    Rising(places) && HoldsAt(s, keep, chosen, places) && CoversKept(s, keep, places)
  }

  /** `chosen` are the items of `s` that are kept, each as often as it occurs, in their order. */
  ghost predicate Selects<T>(s: seq<T>, keep: T -> bool, chosen: seq<T>) {
    exists places: seq<nat> :: SelectsAt(s, keep, chosen, places)
  }

  lemma NothingSelected<T>(keep: T -> bool)
    ensures Selects([], keep, [])
  {
    assert SelectsAt([], keep, [], []);
  }

  lemma KeptSelected<T>(s: seq<T>, x: T, keep: T -> bool, chosen: seq<T>, places: seq<nat>)
    requires SelectsAt(s, keep, chosen, places) && keep(x)
    ensures SelectsAt(s + [x], keep, chosen + [x], places + [|s|])
  {
    var longer, more := s + [x], places + [|s|];
    assert HoldsAt(longer, keep, chosen + [x], more);
    forall i | 0 <= i < |longer| && keep(longer[i]) ensures i in more {
      if i < |s| {
        assert s[i] == longer[i] && i in places;
      } else {
        assert more[|places|] == i;
      }
    }
  }

  lemma DroppedSelected<T>(s: seq<T>, x: T, keep: T -> bool, chosen: seq<T>, places: seq<nat>)
    requires SelectsAt(s, keep, chosen, places) && !keep(x)
    ensures SelectsAt(s + [x], keep, chosen, places)
  {
    var longer := s + [x];
    assert HoldsAt(longer, keep, chosen, places);
    forall i | 0 <= i < |longer| && keep(longer[i]) ensures i in places {
      assert s[i] == longer[i];
    }
  }

  lemma OneMoreSelected<T>(s: seq<T>, x: T, keep: T -> bool, chosen: seq<T>)
    requires Selects(s, keep, chosen)
    ensures Selects(s + [x], keep, if keep(x) then chosen + [x] else chosen)
  {
    var places: seq<nat> :| SelectsAt(s, keep, chosen, places);
    if keep(x) {
      KeptSelected(s, x, keep, chosen, places);
    } else {
      DroppedSelected(s, x, keep, chosen, places);
    }
  }

  lemma LastIsHighest(places: seq<nat>, k: nat)
    requires Rising(places) && k < |places|
    ensures places[k] < places[|places| - 1] || k == |places| - 1
  {
  }

  lemma FirstPlaceInside<T>(s: seq<T>, keep: T -> bool, chosen: seq<T>, places: seq<nat>)
    requires HoldsAt(s, keep, chosen, places)
    ensures |chosen| > 0 ==> places[0] < |s|
  {
  }

  lemma LastPlaceKept<T>(s: seq<T>, keep: T -> bool, chosen: seq<T>, places: seq<nat>)
    requires s != [] && SelectsAt(s, keep, chosen, places) && keep(s[|s| - 1])
    ensures chosen != [] && places[|places| - 1] == |s| - 1 && chosen[|chosen| - 1] == s[|s| - 1]
    ensures SelectsAt(s[..|s| - 1], keep, chosen[..|chosen| - 1], places[..|places| - 1])
  {
    var n, last := |s| - 1, |places| - 1;
    assert n in places;
    var k :| 0 <= k < |places| && places[k] == n;
    LastIsHighest(places, k);
    forall j | 0 <= j < last ensures places[j] < n && s[..n][places[j]] == chosen[j] {
      assert places[j] < places[last];
    }
    assert HoldsAt(s[..n], keep, chosen[..last], places[..last]);
    forall i | 0 <= i < n && keep(s[..n][i]) ensures i in places[..last] {
      assert s[i] == s[..n][i] && i in places;
      var j :| 0 <= j < |places| && places[j] == i;
      assert places[..last][j] == i;
    }
  }

  lemma LastPlaceDropped<T>(s: seq<T>, keep: T -> bool, chosen: seq<T>, places: seq<nat>)
    requires s != [] && SelectsAt(s, keep, chosen, places) && !keep(s[|s| - 1])
    ensures SelectsAt(s[..|s| - 1], keep, chosen, places)
  {
    var n := |s| - 1;
    forall j | 0 <= j < |places| ensures places[j] < n && s[..n][places[j]] == chosen[j] {
      assert s[places[j]] == chosen[j] && keep(chosen[j]);
    }
    assert HoldsAt(s[..n], keep, chosen, places);
    assert forall i | 0 <= i < n :: s[..n][i] == s[i];
  }

  lemma OneLessSelected<T>(s: seq<T>, keep: T -> bool, chosen: seq<T>)
    requires s != [] && Selects(s, keep, chosen)
    ensures keep(s[|s| - 1]) ==> chosen != [] && chosen[|chosen| - 1] == s[|s| - 1]
                                 && Selects(s[..|s| - 1], keep, chosen[..|chosen| - 1])
    ensures !keep(s[|s| - 1]) ==> Selects(s[..|s| - 1], keep, chosen)
  {
    var places: seq<nat> :| SelectsAt(s, keep, chosen, places);
    if keep(s[|s| - 1]) {
      LastPlaceKept(s, keep, chosen, places);
    } else {
      LastPlaceDropped(s, keep, chosen, places);
    }
  }

  /** The selection, computed. */
  function Chosen<T>(s: seq<T>, keep: T -> bool): seq<T> {
    if s == [] then []
    else
      var init, last := s[..|s| - 1], s[|s| - 1];
      if keep(last) then Chosen(init, keep) + [last] else Chosen(init, keep)
  }

  lemma ChosenGrows<T>(s: seq<T>, keep: T -> bool, chosen: seq<T>)
    requires s != []
    requires if keep(s[|s| - 1])
             then chosen != [] && chosen[|chosen| - 1] == s[|s| - 1]
                  && chosen[..|chosen| - 1] == Chosen(s[..|s| - 1], keep)
             else chosen == Chosen(s[..|s| - 1], keep)
    ensures chosen == Chosen(s, keep)
  {
    if keep(s[|s| - 1]) {
      assert chosen == chosen[..|chosen| - 1] + [chosen[|chosen| - 1]];
    }
  }

  /** There is one selection only. */
  lemma {:induction false} SelectionIsUnique<T>(s: seq<T>, keep: T -> bool, chosen: seq<T>)
    requires Selects(s, keep, chosen)
    ensures chosen == Chosen(s, keep)
    decreases |s|
  {
    if s == [] {
      var places: seq<nat> :| SelectsAt(s, keep, chosen, places);
      FirstPlaceInside(s, keep, chosen, places);
    } else {
      OneLessSelected(s, keep, chosen);
      SelectionIsUnique(s[..|s| - 1], keep, if keep(s[|s| - 1]) then chosen[..|chosen| - 1] else chosen);
      ChosenGrows(s, keep, chosen);
    }
  }

  lemma ChosenStep<T>(s: seq<T>, keep: T -> bool)
    requires s != []
    ensures var init, last := s[..|s| - 1], s[|s| - 1];
      s == init + [last]
      && Chosen(s, keep) == if keep(last) then Chosen(init, keep) + [last] else Chosen(init, keep)
  {
  }

  lemma SelectedOnwards<T>(s: seq<T>, init: seq<T>, last: T, keep: T -> bool, chosen: seq<T>, all: seq<T>)
    requires s == init + [last] && Selects(init, keep, chosen)
    requires all == if keep(last) then chosen + [last] else chosen
    ensures Selects(s, keep, all)
  {
    OneMoreSelected(init, last, keep, chosen);
  }

  lemma {:induction false} ChosenIsSelected<T>(s: seq<T>, keep: T -> bool)
    ensures Selects(s, keep, Chosen(s, keep))
  {
    if s == [] {
      NothingSelected(keep);
    } else {
      var init, last := s[..|s| - 1], s[|s| - 1];
      ChosenIsSelected(init, keep);
      ChosenStep(s, keep);
      SelectedOnwards(s, init, last, keep, Chosen(init, keep), Chosen(s, keep));
    }
  }

  lemma {:induction false} ChosenInFront<T>(x: T, s: seq<T>, keep: T -> bool)
    ensures Chosen([x] + s, keep) == (if keep(x) then [x] else []) + Chosen(s, keep)
  {
    if s == [] {
      assert ([x] + s)[..0] == [];
    } else {
      assert ([x] + s)[..|s|] == [x] + s[..|s| - 1];
      ChosenInFront(x, s[..|s| - 1], keep);
    }
  }

  // ---------- Single selections ----------

  /** Place `i` alone holds an item that is kept. */
  ghost predicate OnlyAt<T>(s: seq<T>, keep: T -> bool, i: nat) {
    i < |s| && keep(s[i]) && forall j | 0 <= j < |s| && keep(s[j]) :: j == i
  }

  lemma OnlyOneSelected<T>(s: seq<T>, keep: T -> bool, chosen: seq<T>, places: seq<nat>, i: nat)
    requires SelectsAt(s, keep, chosen, places) && OnlyAt(s, keep, i)
    ensures chosen == [s[i]]
  {
    assert i in places;
    var k :| 0 <= k < |places| && places[k] == i;
    forall j | 0 <= j < |places| ensures places[j] == i {
      assert keep(s[places[j]]);
    }
    if places != [] {
      LastIsHighest(places, 0);
    }
  }

  lemma SelectedOnce<T>(s: seq<T>, keep: T -> bool, chosen: seq<T>, places: seq<nat>)
    requires SelectsAt(s, keep, chosen, places) && |chosen| == 1
    ensures OnlyAt(s, keep, places[0])
  {
    forall j | 0 <= j < |s| && keep(s[j]) ensures j == places[0] {
      assert j in places;
    }
    assert keep(chosen[0]);
  }

  /** One item is selected exactly when one place holds an item that is kept, and none when none does. */
  lemma SelectedOne<T>(s: seq<T>, keep: T -> bool, chosen: seq<T>)
    requires Selects(s, keep, chosen)
    ensures |chosen| == 1 <==> exists i: nat :: OnlyAt(s, keep, i)
    ensures forall i: nat | OnlyAt(s, keep, i) :: chosen == [s[i]]
    ensures chosen == [] <==> forall j | 0 <= j < |s| :: !keep(s[j])
  {
    var places: seq<nat> :| SelectsAt(s, keep, chosen, places);
    if |chosen| == 1 {
      SelectedOnce(s, keep, chosen, places);
    }
    forall i: nat | OnlyAt(s, keep, i) ensures chosen == [s[i]] {
      OnlyOneSelected(s, keep, chosen, places, i);
    }
    NoneSelected(s, keep, chosen, places);
  }

  lemma NoneSelected<T>(s: seq<T>, keep: T -> bool, chosen: seq<T>, places: seq<nat>)
    requires SelectsAt(s, keep, chosen, places)
    ensures chosen == [] <==> forall j | 0 <= j < |s| :: !keep(s[j])
  {
    if chosen != [] {
      assert keep(s[places[0]]);
    } else {
      forall j | 0 <= j < |s| ensures !keep(s[j]) {
        assert keep(s[j]) ==> j in places;
      }
    }
  }
}
