/**
 * Deterministic chains: every element ends its chain, breaks it, or leads to one other element.
 * A chain may also come back to an element that it has left, and then it never ends; what is
 * said of its end and its distance holds for every step function.
 */
module Chains {
  import opened Options

  datatype Step<T> = Here | Nowhere | Follow(next: T)

  function After<T>(step: T -> Step<T>, at: Option<T>): Option<T> {
    if at.Some? && step(at.value).Follow? then Some(step(at.value).next) else None
  }

  /** The element reached from `start` after `n` steps. */
  ghost function Reached<T>(step: T -> Step<T>, start: T, n: nat): Option<T> {
    if n == 0 then Some(start) else After(step, Reached(step, start, n - 1))
  }

  /** The chain from `start` ends, after `n` steps, at `end`. */
  ghost predicate EndsAt<T(!new)>(step: T -> Step<T>, start: T, n: nat, end: T) {
    Reached(step, start, n) == Some(end) && step(end).Here?
  }

  ghost predicate Ends<T(!new)>(step: T -> Step<T>, start: T, end: T) {
    exists n: nat :: EndsAt(step, start, n, end)
  }

  ghost predicate Repeats<T(!new)>(step: T -> Step<T>, start: T, i: nat, j: nat) {
    i < j && Reached(step, start, i).Some? && Reached(step, start, i) == Reached(step, start, j)
  }

  /** The chain comes back to an element it has passed. */
  ghost predicate Cycles<T(!new)>(step: T -> Step<T>, start: T) {
    exists i: nat, j: nat :: Repeats(step, start, i, j)
  }

  ghost predicate BreaksAt<T(!new)>(step: T -> Step<T>, start: T, n: nat) {
    Reached(step, start, n).Some? && step(Reached(step, start, n).value).Nowhere?
  }

  /** The chain reaches an element that leads nowhere. */
  ghost predicate GetsStuck<T(!new)>(step: T -> Step<T>, start: T) {
    exists n: nat :: BreaksAt(step, start, n)
  }

  lemma {:induction false} ReachedPrefix<T(!new)>(step: T -> Step<T>, start: T, m: nat, n: nat)
    requires m <= n && Reached(step, start, n).Some?
    ensures Reached(step, start, m).Some?
    ensures m < n ==> step(Reached(step, start, m).value).Follow?
    decreases n
  {
    if m < n {
      ReachedPrefix(step, start, m, n - 1);
    }
  }

  lemma {:induction false} ReachedAdds<T(!new)>(step: T -> Step<T>, start: T, m: nat, n: nat)
    requires Reached(step, start, m).Some?
    ensures Reached(step, start, m + n) == Reached(step, Reached(step, start, m).value, n)
  {
    if n > 0 {
      ReachedAdds(step, start, m, n - 1);
    }
  }

  /** The end of a chain is unique, and so is the number of steps to it. */
  lemma EndIsUnique<T(!new)>(step: T -> Step<T>, start: T, m: nat, a: T, n: nat, b: T)
    requires EndsAt(step, start, m, a) && EndsAt(step, start, n, b)
    ensures m == n && a == b
  {
    if m < n {
      ReachedPrefix(step, start, m, n);
    } else if n < m {
      ReachedPrefix(step, start, n, m);
    }
  }

  /** An element reached after a repetition was reached before it. */
  lemma SeenBefore<T(!new)>(step: T -> Step<T>, start: T, i: nat, j: nat, n: nat)
    requires Repeats(step, start, i, j) && j <= n && Reached(step, start, n).Some?
    ensures Reached(step, start, n - (j - i)) == Reached(step, start, n)
  {
    ReachedAdds(step, start, j, n - j);
    ReachedAdds(step, start, i, n - j);
  }

  /** A chain that cycles neither ends nor gets stuck. */
  lemma CyclesGoOn<T(!new)>(step: T -> Step<T>, start: T, n: nat)
    requires Cycles(step, start) && Reached(step, start, n).Some?
    ensures step(Reached(step, start, n).value).Follow?
  {
    var i: nat, j: nat :| Repeats(step, start, i, j);
    if n < j {
      ReachedPrefix(step, start, n, j);
    } else {
      SeenBefore(step, start, i, j, n);
      ReachedPrefix(step, start, n - (j - i), n);
    }
  }

  /** A chain that ends neither cycles nor gets stuck. */
  lemma EndExcludesTheRest<T(!new)>(step: T -> Step<T>, start: T, end: T)
    requires Ends(step, start, end)
    ensures !Cycles(step, start) && !GetsStuck(step, start)
  {
    var n: nat :| EndsAt(step, start, n, end);
    if Cycles(step, start) {
      CyclesGoOn(step, start, n);
    }
    if GetsStuck(step, start) {
      var m: nat :| BreaksAt(step, start, m);
      if m < n {
        ReachedPrefix(step, start, m, n);
      } else if n < m {
        ReachedPrefix(step, start, n, m);
      }
    }
  }

  /** A chain ends where the chain of its second element ends. */
  lemma EndsAfterOneStep<T(!new)>(step: T -> Step<T>, start: T, end: T)
    requires step(start).Follow?
    ensures Ends(step, start, end) <==> Ends(step, step(start).next, end)
  {
    var next := step(start).next;
    assert Reached(step, start, 1) == After(step, Reached(step, start, 0)) == Some(next);
    if Ends(step, next, end) {
      var n: nat :| EndsAt(step, next, n, end);
      ReachedAdds(step, start, 1, n);
      assert EndsAt(step, start, 1 + n, end);
    }
    if Ends(step, start, end) {
      var n: nat :| EndsAt(step, start, n, end);
      assert n != 0;
      ReachedAdds(step, start, 1, n - 1);
      assert EndsAt(step, next, n - 1, end);
    }
  }

  /** The elements passed in the first `n` steps are the visited ones. */
  ghost predicate Passed<T(!new)>(step: T -> Step<T>, start: T, n: nat, visited: set<T>) {
    forall r :: r in visited <==> PassedBy(step, start, n, r)
  }

  ghost predicate PassedBy<T(!new)>(step: T -> Step<T>, start: T, n: nat, r: T) {
    exists i: nat :: i < n && Reached(step, start, i) == Some(r)
  }

  lemma PassOne<T(!new)>(step: T -> Step<T>, start: T, n: nat, visited: set<T>, at: T)
    requires Passed(step, start, n, visited) && Reached(step, start, n) == Some(at)
    ensures Passed(step, start, n + 1, visited + {at})
  {
    forall r
      ensures r in visited + {at} <==> PassedBy(step, start, n + 1, r)
    {
      if PassedBy(step, start, n, r) {
        var i: nat :| i < n && Reached(step, start, i) == Some(r);
        assert i < n + 1;
      }
    }
  }

  lemma PassedCycles<T(!new)>(step: T -> Step<T>, start: T, n: nat, visited: set<T>, at: T)
    requires Passed(step, start, n, visited) && Reached(step, start, n) == Some(at) && at in visited
    ensures Cycles(step, start)
  {
    assert PassedBy(step, start, n, at);
    var i: nat :| i < n && Reached(step, start, i) == Some(at);
    assert Repeats(step, start, i, n);
  }
}
