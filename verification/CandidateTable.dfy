/**
 * The candidates of an override search, as a table of strengths by override and pattern, and the one
 * that wins: by specificity, then by the order of declaration, then by the place inside the
 * override.
 */
module CandidateTable {
  import opened Options
  import opened PatternSpecificity

  /** Row `o` holds the strengths of the patterns of override `o`; `None` marks one that is no candidate. */
  type Table = seq<seq<Option<Specificity>>>

  predicate IsCandidate(t: Table, o: nat, j: nat) {
    o < |t| && j < |t[o]| && t[o][j].Some?
  }

  /** Candidate `(o, j)` loses to candidate `(p, k)`: by specificity, then by declaration order,
      then by position inside the override. */
  predicate Loses(t: Table, o: nat, j: nat, p: nat, k: nat)
    requires IsCandidate(t, o, j) && IsCandidate(t, p, k)
  {
    || Below(t[o][j].value, t[p][k].value)
    || (t[o][j] == t[p][k] && (o < p || (o == p && j < k)))
  }

  /** Position `(o, j)` comes before `(order, index)` in reading order. */
  predicate Read(order: nat, index: nat, o: nat, j: nat) {
    o < order || (o == order && j < index)
  }

  ghost predicate WinsBefore(t: Table, order: nat, index: nat, p: nat, k: nat) {
    && IsCandidate(t, p, k) && Read(order, index, p, k)
    && forall o: nat, j: nat | IsCandidate(t, o, j) && Read(order, index, o, j) &&
        (o, j) != (p, k) :: Loses(t, o, j, p, k)
  }

  ghost predicate NoneBefore(t: Table, order: nat, index: nat) {
    forall o: nat, j: nat | Read(order, index, o, j) :: !IsCandidate(t, o, j)
  }

  ghost predicate Wins(t: Table, p: nat, k: nat) {
    && IsCandidate(t, p, k)
    && forall o: nat, j: nat | IsCandidate(t, o, j) && (o, j) != (p, k) :: Loses(t, o, j, p, k)
  }

  ghost predicate NoCandidate(t: Table) {
    forall o: nat, j: nat :: !IsCandidate(t, o, j)
  }

  lemma LosesThrough(t: Table, o: nat, j: nat, p: nat, k: nat, order: nat, index: nat)
    requires IsCandidate(t, o, j) && IsCandidate(t, p, k) && IsCandidate(t, order, index)
    requires Read(order, index, o, j) && ((o, j) == (p, k) || Loses(t, o, j, p, k))
    requires !Below(t[order][index].value, t[p][k].value)
    ensures Loses(t, o, j, order, index)
  {
    BelowTotal(t[order][index].value, t[p][k].value);
    BelowTransitive(t[o][j].value, t[p][k].value, t[order][index].value);
  }

  lemma FirstCandidate(t: Table, order: nat, index: nat)
    requires NoneBefore(t, order, index) && IsCandidate(t, order, index)
    ensures WinsBefore(t, order, index + 1, order, index)
  {
  }

  lemma KeptWinner(t: Table, order: nat, index: nat, p: nat, k: nat)
    requires IsCandidate(t, order, index) && WinsBefore(t, order, index, p, k)
    requires Below(t[order][index].value, t[p][k].value)
    ensures WinsBefore(t, order, index + 1, p, k)
  {
    assert Loses(t, order, index, p, k);
  }

  lemma DisplacedWinner(t: Table, order: nat, index: nat, p: nat, k: nat)
    requires IsCandidate(t, order, index) && WinsBefore(t, order, index, p, k)
    requires !Below(t[order][index].value, t[p][k].value)
    ensures WinsBefore(t, order, index + 1, order, index)
  {
    forall o: nat, j: nat | IsCandidate(t, o, j) && Read(order, index + 1, o, j) && (o, j) != (order, index)
      ensures Loses(t, o, j, order, index)
    {
      LosesThrough(t, o, j, p, k, order, index);
    }
  }

  lemma LosesAsymmetric(t: Table, o: nat, j: nat, p: nat, k: nat)
    requires IsCandidate(t, o, j) && IsCandidate(t, p, k) && Loses(t, o, j, p, k)
    ensures !Loses(t, p, k, o, j)
  {
    if Below(t[o][j].value, t[p][k].value) { BelowAsymmetric(t[o][j].value, t[p][k].value); }
  }

  lemma WinnerIsUnique(t: Table, o: nat, j: nat, p: nat, k: nat)
    requires Wins(t, o, j) && Wins(t, p, k)
    ensures o == p && j == k
  {
    if (o, j) != (p, k) {
      LosesAsymmetric(t, o, j, p, k);
    }
  }

  lemma AtLeastAsStrong(t: Table, o: nat, j: nat, p: nat, k: nat)
    requires IsCandidate(t, o, j) && Wins(t, p, k)
    ensures AtMost(t[o][j].value, t[p][k].value) && !Below(t[p][k].value, t[o][j].value)
    ensures t[o][j] == t[p][k] ==> o <= p
  {
    if (o, j) != (p, k) {
      assert Loses(t, o, j, p, k);
      LosesAsymmetric(t, o, j, p, k);
    }
  }
}
