/**
 * Paths as their parts, and the configured roots that must not lie inside one another. Paths
 * are absolute and resolved; they compare part by part, as Python
 * compares them.
 */
module ProjectPaths {
  import opened Options
  import opened Sorting

  type Path = seq<string>

  /** `path.is_relative_to(root)` */
  predicate Under(path: Path, root: Path) {
    root <= path
  }

  predicate PartsNested(first: Path, second: Path) {
    var shortest := if |first| <= |second| then |first| else |second|;
    first[..shortest] == second[..shortest]
  }

  /** Two roots are nested exactly when some path lies below both. */
  lemma NestedMeaning(a: Path, b: Path)
    ensures PartsNested(a, b) <==> a <= b || b <= a
    ensures PartsNested(a, b) <==> exists path :: Under(path, a) && Under(path, b)
  {
    if PartsNested(a, b) {
      assert Under(if |a| <= |b| then b else a, a);
    }
    if a <= b || b <= a {
      var shortest := if |a| <= |b| then |a| else |b|;
      assert a[..shortest] == b[..shortest];
    }
    forall path | Under(path, a) && Under(path, b) ensures a <= b || b <= a {
      assert a == path[..|a|] && b == path[..|b|];
    }
  }

  ghost predicate NoneNested(paths: seq<Path>) {
    forall i, j | 0 <= i < j < |paths| :: !PartsNested(paths[i], paths[j])
  }

  /** The first and second path of a nested pair, and which of them is the outer one. */
  datatype Nesting = Nesting(first: nat, second: nat, firstIsOuter: bool)

  /** The first nested pair in reading order, or nothing exactly when no two paths are nested. */
  method ValidateNoNestedPaths(paths: seq<Path>) returns (error: Option<Nesting>)
    ensures error.None? <==> NoneNested(paths)
    ensures error.Some? ==> var e := error.value;
      && e.first < e.second < |paths| && PartsNested(paths[e.first], paths[e.second])
      && (e.firstIsOuter <==> paths[e.first] <= paths[e.second])
      && forall i, j | 0 <= i < j < |paths| && (i < e.first || (i == e.first && j < e.second)) ::
           !PartsNested(paths[i], paths[j])
  {
    for index := 0 to |paths|
      invariant forall i, j | 0 <= i < index && i < j < |paths| :: !PartsNested(paths[i], paths[j])
    {
      for other := index + 1 to |paths|
        invariant forall j | index < j < other :: !PartsNested(paths[index], paths[j])
      {
        if PartsNested(paths[index], paths[other]) {
          NestedMeaning(paths[index], paths[other]);
          return Some(Nesting(index, other, |paths[index]| <= |paths[other]|));
        }
      }
    }
    return None;
  }

  // ---------- Order ----------

  predicate PathLess(a: Path, b: Path) {
    if b == [] then false
    else if a == [] then true
    else TextLess(a[0], b[0]) || (a[0] == b[0] && PathLess(a[1..], b[1..]))
  }

  lemma {:induction false} PathIsTotal(a: Path, b: Path)
    ensures !(PathLess(a, b) && PathLess(b, a))
    ensures a != b <==> PathLess(a, b) || PathLess(b, a)
  {
    if a != [] && b != [] {
      PathIsTotal(a[1..], b[1..]);
      TextIsTotal(a[0], b[0]);
      assert a == [a[0]] + a[1..] && b == [b[0]] + b[1..];
    }
  }

  lemma {:induction false} PathIsTransitive(a: Path, b: Path, c: Path)
    requires PathLess(a, b) && PathLess(b, c)
    ensures PathLess(a, c)
  {
    if a != [] {
      if TextLess(a[0], b[0]) && TextLess(b[0], c[0]) {
        TextIsTransitive(a[0], b[0], c[0]);
      } else if a[0] == b[0] == c[0] {
        PathIsTransitive(a[1..], b[1..], c[1..]);
      }
    }
  }

  lemma PathOrder()
    ensures StrictOrder(PathLess)
  {
    forall x: Path, y: Path
      ensures !PathLess(x, x)
      ensures x != y ==> PathLess(x, y) || PathLess(y, x)
    {
      PathIsTotal(x, y);
      PathIsTotal(x, x);
    }
    forall x, y, z | PathLess(x, y) && PathLess(y, z) ensures PathLess(x, z) {
      PathIsTransitive(x, y, z);
    }
  }

  /** The paths agree before part `n`, and there `a` ends or has the smaller part. */
  ghost predicate PathPrecedesAt(a: Path, b: Path, n: nat) {
    n <= |a| && n < |b| && a[..n] == b[..n] && (n == |a| || TextBefore(a[n], b[n]))
  }

  /** A path comes before a path if it ends first or has the smaller part at the first difference. */
  ghost predicate PathBefore(a: Path, b: Path) {
    exists n: nat :: PathPrecedesAt(a, b, n)
  }

  lemma FirstPartDecides(a: Path, b: Path, n: nat)
    requires PathPrecedesAt(a, b, n) && n > 0
    ensures a != [] && b != [] && a[0] == b[0] && PathPrecedesAt(a[1..], b[1..], n - 1)
  {
    assert a[0] == a[..n][0] == b[..n][0] == b[0];
    assert a[1..][..n - 1] == a[..n][1..] && b[1..][..n - 1] == b[..n][1..];
  }

  lemma OneMorePartAgrees(a: Path, b: Path, n: nat)
    requires a != [] && b != [] && a[0] == b[0] && PathPrecedesAt(a[1..], b[1..], n)
    ensures PathPrecedesAt(a, b, n + 1)
  {
    assert a[..n + 1] == [a[0]] + a[1..][..n] && b[..n + 1] == [b[0]] + b[1..][..n];
  }

  /** The order of paths is decided by the first part in which they differ. */
  lemma {:induction false} PathLessMeaning(a: Path, b: Path)
    ensures PathLess(a, b) <==> PathBefore(a, b)
  {
    if a != [] && b != [] {
      TextLessMeaning(a[0], b[0]);
      TextIsTotal(a[0], b[0]);
    }
    if a != [] && b != [] && a[0] == b[0] {
      PathLessMeaning(a[1..], b[1..]);
      if n: nat :| PathPrecedesAt(a[1..], b[1..], n) {
        OneMorePartAgrees(a, b, n);
      }
    } else if PathLess(a, b) {
      assert PathPrecedesAt(a, b, 0);
    }
    if n: nat :| PathPrecedesAt(a, b, n) {
      if n > 0 { FirstPartDecides(a, b, n); }
    }
  }
}
