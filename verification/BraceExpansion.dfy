/** Nested `{a,b}` groups of path patterns: finding the first group and cutting it at its commas. */
module BraceExpansion {
  import opened Sequences

  const MAX_EXPANDED_PATTERNS: nat := 256

  datatype ExpansionError = UnmatchedClosing | UnmatchedOpening | BadAlternatives | TooMany

  datatype Result<+T> = Ok(value: T) | Err(error: ExpansionError)

  /** What the first brace of a candidate leads to: nothing, or the group `candidate[start..end + 1]`. */
  datatype Group = NoGroup | Group(start: nat, end: nat)

  // ---------------------------------------------------------------------------------------------
  // Nesting depth
  // ---------------------------------------------------------------------------------------------

  function Weight(c: char): int {
    if c == '{' then 1 else if c == '}' then -1 else 0
  }

  function Depth(s: string): int {
    if s == [] then 0 else Depth(s[..|s| - 1]) + Weight(s[|s| - 1])
  }

  predicate Braceless(s: string) {
    forall i | 0 <= i < |s| :: s[i] != '{' && s[i] != '}'
  }

  /** No prefix closes more groups than it opens. */
  ghost predicate Nested(s: string) {
    forall k | 0 <= k <= |s| :: Depth(s[..k]) >= 0
  }

  ghost predicate Balanced(s: string) {
    Nested(s) && Depth(s) == 0
  }

  function Opens(s: string): nat {
    if s == [] then 0 else Opens(s[..|s| - 1]) + (if s[|s| - 1] == '{' then 1 else 0)
  }

  lemma {:induction false} DepthConcat(u: string, v: string)
    ensures Depth(u + v) == Depth(u) + Depth(v)
    ensures Opens(u + v) == Opens(u) + Opens(v)
  {
    if v == [] {
      assert u + v == u;
    } else {
      assert (u + v)[..|u + v| - 1] == u + v[..|v| - 1];
      DepthConcat(u, v[..|v| - 1]);
    }
  }

  lemma {:induction false} BracelessDepth(s: string)
    requires Braceless(s)
    ensures Depth(s) == 0 && Opens(s) == 0 && Balanced(s)
  {
    if s != [] {
      BracelessDepth(s[..|s| - 1]);
      forall k | 0 <= k <= |s| ensures Depth(s[..k]) >= 0 {
        if k < |s| {
          assert s[..k] == s[..|s| - 1][..k];
        } else {
          assert s[..k] == s;
        }
      }
    }
  }

  lemma BracelessOpens(s: string)
    requires s != [] && Braceless(s[..|s| - 1])
    ensures Opens(s) == if s[|s| - 1] == '{' then 1 else 0
  {
    BracelessDepth(s[..|s| - 1]);
  }

  lemma BalancedConcat(u: string, v: string)
    requires Balanced(u)
    ensures Balanced(u + v) <==> Balanced(v)
    ensures Nested(u + v) <==> Nested(v)
  {
    DepthConcat(u, v);
    if Nested(v) {
      forall k | 0 <= k <= |u + v| ensures Depth((u + v)[..k]) >= 0 {
        if k <= |u| {
          assert (u + v)[..k] == u[..k];
        } else {
          assert (u + v)[..k] == u + v[..k - |u|];
          DepthConcat(u, v[..k - |u|]);
        }
      }
    }
    if Nested(u + v) {
      forall k | 0 <= k <= |v| ensures Depth(v[..k]) >= 0 {
        assert (u + v)[..|u| + k] == u + v[..k];
        DepthConcat(u, v[..k]);
      }
    }
  }

  /** A string that goes below depth zero has a balanced prefix followed by the offending `}`. */
  lemma {:induction false} FirstClosing(t: string) returns (b: nat)
    requires !Nested(t)
    ensures b < |t| && t[b] == '}' && Balanced(t[..b])
    decreases |t|
  {
    var k :| 0 <= k <= |t| && Depth(t[..k]) < 0;
    var p := t[..k];
    var q := p[..|p| - 1];
    if Nested(q) {
      b := |q|;
      assert t[..b] == q;
      assert q[..|q|] == q;
    } else {
      b := FirstClosing(q);
      assert t[..b] == q[..b];
    }
  }

  // ---------------------------------------------------------------------------------------------
  // The first outermost group
  // ---------------------------------------------------------------------------------------------

  /** The first brace is at `i`. */
  ghost predicate FirstBrace(s: string, i: nat) {
    i < |s| && (s[i] == '{' || s[i] == '}') && Braceless(s[..i])
  }

  ghost predicate IsGroup(s: string, a: nat, b: nat) {
    a < b < |s| && FirstBrace(s, a) && s[a] == '{' && s[b] == '}' && Balanced(s[a + 1..b])
  }

  lemma FirstBraceUnique(s: string, i: nat, j: nat)
    requires FirstBrace(s, i) && FirstBrace(s, j)
    ensures i == j
  {
  }

  lemma GroupUnique(s: string, a: nat, b: nat, c: nat, d: nat)
    requires IsGroup(s, a, b) && IsGroup(s, c, d)
    ensures a == c && b == d
  {
    FirstBraceUnique(s, a, c);
    NoLaterClosing(s, a, b, d);
    NoLaterClosing(s, a, d, b);
  }

  lemma NoLaterClosing(s: string, a: nat, b: nat, d: nat)
    requires a < b < |s| && s[b] == '}' && Balanced(s[a + 1..b])
    requires a < d < |s| && Balanced(s[a + 1..d])
    ensures d <= b
  {
    if b < d {
      CutInside(s, a + 1, b, d);
      NotNestedAfterClosing(s[a + 1..d], b - a - 1, s[a + 1..b]);
    }
  }

  lemma CutInside(s: string, from: nat, b: nat, d: nat)
    requires from <= b < d <= |s|
    ensures s[from..d][..b - from] == s[from..b] && s[from..d][b - from] == s[b]
  {
  }

  /** A `}` right after a balanced prefix takes the depth below zero. */
  lemma NotNestedAfterClosing(t: string, k: nat, p: string)
    requires k < |t| && t[k] == '}' && p == t[..k] && Depth(p) == 0
    ensures !Nested(t)
  {
    assert t[..k + 1][..k] == p;
    assert Depth(t[..k + 1]) == -1;
  }

  /** The declarative reading of the first brace of `s`. */
  ghost function FirstGroup(s: string): (r: Result<Group>)
    ensures r.Ok? && r.value.Group? ==> IsGroup(s, r.value.start, r.value.end)
    ensures r.Err? ==> r.error in {UnmatchedClosing, UnmatchedOpening}
  {
    if Braceless(s) then Ok(NoGroup)
    else if exists a: nat, b: nat :: IsGroup(s, a, b) then
      var a: nat, b: nat :| IsGroup(s, a, b);
      Ok(Group(a, b))
    else if exists i: nat :: FirstBrace(s, i) && s[i] == '}' then Err(UnmatchedClosing)
    else Err(UnmatchedOpening)
  }

  /** The four outcomes, each pinned by its own condition on the text. */
  lemma FirstGroupMeaning(s: string)
    ensures FirstGroup(s) == Ok(NoGroup) <==> Braceless(s)
    ensures forall a: nat, b: nat :: FirstGroup(s) == Ok(Group(a, b)) <==> IsGroup(s, a, b)
    ensures FirstGroup(s) == Err(UnmatchedClosing) <==> exists i: nat :: FirstBrace(s, i) && s[i] == '}'
    ensures FirstGroup(s) == Err(UnmatchedOpening) <==>
            exists i: nat :: FirstBrace(s, i) && s[i] == '{' && Nested(s[i + 1..])
  {
    forall a: nat, b: nat | IsGroup(s, a, b) ensures FirstGroup(s) == Ok(Group(a, b)) {
      GroupIsFirst(s, a, b);
    }
    if i: nat :| FirstBrace(s, i) && s[i] == '}' {
      ClosingIsFirst(s, i);
    }
    if i: nat :| FirstBrace(s, i) && s[i] == '{' && Nested(s[i + 1..]) {
      OpenNeverClosed(s, i);
    }
    if FirstGroup(s) == Err(UnmatchedOpening) {
      var i := FindBrace(s);
      if !Nested(s[i + 1..]) {
        var b := FirstClosing(s[i + 1..]);
        assert s[i + 1..][..b] == s[i + 1..i + 1 + b];
        assert IsGroup(s, i, i + 1 + b);
      }
    }
  }

  lemma OpenNeverClosed(s: string, i: nat)
    requires FirstBrace(s, i) && s[i] == '{' && Nested(s[i + 1..])
    ensures FirstGroup(s) == Err(UnmatchedOpening)
  {
    forall a: nat, b: nat ensures !IsGroup(s, a, b) {
      if IsGroup(s, a, b) {
        FirstBraceUnique(s, a, i);
        assert s[i + 1..][..b - i - 1] == s[i + 1..b];
        NotNestedAfterClosing(s[i + 1..], b - i - 1, s[i + 1..b]);
      }
    }
    forall j: nat | FirstBrace(s, j) ensures s[j] == '{' {
      FirstBraceUnique(s, i, j);
    }
  }

  lemma {:induction false} FindBrace(s: string) returns (i: nat)
    requires !Braceless(s)
    ensures FirstBrace(s, i)
  {
    var t := s[..|s| - 1];
    if Braceless(t) {
      i := |s| - 1;
    } else {
      i := FindBrace(t);
      assert s[..i] == t[..i];
    }
  }

  lemma BalancedHasGroup(u: string) returns (a: nat, b: nat)
    requires Balanced(u) && !Braceless(u)
    ensures IsGroup(u, a, b) && FirstGroup(u) == Ok(Group(a, b))
  {
    a := FindBrace(u);
    AfterOpening(u, a);
    var t := u[a + 1..];
    assert t[..|t|] == t;
    var k := FirstClosing(t);
    b := a + 1 + k;
    assert t[..k] == u[a + 1..b];
    GroupIsFirst(u, a, b);
  }

  lemma AfterOpening(u: string, a: nat)
    requires Balanced(u) && FirstBrace(u, a)
    ensures u[a] == '{' && Depth(u[a + 1..]) == -1
  {
    BracelessDepth(u[..a]);
    assert u[..a + 1] == u[..a] + [u[a]];
    assert u[..a + 1][..a] == u[..a];
    assert Depth(u[..a + 1]) >= 0;
    assert u == u[..a + 1] + u[a + 1..];
    DepthConcat(u[..a + 1], u[a + 1..]);
  }

  lemma GroupIsFirst(s: string, a: nat, b: nat)
    requires IsGroup(s, a, b)
    ensures FirstGroup(s) == Ok(Group(a, b))
  {
    var r := FirstGroup(s);
    GroupUnique(s, a, b, r.value.start, r.value.end);
  }

  lemma ClosingIsFirst(s: string, i: nat)
    requires FirstBrace(s, i) && s[i] == '}'
    ensures FirstGroup(s) == Err(UnmatchedClosing)
  {
    forall a: nat, b: nat ensures !IsGroup(s, a, b) {
      if IsGroup(s, a, b) { FirstBraceUnique(s, a, i); }
    }
  }

  /** What the scan knows before reading position `index`. */
  ghost predicate Scanned(s: string, seen: bool, start: nat, index: nat, depth: int)
    requires index <= |s|
  {
    if !seen then Braceless(s[..index]) && depth == 0
    else start < index && FirstBrace(s, start) && s[start] == '{' &&
         Nested(s[start + 1..index]) && depth == Depth(s[start + 1..index]) + 1 >= 1
  }

  lemma ScanUnopened(s: string, index: nat)
    requires index < |s| && Braceless(s[..index])
    ensures s[index] != '{' && s[index] != '}' ==> Scanned(s, false, 0, index + 1, 0)
    ensures s[index] == '{' ==> Scanned(s, true, index, index + 1, 1)
    ensures s[index] == '}' ==> FirstGroup(s) == Err(UnmatchedClosing)
  {
    assert s[..index + 1] == s[..index] + [s[index]];
    if s[index] == '{' {
      assert s[index + 1..index + 1] == [];
    } else if s[index] == '}' {
      ClosingIsFirst(s, index);
    }
  }

  lemma ScanOpened(s: string, start: nat, index: nat, depth: int)
    requires index < |s| && Scanned(s, true, start, index, depth)
    ensures depth + Weight(s[index]) >= 1 ==> Scanned(s, true, start, index + 1, depth + Weight(s[index]))
    ensures depth + Weight(s[index]) == 0 ==> FirstGroup(s) == Ok(Group(start, index))
  {
    Extend(s, start + 1, index);
    if depth + Weight(s[index]) == 0 {
      GroupIsFirst(s, start, index);
    }
  }

  /** The scan that finds the first outermost group. */
  method GroupBounds(candidate: string) returns (r: Result<Group>)
    ensures r == FirstGroup(candidate)
  {
    var seen, start, depth := false, 0, 0;
    for index := 0 to |candidate|
      invariant Scanned(candidate, seen, start, index, depth)
    {
      var character := candidate[index];
      if seen { ScanOpened(candidate, start, index, depth); } else { ScanUnopened(candidate, index); }
      if character == '{' {
        start := if seen then start else index;
        seen := true;
        depth := depth + 1;
      } else if character == '}' {
        if depth == 0 {
          return Err(UnmatchedClosing);
        }
        depth := depth - 1;
        if depth == 0 {
          return Ok(Group(if seen then start else index, index));
        }
      }
    }
    if seen {
      assert candidate[start + 1..|candidate|] == candidate[start + 1..];
      OpenNeverClosed(candidate, start);
      return Err(UnmatchedOpening);
    }
    assert candidate[..|candidate|] == candidate;
    return Ok(NoGroup);
  }

  /** One more character changes the depth by its weight. */
  lemma Extend(s: string, from: nat, index: nat)
    requires from <= index < |s|
    ensures Depth(s[from..index + 1]) == Depth(s[from..index]) + Weight(s[index])
    ensures Nested(s[from..index]) && Depth(s[from..index + 1]) >= 0 ==> Nested(s[from..index + 1])
  {
    var t := s[from..index + 1];
    assert t[..|t| - 1] == s[from..index];
    if Nested(s[from..index]) && Depth(t) >= 0 {
      forall k | 0 <= k <= |t| ensures Depth(t[..k]) >= 0 {
        if k == |t| {
          assert t[..k] == t;
        } else {
          assert t[..k] == s[from..index][..k];
        }
      }
    }
  }

  // ---------------------------------------------------------------------------------------------
  // The alternatives of one group
  // ---------------------------------------------------------------------------------------------

  ghost predicate TopComma(s: string, i: nat) {
    i < |s| && s[i] == ',' && Depth(s[..i]) == 0
  }

  ghost predicate NoTopComma(s: string) {
    forall i: nat :: !TopComma(s, i)
  }

  ghost predicate FirstTopComma(s: string, i: nat) {
    TopComma(s, i) && NoTopComma(s[..i])
  }

  lemma FirstTopCommaUnique(s: string, i: nat, j: nat)
    requires FirstTopComma(s, i) && FirstTopComma(s, j)
    ensures i == j
  {
    if i < j { CommaStays(s, i, j); }
    if j < i { CommaStays(s, j, i); }
  }

  lemma CommaStays(s: string, i: nat, j: nat)
    requires TopComma(s, i) && i < j <= |s|
    ensures !NoTopComma(s[..j])
  {
    assert s[..j][..i] == s[..i];
    assert TopComma(s[..j], i);
  }

  /** The text cut at every comma outside nested groups. */
  ghost function Split(s: string): seq<string>
    decreases |s|
  {
    if exists i: nat :: FirstTopComma(s, i) then
      var i: nat :| FirstTopComma(s, i);
      [s[..i]] + Split(s[i + 1..])
    else
      [s]
  }

  ghost function Alternatives(s: string): Result<seq<string>> {
    if |Split(s)| < 2 || [] in Split(s) then Err(BadAlternatives) else Ok(Split(s))
  }

  lemma SplitAt(s: string, i: nat)
    requires FirstTopComma(s, i)
    ensures Split(s) == [s[..i]] + Split(s[i + 1..])
  {
    var j: nat :| FirstTopComma(s, j) && Split(s) == [s[..j]] + Split(s[j + 1..]);
    FirstTopCommaUnique(s, i, j);
  }

  lemma SplitWhole(s: string)
    requires NoTopComma(s)
    ensures Split(s) == [s]
  {
  }

  function Join(parts: seq<string>): string {
    if parts == [] then [] else if |parts| == 1 then parts[0] else parts[0] + "," + Join(parts[1..])
  }

  /** Splitting loses nothing and every part of a balanced text is balanced and comma-free at its top. */
  lemma {:induction false} SplitMeaning(s: string)
    requires Balanced(s)
    ensures Split(s) != [] && Join(Split(s)) == s
    ensures forall part | part in Split(s) :: Balanced(part) && NoTopComma(part)
    decreases |s|
  {
    if i: nat :| FirstTopComma(s, i) {
      SplitAt(s, i);
      HalvesBalanced(s, i);
      SplitMeaning(s[i + 1..]);
      JoinCons(s[..i], Split(s[i + 1..]));
    } else {
      NoCommaAtAll(s);
    }
  }

  lemma HalvesBalanced(s: string, i: nat)
    requires Balanced(s) && TopComma(s, i)
    ensures s == s[..i] + "," + s[i + 1..] && Balanced(s[..i]) && Balanced(s[i + 1..])
  {
    assert s == s[..i] + ("," + s[i + 1..]);
    PrefixBalanced(s, i);
    BalancedConcat(s[..i], "," + s[i + 1..]);
    BracelessDepth(",");
    BalancedConcat(",", s[i + 1..]);
  }

  lemma JoinCons(x: string, rest: seq<string>)
    requires rest != []
    ensures Join([x] + rest) == x + "," + Join(rest)
  {
    assert ([x] + rest)[1..] == rest;
  }

  lemma SplitJoined(part: string, rest: string)
    requires Balanced(part) && NoTopComma(part)
    ensures Split(part + "," + rest) == [part] + Split(rest)
  {
    var text, i := part + "," + rest, |part|;
    assert text[..i] == part && text[i + 1..] == rest;
    assert FirstTopComma(text, i);
    SplitAt(text, i);
  }

  /** No other balanced comma-free parts are joined to the same text. */
  lemma {:induction false} SplitIsUnique(parts: seq<string>)
    requires parts != []
    requires forall k :: 0 <= k < |parts| ==> Balanced(parts[k]) && NoTopComma(parts[k])
    ensures Split(Join(parts)) == parts
  {
    if |parts| == 1 {
      SplitWhole(parts[0]);
    } else {
      SplitIsUnique(parts[1..]);
      SplitJoined(parts[0], Join(parts[1..]));
    }
  }

  lemma PrefixBalanced(s: string, i: nat)
    requires Nested(s) && i <= |s| && Depth(s[..i]) == 0
    ensures Balanced(s[..i])
  {
    forall k | 0 <= k <= i ensures Depth(s[..i][..k]) >= 0 {
      assert s[..i][..k] == s[..k];
    }
  }

  lemma {:induction false} FirstCommaExists(s: string, i: nat) returns (j: nat)
    requires TopComma(s, i)
    ensures FirstTopComma(s, j)
    decreases i
  {
    j := i;
    if k: nat :| TopComma(s[..i], k) {
      assert s[..i][..k] == s[..k];
      j := FirstCommaExists(s, k);
    }
  }

  lemma NoCommaAtAll(s: string)
    requires forall i: nat :: !FirstTopComma(s, i)
    ensures NoTopComma(s)
  {
    if i: nat :| TopComma(s, i) {
      var j := FirstCommaExists(s, i);
    }
  }

  /** The text before place `from` has been cut into `parts`. */
  ghost predicate CutUpTo(s: string, parts: seq<string>, from: nat)
    requires from <= |s|
  {
    parts + Split(s[from..]) == Split(s)
  }

  /** The scan has read the text up to place `index`, at this depth of the part that begins at place `from`. */
  ghost predicate Cutting(s: string, parts: seq<string>, from: nat, index: nat, depth: int)
    requires from <= index <= |s|
  {
    CutUpTo(s, parts, from) && NoTopComma(s[from..index]) && depth == Depth(s[from..index])
  }

  /** The scan that cuts one group at its own commas. */
  method GroupAlternatives(group: string) returns (r: Result<seq<string>>)
    ensures r == Alternatives(group)
    ensures r == if |Split(group)| >= 2 && [] !in Split(group) then Ok(Split(group)) else Err(BadAlternatives)
  {
    var alternatives: seq<string>, start, depth := [], 0, 0;
    for index := 0 to |group|
      invariant start <= index && Cutting(group, alternatives, start, index, depth)
    {
      var character := group[index];
      CharacterRead(group, alternatives, start, index, depth);
      if character == '{' {
        depth := depth + 1;
      } else if character == '}' {
        depth := depth - 1;
      } else if character == ',' && depth == 0 {
        alternatives := alternatives + [group[start..index]];
        start := index + 1;
      }
    }
    RestTaken(group, alternatives, start);
    alternatives := alternatives + [group[start..]];
    if |alternatives| < 2 || exists alternative | alternative in alternatives :: alternative == [] {
      return Err(BadAlternatives);
    }
    return Ok(alternatives);
  }

  lemma CommaFound(s: string, from: nat, index: nat)
    requires from <= index < |s| && s[index] == ',' && NoTopComma(s[from..index]) && Depth(s[from..index]) == 0
    ensures Split(s[from..]) == [s[from..index]] + Split(s[index + 1..])
  {
    var tail, i := s[from..], index - from;
    assert tail[..i] == s[from..index] && tail[i + 1..] == s[index + 1..];
    assert FirstTopComma(tail, i);
    SplitAt(tail, i);
  }

  lemma CharacterRead(s: string, parts: seq<string>, from: nat, index: nat, depth: int)
    requires from <= index < |s| && Cutting(s, parts, from, index, depth)
    ensures if s[index] == ',' && depth == 0
            then Cutting(s, parts + [s[from..index]], index + 1, index + 1, 0)
            else Cutting(s, parts, from, index + 1, depth + Weight(s[index]))
  {
    if s[index] == ',' && depth == 0 {
      CommaTaken(s, parts, from, index);
    } else {
      Extend(s, from, index);
      CommaStep(s, from, index);
    }
  }

  lemma RestTaken(s: string, parts: seq<string>, from: nat)
    requires from <= |s| && CutUpTo(s, parts, from) && NoTopComma(s[from..|s|])
    ensures Split(s) == parts + [s[from..]]
  {
    assert s[from..|s|] == s[from..];
    SplitWhole(s[from..]);
  }

  lemma CommaTaken(s: string, parts: seq<string>, from: nat, index: nat)
    requires from <= index < |s| && s[index] == ',' && NoTopComma(s[from..index]) && Depth(s[from..index]) == 0
    requires CutUpTo(s, parts, from)
    ensures CutUpTo(s, parts + [s[from..index]], index + 1)
    ensures NoTopComma(s[index + 1..index + 1]) && Depth(s[index + 1..index + 1]) == 0
  {
    CommaFound(s, from, index);
    MoveOver(parts, s[from..index], Split(s[index + 1..]));
    assert s[index + 1..index + 1] == [];
  }

  lemma CommaStep(s: string, from: nat, index: nat)
    requires from <= index < |s| && NoTopComma(s[from..index])
    requires s[index] != ',' || Depth(s[from..index]) != 0
    ensures NoTopComma(s[from..index + 1])
  {
    var t := s[from..index + 1];
    forall i: nat ensures !TopComma(t, i) {
      if i < |t| - 1 {
        assert t[..i] == s[from..index][..i];
        assert !TopComma(s[from..index], i);
      } else if i == |t| - 1 {
        assert t[..i] == s[from..index];
      }
    }
  }
}
