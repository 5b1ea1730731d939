/** Ordered products, and the expansion of brace patterns by repeated textual substitution. */
module BraceSemantics {
  import opened BraceExpansion

  // ---------------------------------------------------------------------------------------------
  // Ordered products
  // ---------------------------------------------------------------------------------------------

  function Prefixed(x: string, ys: seq<string>): (r: seq<string>)
    ensures |r| == |ys| && forall j | 0 <= j < |ys| :: r[j] == x + ys[j]
  {
    seq(|ys|, j requires 0 <= j < |ys| => x + ys[j])
  }

  /** Every concatenation of one element of each list, the first list most significant. */
  function Product(xs: seq<string>, ys: seq<string>): seq<string> {
    if xs == [] then [] else Prefixed(xs[0], ys) + Product(xs[1..], ys)
  }

  lemma {:induction false} ProductSplit(xs: seq<string>, ws: seq<string>, ys: seq<string>)
    ensures Product(xs + ws, ys) == Product(xs, ys) + Product(ws, ys)
  {
    if xs == [] {
      assert xs + ws == ws;
    } else {
      assert (xs + ws)[1..] == xs[1..] + ws;
      ProductSplit(xs[1..], ws, ys);
    }
  }

  lemma ProductOne(x: string, ys: seq<string>)
    ensures Product([x], ys) == Prefixed(x, ys)
  {
    assert Product([x][1..], ys) == [];
  }

  lemma PrefixedConcat(u: string, ys: seq<string>, zs: seq<string>)
    ensures Prefixed(u, ys + zs) == Prefixed(u, ys) + Prefixed(u, zs)
  {
  }

  lemma {:induction false} ProductSize(xs: seq<string>, ys: seq<string>)
    ensures |Product(xs, ys)| == |xs| * |ys|
  {
    if xs != [] {
      ProductSize(xs[1..], ys);
      assert |ys| + (|xs| - 1) * |ys| == |xs| * |ys|;
    }
  }

  /** Position `i * |ys| + j` holds `xs[i] + ys[j]`: the leftmost factor is the most significant. */
  lemma {:induction false} ProductAt(xs: seq<string>, ys: seq<string>, i: nat, j: nat)
    requires i < |xs| && j < |ys|
    ensures i * |ys| + j < |Product(xs, ys)| && Product(xs, ys)[i * |ys| + j] == xs[i] + ys[j]
  {
    ProductSize(xs, ys);
    ProductSize(xs[1..], ys);
    if i > 0 {
      ProductAt(xs[1..], ys, i - 1, j);
      assert (i - 1) * |ys| + j == i * |ys| + j - |ys|;
    }
  }

  // ---------------------------------------------------------------------------------------------
  // Textual substitution, outermost group first
  // ---------------------------------------------------------------------------------------------

  function OpensIn(parts: seq<string>): nat {
    if parts == [] then 0 else Opens(parts[0]) + OpensIn(parts[1..])
  }

  lemma {:induction false} OpensOfJoin(parts: seq<string>)
    ensures OpensIn(parts) == Opens(Join(parts))
  {
    if |parts| == 1 {
      assert OpensIn(parts[1..]) == 0;
    } else if parts != [] {
      OpensOfJoin(parts[1..]);
      DepthConcat(parts[0] + ",", Join(parts[1..]));
      DepthConcat(parts[0], ",");
      BracelessDepth(",");
    }
  }

  lemma OpensOfGroup(s: string, a: nat, b: nat)
    requires IsGroup(s, a, b)
    ensures s == s[..a] + "{" + s[a + 1..b] + "}" + s[b + 1..]
    ensures OpensIn(Split(s[a + 1..b])) == Opens(s[a + 1..b])
    ensures Opens(s[..a]) + Opens(s[a + 1..b]) + Opens(s[b + 1..]) + 1 == Opens(s)
  {
    assert s == s[..a] + "{" + s[a + 1..b] + "}" + s[b + 1..];
    DepthConcat(s[..a] + "{" + s[a + 1..b] + "}", s[b + 1..]);
    DepthConcat(s[..a] + "{" + s[a + 1..b], "}");
    DepthConcat(s[..a] + "{", s[a + 1..b]);
    DepthConcat(s[..a], "{");
    BracelessOpens("}");
    BracelessOpens("{");
    SplitMeaning(s[a + 1..b]);
    OpensOfJoin(Split(s[a + 1..b]));
  }

  lemma OpensOfThree(x: string, y: string, z: string)
    ensures Opens(x + y + z) == Opens(x) + Opens(y) + Opens(z)
    ensures Depth(x + y + z) == Depth(x) + Depth(y) + Depth(z)
  {
    DepthConcat(x + y, z);
    DepthConcat(x, y);
  }

  /** All expansions of `s`, or the first error met from left to right; no limit is applied. */
  ghost function Expansions(s: string): (r: Result<seq<string>>)
    ensures r.Ok? ==> |r.value| >= 1
    ensures r.Err? ==> r.error != TooMany
    decreases Opens(s), 0
  {
    match FirstGroup(s)
    case Err(e) => Err(e)
    case Ok(NoGroup) => Ok([s])
    case Ok(Group(a, b)) =>
      match Alternatives(s[a + 1..b])
      case Err(e) => Err(e)
      case Ok(parts) =>
        OpensOfGroup(s, a, b);
        ExpandEach(s[..a], parts, s[b + 1..])
  }

  ghost function ExpandEach(pre: string, parts: seq<string>, post: string): (r: Result<seq<string>>)
    ensures r.Ok? ==> |r.value| >= |parts|
    ensures r.Err? ==> r.error != TooMany
    decreases Opens(pre) + OpensIn(parts) + Opens(post), |parts| + 1
  {
    if parts == [] then Ok([]) else
      OpensOfThree(pre, parts[0], post);
      match Expansions(pre + parts[0] + post)
      case Err(e) => Err(e)
      case Ok(xs) =>
        match ExpandEach(pre, parts[1..], post)
        case Err(e) => Err(e)
        case Ok(ys) => Ok(xs + ys)
  }

  /** `r` is the product of `x` and `y`, and fails exactly when one of them does. */
  ghost predicate IsProduct(r: Result<seq<string>>, x: Result<seq<string>>, y: Result<seq<string>>) {
    && (r.Ok? <==> x.Ok? && y.Ok?)
    && (r.Ok? ==> r.value == Product(x.value, y.value))
  }

  /** Expanding a text whose first group is known, given by its three pieces. */
  lemma ExpansionsAtGroup(s: string, a: nat, b: nat, pre: string, inner: string, post: string)
    requires IsGroup(s, a, b) && pre == s[..a] && inner == s[a + 1..b] && post == s[b + 1..]
    ensures Alternatives(inner).Err? ==> Expansions(s).Err?
    ensures Alternatives(inner).Ok? ==> Expansions(s) == ExpandEach(pre, Alternatives(inner).value, post)
  {
    GroupIsFirst(s, a, b);
  }

  lemma ExpansionsBraceless(s: string)
    requires Braceless(s)
    ensures Expansions(s) == Ok([s])
  {
    FirstGroupMeaning(s);
  }

  /** Expanding a concatenation multiplies the expansions of its balanced halves. */
  lemma {:induction false} ProductLaw(u: string, v: string)
    requires Balanced(u)
    ensures IsProduct(Expansions(u + v), Expansions(u), Expansions(v))
    decreases Opens(u) + Opens(v), 0
  {
    if Braceless(u) {
      ExpansionsBraceless(u);
      LiteralPrefix(u, v);
    } else {
      var a, b := BalancedHasGroup(u);
      var pre, inner, post := u[..a], u[a + 1..b], u[b + 1..];
      GroupSurvives(u, v, a, b);
      ExpansionsAtGroup(u, a, b, pre, inner, post);
      ExpansionsAtGroup(u + v, a, b, pre, inner, post + v);
      if Alternatives(inner).Ok? {
        OpensOfGroup(u, a, b);
        GroupParts(u, a, b);
        ExpandSuffix(pre, Split(inner), post, v);
      }
    }
  }

  lemma GroupSurvives(u: string, v: string, a: nat, b: nat)
    requires IsGroup(u, a, b)
    ensures IsGroup(u + v, a, b)
    ensures (u + v)[..a] == u[..a] && (u + v)[a + 1..b] == u[a + 1..b] && (u + v)[b + 1..] == u[b + 1..] + v
  {
    assert (u + v)[..a] == u[..a];
    assert (u + v)[a + 1..b] == u[a + 1..b];
  }

  /** The pieces around and inside the first group of a balanced text are balanced. */
  lemma GroupParts(u: string, a: nat, b: nat)
    requires IsGroup(u, a, b)
    ensures Balanced(u[..a]) && (Balanced(u) ==> Balanced(u[b + 1..]))
    ensures forall part | part in Split(u[a + 1..b]) :: Balanced(part)
  {
    BracelessDepth(u[..a]);
    SplitMeaning(u[a + 1..b]);
    if Balanced(u) {
      var head := u[..b + 1];
      DepthThroughGroup(u, a, b);
      assert u == head + u[b + 1..];
      PrefixBalanced(u, b + 1);
      BalancedConcat(head, u[b + 1..]);
    }
  }

  lemma DepthThroughGroup(u: string, a: nat, b: nat)
    requires IsGroup(u, a, b)
    ensures Depth(u[..b + 1]) == 0
  {
    BracelessDepth(u[..a]);
    assert u[..b + 1] == u[..a] + "{" + (u[a + 1..b] + "}");
    OpensOfThree(u[..a], "{", u[a + 1..b] + "}");
    DepthConcat(u[a + 1..b], "}");
    assert Depth("{") == Depth("{"[..0]) + 1;
    assert Depth("}") == Depth("}"[..0]) - 1;
  }

  /** A brace-free prefix is carried into every expansion. */
  lemma {:induction false} LiteralPrefix(u: string, v: string)
    requires Braceless(u)
    ensures IsProduct(Expansions(u + v), Ok([u]), Expansions(v))
    decreases Opens(v), 0
  {
    match FirstGroup(v) {
      case Ok(NoGroup) =>
        FirstGroupShifted(u, v);
        LiteralConcat(u, v);
      case Ok(Group(a, b)) =>
        var pre, inner, post := v[..a], v[a + 1..b], v[b + 1..];
        GroupShifted(u, v, a, b, pre, inner, post);
        ExpansionsAtGroup(v, a, b, pre, inner, post);
        ExpansionsAtGroup(u + v, |u| + a, |u| + b, u + pre, inner, post);
        if Alternatives(inner).Ok? {
          OpensOfGroup(v, a, b);
          ExpandPrefix(u, pre, Split(inner), post);
        }
      case Err(_) =>
        FirstGroupShifted(u, v);
        FailedExpansions(v);
        FailedExpansions(u + v);
    }
  }

  lemma FailedExpansions(v: string)
    requires FirstGroup(v).Err?
    ensures Expansions(v).Err?
  {
  }

  lemma LiteralConcat(u: string, v: string)
    requires Braceless(u) && Braceless(v)
    ensures IsProduct(Expansions(u + v), Ok([u]), Expansions(v))
  {
    ExpansionsBraceless(v);
    ExpansionsBraceless(u + v);
    ProductOne(u, [v]);
  }

  lemma FirstGroupShifted(u: string, v: string)
    requires Braceless(u)
    ensures FirstGroup(v) == Ok(NoGroup) ==> FirstGroup(u + v) == Ok(NoGroup) && Braceless(v)
    ensures FirstGroup(v).Err? ==> FirstGroup(u + v) == FirstGroup(v)
  {
    FirstGroupMeaning(v);
    if FirstGroup(v) == Err(UnmatchedClosing) {
      var i: nat :| FirstBrace(v, i) && v[i] == '}';
      BraceShifted(u, v, i);
      ClosingIsFirst(u + v, |u| + i);
    } else if FirstGroup(v) == Err(UnmatchedOpening) {
      var i: nat :| FirstBrace(v, i) && v[i] == '{' && Nested(v[i + 1..]);
      BraceShifted(u, v, i);
      OpenNeverClosed(u + v, |u| + i);
    }
  }

  lemma BraceShifted(u: string, v: string, i: nat)
    requires Braceless(u) && FirstBrace(v, i)
    ensures FirstBrace(u + v, |u| + i) && (u + v)[|u| + i] == v[i] && (u + v)[|u| + i + 1..] == v[i + 1..]
  {
    assert (u + v)[..|u| + i] == u + v[..i];
  }

  lemma GroupShifted(u: string, v: string, a: nat, b: nat, pre: string, inner: string, post: string)
    requires Braceless(u) && IsGroup(v, a, b) && pre == v[..a] && inner == v[a + 1..b] && post == v[b + 1..]
    ensures IsGroup(u + v, |u| + a, |u| + b)
    ensures (u + v)[..|u| + a] == u + pre && (u + v)[|u| + a + 1..|u| + b] == inner && (u + v)[|u| + b + 1..] == post
  {
    BraceShifted(u, v, a);
    assert (u + v)[|u| + a + 1..|u| + b] == inner;
  }

  lemma {:induction false} ExpandPrefix(u: string, pre: string, parts: seq<string>, post: string)
    requires Braceless(u)
    ensures IsProduct(ExpandEach(u + pre, parts, post), Ok([u]), ExpandEach(pre, parts, post))
    decreases Opens(pre) + OpensIn(parts) + Opens(post), |parts| + 1
  {
    if parts == [] {
      ProductOne(u, []);
    } else {
      var first := pre + parts[0] + post;
      assert u + pre + parts[0] + post == u + first;
      OpensOfThree(pre, parts[0], post);
      LiteralPrefix(u, first);
      ExpandPrefix(u, pre, parts[1..], post);
      if ExpandEach(pre, parts, post).Ok? {
        var xs, ys := Expansions(first).value, ExpandEach(pre, parts[1..], post).value;
        ProductOne(u, xs);
        ProductOne(u, ys);
        ProductOne(u, xs + ys);
        PrefixedConcat(u, xs, ys);
      }
    }
  }

  lemma {:induction false} ExpandSuffix(pre: string, parts: seq<string>, post: string, v: string)
    requires Balanced(pre) && Balanced(post) && forall part | part in parts :: Balanced(part)
    requires parts != []
    ensures IsProduct(ExpandEach(pre, parts, post + v), ExpandEach(pre, parts, post), Expansions(v))
    decreases Opens(pre) + OpensIn(parts) + Opens(post) + Opens(v), |parts| + 1
  {
    var first := pre + parts[0] + post;
    assert pre + parts[0] + (post + v) == first + v;
    OpensOfThree(pre, parts[0], post);
    BalancedConcat(pre, parts[0]);
    BalancedConcat(pre + parts[0], post);
    ProductLaw(first, v);
    if |parts| == 1 {
      assert parts[1..] == [];
      if ExpandEach(pre, parts, post).Ok? {
        assert ExpandEach(pre, parts, post).value == Expansions(first).value;
      }
    } else {
      ExpandSuffix(pre, parts[1..], post, v);
      if ExpandEach(pre, parts, post).Ok? && Expansions(v).Ok? {
        ProductSplit(Expansions(first).value, ExpandEach(pre, parts[1..], post).value, Expansions(v).value);
      }
    }
  }
}
