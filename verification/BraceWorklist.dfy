/** The stack-driven worklist that expands one path pattern under the hard limit. */
module BraceWorklist {
  import opened BraceExpansion
  import opened BraceSemantics
  import opened BraceTree

  /** `x` followed by `y`; the leftmost error wins. */
  function Chain(x: Result<seq<string>>, y: Result<seq<string>>): Result<seq<string>> {
    match x
    case Err(e) => Err(e)
    case Ok(xs) =>
      match y
      case Err(e) => Err(e)
      case Ok(ys) => Ok(xs + ys)
  }

  lemma ChainAssociative(x: Result<seq<string>>, y: Result<seq<string>>, z: Result<seq<string>>)
    ensures Chain(Chain(x, y), z) == Chain(x, Chain(y, z))
  {
    if x.Ok? && y.Ok? && z.Ok? {
      assert x.value + y.value + z.value == x.value + (y.value + z.value);
    }
  }

  /** What the candidates on the stack still have to contribute, the top of the stack first. */
  ghost function StackExpansions(pending: seq<string>): (r: Result<seq<string>>)
    ensures r.Ok? ==> |r.value| >= |pending|
    ensures r.Err? ==> r.error != TooMany
  {
    if pending == [] then Ok([])
    else Chain(Expansions(pending[|pending| - 1]), StackExpansions(pending[..|pending| - 1]))
  }

  /** The candidates of one group in the order they are pushed: the first alternative ends on top. */
  function Pushed(pre: string, parts: seq<string>, post: string): (r: seq<string>)
    ensures |r| == |parts|
  {
    if parts == [] then [] else Pushed(pre, parts[1..], post) + [pre + parts[0] + post]
  }

  lemma {:induction false} StackOfPushed(pending: seq<string>, pre: string, parts: seq<string>, post: string)
    ensures StackExpansions(pending + Pushed(pre, parts, post)) ==
            Chain(ExpandEach(pre, parts, post), StackExpansions(pending))
    ensures StackWork(pending + Pushed(pre, parts, post)) == StackWork(pending) + WorkEach(pre, parts, post)
  {
    if parts == [] {
      assert pending + [] == pending;
      assert StackExpansions(pending).Ok? ==> [] + StackExpansions(pending).value == StackExpansions(pending).value;
    } else {
      var below := pending + Pushed(pre, parts[1..], post);
      var stack := pending + Pushed(pre, parts, post);
      assert stack == below + [pre + parts[0] + post];
      assert stack[..|stack| - 1] == below;
      StackOfPushed(pending, pre, parts[1..], post);
      ChainAssociative(Expansions(pre + parts[0] + post), ExpandEach(pre, parts[1..], post), StackExpansions(pending));
    }
  }

  /** The number of candidates that processing `s` takes off the stack. */
  ghost function Work(s: string): nat
    decreases Opens(s), 0
  {
    match FirstGroup(s)
    case Ok(Group(a, b)) =>
      if Alternatives(s[a + 1..b]).Err? then 1
      else
        OpensOfGroup(s, a, b);
        1 + WorkEach(s[..a], Split(s[a + 1..b]), s[b + 1..])
    case _ => 1
  }

  ghost function WorkEach(pre: string, parts: seq<string>, post: string): nat
    decreases Opens(pre) + OpensIn(parts) + Opens(post), |parts| + 1
  {
    if parts == [] then 0 else
      OpensOfThree(pre, parts[0], post);
      Work(pre + parts[0] + post) + WorkEach(pre, parts[1..], post)
  }

  ghost function StackWork(pending: seq<string>): nat {
    if pending == [] then 0 else Work(pending[|pending| - 1]) + StackWork(pending[..|pending| - 1])
  }

  /** The worklist itself, against textual substitution: same list, same first error, and the limit
      is reached exactly when the full list is longer than it. */
  method ExpandPathPattern(pattern: string) returns (r: Result<seq<string>>)
    ensures r.Ok? <==> IsPattern(pattern) && Count(TreeOf(pattern)) <= 256
    ensures r.Ok? ==> r.value == Expand(TreeOf(pattern))
    ensures IsPattern(pattern) && Count(TreeOf(pattern)) > 256 ==> r == Err(TooMany)
    ensures r.Err? && r.error != TooMany ==> Expansions(pattern) == r
  {
    Reading(pattern);
    var pending: seq<string>, expanded: seq<string> := [pattern], [];
    StackOfOne(pattern);
    while pending != []
      invariant Chain(Ok(expanded), StackExpansions(pending)) == Expansions(pattern)
      invariant |pending| + |expanded| <= MAX_EXPANDED_PATTERNS
      decreases StackWork(pending)
    {
      var candidate, below := pending[|pending| - 1], pending[..|pending| - 1];
      var bounds := GroupBounds(candidate);
      if bounds.Err? {
        PopError(expanded, pending, bounds.error);
        return Err(bounds.error);
      }
      if bounds.value.NoGroup? {
        PopLiteral(expanded, pending);
        pending := below;
        expanded := expanded + [candidate];
        if |expanded| > MAX_EXPANDED_PATTERNS {
          assert false;  // the limit would be reported here, but the check below has always fired earlier
        }
        continue;
      }
      var start, end := bounds.value.start, bounds.value.end;
      var alternatives := GroupAlternatives(candidate[start + 1..end]);
      if alternatives.Err? {
        PopError(expanded, pending, alternatives.error);
        return Err(alternatives.error);
      }
      PopGroup(pending, start, end);
      pending := below;
      var candidates := Pushed(candidate[..start], alternatives.value, candidate[end + 1..]);
      if |pending| + |expanded| + |alternatives.value| > MAX_EXPANDED_PATTERNS {
        ManyLeft(expanded, below + candidates);
        return Err(TooMany);
      }
      pending := below + candidates;
    }
    return Ok(expanded);
  }

  lemma PopLiteral(expanded: seq<string>, pending: seq<string>)
    requires pending != [] && FirstGroup(pending[|pending| - 1]) == Ok(NoGroup)
    ensures var candidate, below := pending[|pending| - 1], pending[..|pending| - 1];
            && Chain(Ok(expanded), StackExpansions(pending)) ==
                Chain(Ok(expanded + [candidate]), StackExpansions(below))
            && StackWork(below) < StackWork(pending)
  {
    ChainAssociative(Ok(expanded), Ok([pending[|pending| - 1]]), StackExpansions(pending[..|pending| - 1]));
  }

  lemma PopError(expanded: seq<string>, pending: seq<string>, error: ExpansionError)
    requires pending != []
    requires match FirstGroup(pending[|pending| - 1])
             case Err(e) => e == error
             case Ok(NoGroup) => false
             case Ok(Group(a, b)) => Alternatives(pending[|pending| - 1][a + 1..b]) == Err(error)
    ensures Chain(Ok(expanded), StackExpansions(pending)) == Err(error)
  {
    assert Expansions(pending[|pending| - 1]) == Err(error);
  }

  lemma PopGroup(pending: seq<string>, a: nat, b: nat)
    requires pending != [] && FirstGroup(pending[|pending| - 1]) == Ok(Group(a, b))
    requires Alternatives(pending[|pending| - 1][a + 1..b]).Ok?
    ensures var candidate, below := pending[|pending| - 1], pending[..|pending| - 1];
            var stack := below + Pushed(candidate[..a], Split(candidate[a + 1..b]), candidate[b + 1..]);
            StackExpansions(stack) == StackExpansions(pending) && StackWork(stack) < StackWork(pending)
  {
    var candidate, below := pending[|pending| - 1], pending[..|pending| - 1];
    var parts := Split(candidate[a + 1..b]);
    ExpansionsAtGroup(candidate, a, b, candidate[..a], candidate[a + 1..b], candidate[b + 1..]);
    WorkAtGroup(candidate, a, b);
    StackOfPushed(below, candidate[..a], parts, candidate[b + 1..]);
  }

  lemma WorkAtGroup(s: string, a: nat, b: nat)
    requires FirstGroup(s) == Ok(Group(a, b)) && Alternatives(s[a + 1..b]).Ok?
    ensures Work(s) == 1 + WorkEach(s[..a], Split(s[a + 1..b]), s[b + 1..])
  {
  }

  lemma ManyLeft(expanded: seq<string>, pending: seq<string>)
    ensures var all := Chain(Ok(expanded), StackExpansions(pending)); all.Ok? ==> |all.value| >= |expanded| + |pending|
  {
  }

  lemma StackOfOne(pattern: string)
    ensures Chain(Ok([]), StackExpansions([pattern])) == Expansions(pattern)
  {
    assert [pattern][..0] == [];
    var e := Expansions(pattern);
    assert e.Ok? ==> [] + (e.value + []) == e.value;
  }

  lemma Reading(pattern: string)
    ensures IsPattern(pattern) <==> Expansions(pattern).Ok?
    ensures IsPattern(pattern) ==> Expansions(pattern) == Ok(Expand(TreeOf(pattern)))
    ensures IsPattern(pattern) ==> |Expand(TreeOf(pattern))| == Count(TreeOf(pattern))
  {
    ExpansionsMeaning(pattern);
    if IsPattern(pattern) {
      CountIsSize(TreeOf(pattern));
    }
  }
}
