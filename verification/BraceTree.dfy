/** The nested-group parse trees of brace patterns: the reference meaning of a pattern. */
module BraceTree {
  import opened BraceExpansion
  import opened BraceSemantics

  datatype Pattern =
    | End
    | Chr(c: char, rest: Pattern)
    | Grp(choices: Choices, rest: Pattern)

  datatype Choices =
    | One(last: Pattern)
    | More(first: Pattern, others: Choices)

  /** Braces only delimit groups, commas directly inside a group only separate its choices, and a
      group has at least two choices, none of them empty. */
  predicate WellFormed(p: Pattern, inGroup: bool) {
    match p
    case End => true
    case Chr(c, rest) => c != '{' && c != '}' && (inGroup ==> c != ',') && WellFormed(rest, inGroup)
    case Grp(choices, rest) => choices.More? && WellFormedChoices(choices) && WellFormed(rest, inGroup)
  }

  predicate WellFormedChoices(choices: Choices) {
    match choices
    case One(p) => p != End && WellFormed(p, true)
    case More(p, others) => p != End && WellFormed(p, true) && WellFormedChoices(others)
  }

  function Text(p: Pattern): string {
    match p
    case End => ""
    case Chr(c, rest) => [c] + Text(rest)
    case Grp(choices, rest) => "{" + ChoicesText(choices) + "}" + Text(rest)
  }

  function ChoicesText(choices: Choices): string {
    match choices
    case One(p) => Text(p)
    case More(p, others) => Text(p) + "," + ChoicesText(others)
  }

  /** The ordered product: the leftmost group varies slowest. */
  function Expand(p: Pattern): seq<string> {
    match p
    case End => [""]
    case Chr(c, rest) => Product([[c]], Expand(rest))
    case Grp(choices, rest) => Product(ExpandChoices(choices), Expand(rest))
  }

  function ExpandChoices(choices: Choices): seq<string> {
    match choices
    case One(p) => Expand(p)
    case More(p, others) => Expand(p) + ExpandChoices(others)
  }

  /** The number of expansions, by arithmetic alone. */
  function Count(p: Pattern): nat {
    match p
    case End => 1
    case Chr(_, rest) => Count(rest)
    case Grp(choices, rest) => CountChoices(choices) * Count(rest)
  }

  function CountChoices(choices: Choices): nat {
    match choices
    case One(p) => Count(p)
    case More(p, others) => Count(p) + CountChoices(others)
  }

  lemma {:induction false} CountIsSize(p: Pattern)
    ensures |Expand(p)| == Count(p)
  {
    match p
    case End =>
    case Chr(c, rest) =>
      CountIsSize(rest);
      ProductSize([[c]], Expand(rest));
    case Grp(choices, rest) =>
      CountChoicesIsSize(choices);
      CountIsSize(rest);
      ProductSize(ExpandChoices(choices), Expand(rest));
  }

  lemma {:induction false} CountChoicesIsSize(choices: Choices)
    ensures |ExpandChoices(choices)| == CountChoices(choices)
  {
    match choices
    case One(p) => CountIsSize(p);
    case More(p, others) =>
      CountIsSize(p);
      CountChoicesIsSize(others);
  }

  // ---------------------------------------------------------------------------------------------
  // Texts of trees
  // ---------------------------------------------------------------------------------------------

  lemma SingleDepth(c: char)
    ensures Depth([c]) == Weight(c)
  {
    assert [c][..0] == "";
  }

  /** Wrapping a balanced text in braces keeps it balanced. */
  lemma WrappedBalanced(t: string)
    requires Balanced(t)
    ensures Balanced("{" + t + "}")
    ensures forall k | 1 <= k <= |t| + 1 :: Depth(("{" + t + "}")[..k]) >= 1
  {
    var w := "{" + t + "}";
    SingleDepth('{');
    SingleDepth('}');
    OpensOfThree("{", t, "}");
    forall k | 1 <= k <= |t| + 1 ensures Depth(w[..k]) >= 1 {
      assert w[..k] == "{" + t[..k - 1];
      DepthConcat("{", t[..k - 1]);
    }
    assert w[..|w|] == w;
  }

  lemma {:induction false} TextBalanced(p: Pattern, inGroup: bool)
    requires WellFormed(p, inGroup)
    ensures Balanced(Text(p)) && (inGroup ==> NoTopComma(Text(p)))
  {
    match p
    case End =>
    case Chr(c, rest) =>
      TextBalanced(rest, inGroup);
      BracelessDepth([c]);
      BalancedConcat([c], Text(rest));
      if inGroup { NoCommaConcat([c], Text(rest)); }
    case Grp(choices, rest) =>
      TextBalanced(rest, inGroup);
      ChoicesBalanced(choices);
      var group := "{" + ChoicesText(choices) + "}";
      WrappedBalanced(ChoicesText(choices));
      BalancedConcat(group, Text(rest));
      if inGroup {
        forall i: nat ensures !TopComma(group, i) {
        }
        NoCommaConcat(group, Text(rest));
      }
  }

  lemma {:induction false} ChoicesBalanced(choices: Choices)
    requires WellFormedChoices(choices)
    ensures Balanced(ChoicesText(choices))
  {
    match choices
    case One(p) => TextBalanced(p, true);
    case More(p, others) =>
      TextBalanced(p, true);
      ChoicesBalanced(others);
      BracelessDepth(",");
      BalancedConcat(Text(p), ",");
      BalancedConcat(Text(p) + ",", ChoicesText(others));
  }

  lemma NoCommaConcat(u: string, v: string)
    requires Balanced(u)
    ensures NoTopComma(u) && NoTopComma(v) ==> NoTopComma(u + v)
    ensures NoTopComma(u + v) ==> NoTopComma(v)
  {
    forall i: nat
      ensures TopComma(u + v, i) ==> if i < |u| then TopComma(u, i) else TopComma(v, i - |u|)
    {
      if i < |u| {
        assert (u + v)[..i] == u[..i];
      } else if i < |u + v| {
        assert (u + v)[..i] == u + v[..i - |u|];
        DepthConcat(u, v[..i - |u|]);
      }
    }
    forall i: nat | TopComma(v, i) ensures TopComma(u + v, |u| + i) {
      assert (u + v)[..|u| + i] == u + v[..i];
      DepthConcat(u, v[..i]);
    }
  }

  function ChoiceTexts(choices: Choices): (r: seq<string>)
    ensures r != []
  {
    match choices
    case One(p) => [Text(p)]
    case More(p, others) => [Text(p)] + ChoiceTexts(others)
  }

  lemma {:induction false} SplitOfChoices(choices: Choices)
    requires WellFormedChoices(choices)
    ensures Split(ChoicesText(choices)) == ChoiceTexts(choices)
    ensures [] !in ChoiceTexts(choices)
    ensures forall part | part in ChoiceTexts(choices) :: Balanced(part) && NoTopComma(part)
  {
    match choices
    case One(p) =>
      TextBalanced(p, true);
      SplitWhole(Text(p));
    case More(p, others) =>
      TextBalanced(p, true);
      SplitOfChoices(others);
      var t := ChoicesText(choices);
      var i := |Text(p)|;
      assert t[..i] == Text(p);
      assert FirstTopComma(t, i);
      SplitAt(t, i);
      assert t[i + 1..] == ChoicesText(others);
  }

  lemma GroupOfText(choices: Choices, rest: Pattern)
    requires WellFormedChoices(choices) && choices.More?
    ensures var t := Text(Grp(choices, rest)); var b := |ChoicesText(choices)| + 1;
            && IsGroup(t, 0, b) && t[..0] == "" && t[1..b] == ChoicesText(choices) && t[b + 1..] == Text(rest)
    ensures Alternatives(ChoicesText(choices)) == Ok(ChoiceTexts(choices))
  {
    ChoicesBalanced(choices);
    SplitOfChoices(choices);
    var t, b := Text(Grp(choices, rest)), |ChoicesText(choices)| + 1;
    assert t[1..b] == ChoicesText(choices);
    assert FirstBrace(t, 0);
  }

  // ---------------------------------------------------------------------------------------------
  // Textual substitution computes the product, and only on texts of trees
  // ---------------------------------------------------------------------------------------------

  /** Outermost-first substitution on the text of a tree yields the tree's ordered product. */
  lemma {:induction false} ExpansionsOfTree(p: Pattern, inGroup: bool)
    requires WellFormed(p, inGroup)
    ensures Expansions(Text(p)) == Ok(Expand(p))
  {
    match p
    case End =>
      ExpansionsBraceless("");
    case Chr(c, rest) =>
      ExpansionsOfTree(rest, inGroup);
      CharacterExpansions(c, Text(rest));
    case Grp(choices, rest) =>
      ExpansionsOfTree(rest, inGroup);
      GroupOfText(choices, rest);
      ExpansionsAtGroup(Text(p), 0, |ChoicesText(choices)| + 1, "", ChoicesText(choices), Text(rest));
      ExpandChoiceTexts(choices, rest);
  }

  lemma CharacterExpansions(c: char, t: string)
    requires c != '{' && c != '}' && Expansions(t).Ok?
    ensures Expansions([c] + t) == Ok(Product([[c]], Expansions(t).value))
  {
    ExpansionsBraceless([c]);
    BracelessDepth([c]);
    ProductLaw([c], t);
  }

  lemma {:induction false} ExpandChoiceTexts(choices: Choices, rest: Pattern)
    requires WellFormedChoices(choices)
    requires Expansions(Text(rest)) == Ok(Expand(rest))
    ensures ExpandEach("", ChoiceTexts(choices), Text(rest)) == Ok(Product(ExpandChoices(choices), Expand(rest)))
    decreases choices
  {
    match choices
    case One(p) =>
      ExpandFirstChoice(p, rest);
      assert ChoiceTexts(choices)[1..] == [];
      assert Product(Expand(p), Expand(rest)) + [] == Product(Expand(p), Expand(rest));
    case More(p, others) =>
      ExpandFirstChoice(p, rest);
      ExpandChoiceTexts(others, rest);
      assert ChoiceTexts(choices)[1..] == ChoiceTexts(others);
      ProductSplit(Expand(p), ExpandChoices(others), Expand(rest));
  }

  lemma {:induction false} ExpandFirstChoice(p: Pattern, rest: Pattern)
    requires WellFormed(p, true)
    requires Expansions(Text(rest)) == Ok(Expand(rest))
    ensures Expansions("" + Text(p) + Text(rest)) == Ok(Product(Expand(p), Expand(rest)))
    decreases p
  {
    ExpansionsOfTree(p, true);
    TextBalanced(p, true);
    ProductLaw(Text(p), Text(rest));
    assert "" + Text(p) + Text(rest) == Text(p) + Text(rest);
  }

  /** A text that expands without error is the text of a tree. */
  lemma {:induction false} ParseTree(s: string) returns (p: Pattern)
    requires Expansions(s).Ok?
    ensures WellFormed(p, false) && Text(p) == s
    ensures NoTopComma(s) ==> WellFormed(p, true)
    decreases |s|, 0
  {
    if s == "" {
      p := End;
    } else if s[0] != '{' && s[0] != '}' {
      FirstCharacter(s);
      p := ParseTree(s[1..]);
      p := Chr(s[0], p);
    } else {
      var b := GroupAtStart(s);
      GroupExpands(s, b);
      SplitMeaning(s[1..b]);
      AfterGroup(s, b);
      var choices := ParseChoices(Split(s[1..b]), s[b + 1..]);
      var rest := ParseTree(s[b + 1..]);
      JoinOfChoices(choices);
      p := Grp(choices, rest);
    }
  }

  lemma FirstCharacter(s: string)
    requires s != "" && s[0] != '{' && s[0] != '}' && Expansions(s).Ok?
    ensures s == [s[0]] + s[1..]
    ensures Expansions(s[1..]).Ok?
    ensures NoTopComma(s) ==> NoTopComma(s[1..]) && s[0] != ','
  {
    var c, tail := s[0], s[1..];
    assert s == [c] + tail;
    BracelessDepth([c]);
    ProductLaw([c], tail);
    NoCommaConcat([c], tail);
    assert s[..0] == "";
    assert c == ',' ==> TopComma(s, 0);
  }

  lemma GroupAtStart(s: string) returns (b: nat)
    requires s != "" && (s[0] == '{' || s[0] == '}') && FirstGroup(s).Ok?
    ensures IsGroup(s, 0, b)
  {
    assert FirstBrace(s, 0);
    assert !Braceless(s);
    b := FirstGroup(s).value.end;
    FirstBraceUnique(s, 0, FirstGroup(s).value.start);
  }

  lemma GroupExpands(s: string, b: nat)
    requires IsGroup(s, 0, b) && Expansions(s).Ok?
    ensures Alternatives(s[1..b]).Ok? && ExpandEach("", Split(s[1..b]), s[b + 1..]).Ok?
  {
    ExpansionsAtGroup(s, 0, b, "", s[1..b], s[b + 1..]);
  }

  lemma AfterGroup(s: string, b: nat)
    requires IsGroup(s, 0, b)
    ensures s == "{" + s[1..b] + "}" + s[b + 1..]
    ensures NoTopComma(s) ==> NoTopComma(s[b + 1..])
  {
    var group := "{" + s[1..b] + "}";
    assert s == group + s[b + 1..];
    WrappedBalanced(s[1..b]);
    NoCommaConcat(group, s[b + 1..]);
  }

  lemma {:induction false} ParseChoices(parts: seq<string>, post: string) returns (choices: Choices)
    requires parts != [] && [] !in parts && ExpandEach("", parts, post).Ok?
    requires forall part | part in parts :: Balanced(part) && NoTopComma(part)
    ensures WellFormedChoices(choices) && ChoiceTexts(choices) == parts
    ensures Expansions(post).Ok?
    decreases |Join(parts)| + |post| + 1, |parts|
  {
    assert "" + parts[0] + post == parts[0] + post;
    ProductLaw(parts[0], post);
    var p := ParseTree(parts[0]);
    assert parts[0] in parts;
    if |parts| == 1 {
      choices := One(p);
    } else {
      var others := ParseChoices(parts[1..], post);
      choices := More(p, others);
    }
  }

  lemma {:induction false} JoinOfChoices(choices: Choices)
    ensures Join(ChoiceTexts(choices)) == ChoicesText(choices)
  {
    match choices
    case One(p) =>
    case More(p, others) =>
      JoinOfChoices(others);
      assert ChoiceTexts(choices)[1..] == ChoiceTexts(others);
  }

  /** The pattern has a parse tree. */
  ghost predicate IsPattern(s: string) {
    exists p :: WellFormed(p, false) && Text(p) == s
  }

  ghost function TreeOf(s: string): (p: Pattern)
    requires IsPattern(s)
    ensures WellFormed(p, false) && Text(p) == s
  {
    var p :| WellFormed(p, false) && Text(p) == s;
    p
  }

  /** Substitution succeeds exactly on patterns, and any tree of the text gives the same product. */
  lemma ExpansionsMeaning(s: string)
    ensures Expansions(s).Ok? <==> IsPattern(s)
    ensures forall p | WellFormed(p, false) && Text(p) == s :: Expansions(s) == Ok(Expand(p))
  {
    forall p | WellFormed(p, false) && Text(p) == s ensures Expansions(s) == Ok(Expand(p)) {
      ExpansionsOfTree(p, false);
    }
    if Expansions(s).Ok? {
      var p := ParseTree(s);
    }
  }

  /** Patterns have at most one parse tree reading: equal texts have equal expansions. */
  lemma EqualTextsExpandEqually(p: Pattern, q: Pattern)
    requires WellFormed(p, false) && WellFormed(q, false) && Text(p) == Text(q)
    ensures Expand(p) == Expand(q) && Count(p) == Count(q)
  {
    ExpansionsOfTree(p, false);
    ExpansionsOfTree(q, false);
    CountIsSize(p);
    CountIsSize(q);
  }

  lemma {:induction false} ProductBraceless(xs: seq<string>, ys: seq<string>)
    requires forall x | x in xs :: Braceless(x)
    requires forall y | y in ys :: Braceless(y)
    ensures forall z | z in Product(xs, ys) :: Braceless(z)
  {
    if xs != [] {
      ProductBraceless(xs[1..], ys);
      forall z | z in Prefixed(xs[0], ys) ensures Braceless(z) {
        var j :| 0 <= j < |ys| && z == Prefixed(xs[0], ys)[j];
        assert ys[j] in ys && xs[0] in xs;
      }
    }
  }

  lemma {:induction false} ExpandBraceless(p: Pattern, inGroup: bool)
    requires WellFormed(p, inGroup)
    ensures forall z | z in Expand(p) :: Braceless(z)
  {
    match p
    case End =>
    case Chr(c, rest) =>
      ExpandBraceless(rest, inGroup);
      ProductBraceless([[c]], Expand(rest));
    case Grp(choices, rest) =>
      ChoicesBraceless(choices);
      ExpandBraceless(rest, inGroup);
      ProductBraceless(ExpandChoices(choices), Expand(rest));
  }

  lemma {:induction false} ChoicesBraceless(choices: Choices)
    requires WellFormedChoices(choices)
    ensures forall z | z in ExpandChoices(choices) :: Braceless(z)
  {
    match choices
    case One(p) => ExpandBraceless(p, true);
    case More(p, others) =>
      ExpandBraceless(p, true);
      ChoicesBraceless(others);
  }
}
