/**
 * The rule-code grammar of a product and the selectors that pick rules by prefix. A code is a
 * namespace, one upper-case family letter and three digits; a selector may stop anywhere
 * after its first character.
 */
module RuleSelectors {
  import opened Options

  const SUFFIX_LENGTH := 4

  predicate IsUpper(c: char) {
    'A' <= c <= 'Z'
  }

  predicate IsDigit(c: char) {
    '0' <= c <= '9'
  }

  predicate AllUpper(s: string) {
    forall c <- s :: IsUpper(c)
  }

  predicate AllDigits(s: string) {
    forall c <- s :: IsDigit(c)
  }

  datatype Grammar = Grammar(builtIn: string, custom: string)

  predicate NamespaceIsValid(namespace: string) {
    namespace != "" && AllUpper(namespace)
  }

  /** Two different upper-case namespaces, the custom one beginning with X. */
  predicate Valid(grammar: Grammar) {
    && NamespaceIsValid(grammar.builtIn) && NamespaceIsValid(grammar.custom)
    && grammar.custom[0] == 'X' && grammar.builtIn != grammar.custom
  }

  function NewGrammar(builtIn: string, custom: string): Option<Grammar> {
    if Valid(Grammar(builtIn, custom)) then Some(Grammar(builtIn, custom)) else None
  }

  predicate CodeHasNamespace(value: string, namespace: string) {
    && namespace <= value
    && var suffix := value[|namespace|..];
       |suffix| == SUFFIX_LENGTH && IsUpper(suffix[0]) && AllDigits(suffix[1..])
  }

  predicate SelectorHasNamespace(value: string, namespace: string) {
    || value <= namespace
    || (namespace <= value
        && var suffix := value[|namespace|..];
           suffix != "" && |suffix| <= SUFFIX_LENGTH && IsUpper(suffix[0]) && AllDigits(suffix[1..]))
  }

  predicate CodeIsExact(grammar: Grammar, value: string) {
    CodeHasNamespace(value, grammar.builtIn) || CodeHasNamespace(value, grammar.custom)
  }

  predicate SelectorIsValid(grammar: Grammar, value: string) {
    value != "" && (SelectorHasNamespace(value, grammar.builtIn) || SelectorHasNamespace(value, grammar.custom))
  }

  predicate CodeMatchesSelector(grammar: Grammar, code: string, selector: string) {
    CodeIsExact(grammar, code) && SelectorIsValid(grammar, selector) && selector <= code
  }

  // ---------- Selectors are prefixes ----------

  /** The least code a selector of a namespace begins. */
  function Completed(value: string, namespace: string): (code: string)
    requires SelectorHasNamespace(value, namespace)
    ensures CodeHasNamespace(code, namespace) && value <= code
  {
    if |value| <= |namespace| then
      var code := namespace + "A000";
      assert code[|namespace|..] == "A000";
      code
    else
      var suffix := value[|namespace|..];
      var filled := suffix + "000"[..SUFFIX_LENGTH - |suffix|];
      var code := namespace + filled;
      assert code[|namespace|..] == filled;
      assert filled[1..] == suffix[1..] + "000"[..SUFFIX_LENGTH - |suffix|];
      assert value == namespace + suffix;
      code
  }

  lemma PrefixOfCode(value: string, code: string, namespace: string)
    requires CodeHasNamespace(code, namespace) && value <= code
    ensures SelectorHasNamespace(value, namespace)
  {
    if |value| > |namespace| {
      assert namespace == code[..|namespace|] == value[..|namespace|];
      var suffix, whole := value[|namespace|..], code[|namespace|..];
      assert suffix == whole[..|suffix|];
      assert suffix[1..] == whole[1..][..|suffix| - 1];
    } else {
      assert value == code[..|value|] == namespace[..|value|];
    }
  }

  /** A selector is valid exactly when it is a non-empty beginning of some exact code. */
  lemma SelectorsArePrefixes(grammar: Grammar, value: string)
    ensures SelectorIsValid(grammar, value) <==>
              value != "" && exists code :: CodeIsExact(grammar, code) && value <= code
  {
    if SelectorIsValid(grammar, value) {
      var namespace := if SelectorHasNamespace(value, grammar.builtIn) then grammar.builtIn else grammar.custom;
      var code := Completed(value, namespace);
      assert CodeIsExact(grammar, code);
    }
    forall code | CodeIsExact(grammar, code) && value <= code && value != "" ensures SelectorIsValid(grammar, value) {
      PrefixOfCode(value, code, if CodeHasNamespace(code, grammar.builtIn) then grammar.builtIn else grammar.custom);
    }
  }

  lemma NamespaceOfCode(code: string, namespace: string)
    requires CodeHasNamespace(code, namespace)
    ensures |code| >= SUFFIX_LENGTH && namespace == code[..|code| - SUFFIX_LENGTH]
  {
  }

  lemma UpperMeaning(c: char)
    ensures IsUpper(c) <==> c in "ABCDEFGHIJKLMNOPQRSTUVWXYZ"
  {
    var letters := "ABCDEFGHIJKLMNOPQRSTUVWXYZ";
    if IsUpper(c) {
      assert letters[c as int - 65] == c;
    }
  }

  lemma DigitMeaning(c: char)
    ensures IsDigit(c) <==> c in "0123456789"
  {
    var digits := "0123456789";
    if IsDigit(c) {
      assert digits[c as int - 48] == c;
    }
  }

  /** One upper-case letter and three digits behind the namespace. */
  ghost predicate IsCodeOf(value: string, namespace: string) {
    exists letter, a, b, c ::
      && value == namespace + [letter, a, b, c]
      && letter in "ABCDEFGHIJKLMNOPQRSTUVWXYZ" && a in "0123456789" && b in "0123456789" && c in "0123456789"
  }

  lemma CodeOfNamespace(value: string, namespace: string)
    ensures CodeHasNamespace(value, namespace) <==> IsCodeOf(value, namespace)
  {
    if CodeHasNamespace(value, namespace) {
      var s := value[|namespace|..];
      assert value == namespace + [s[0], s[1], s[2], s[3]];
      assert s[1..][0] in s[1..] && s[1..][1] in s[1..] && s[1..][2] in s[1..];
      UpperMeaning(s[0]);
      DigitMeaning(s[1]);
      DigitMeaning(s[2]);
      DigitMeaning(s[3]);
    }
    if letter, a, b, c :| value == namespace + [letter, a, b, c] && letter in "ABCDEFGHIJKLMNOPQRSTUVWXYZ"
                          && a in "0123456789" && b in "0123456789" && c in "0123456789"
    {
      assert value[|namespace|..] == [letter, a, b, c] && [letter, a, b, c][1..] == [a, b, c];
      UpperMeaning(letter);
      DigitMeaning(a);
      DigitMeaning(b);
      DigitMeaning(c);
    }
  }

  /** The exact codes of a grammar, and what a selector picks from them: the codes it begins. */
  lemma SelectionMeaning(grammar: Grammar, code: string, selector: string)
    ensures CodeIsExact(grammar, code) <==> IsCodeOf(code, grammar.builtIn) || IsCodeOf(code, grammar.custom)
    ensures CodeMatchesSelector(grammar, code, selector) <==>
            && (IsCodeOf(code, grammar.builtIn) || IsCodeOf(code, grammar.custom))
            && selector != "" && selector <= code
  {
    CodeOfNamespace(code, grammar.builtIn);
    CodeOfNamespace(code, grammar.custom);
    SelectorsArePrefixes(grammar, selector);
  }

  /** A grammar is made of two different upper-case namespaces, the custom one with an X in front. */
  lemma GrammarMeaning(builtIn: string, custom: string, grammar: Grammar)
    ensures NewGrammar(builtIn, custom) == Some(grammar) <==>
            && grammar.builtIn == builtIn && grammar.custom == custom && builtIn != custom
            && builtIn != "" && (forall c <- builtIn :: c in "ABCDEFGHIJKLMNOPQRSTUVWXYZ")
            && "X" <= custom && (forall c <- custom :: c in "ABCDEFGHIJKLMNOPQRSTUVWXYZ")
  {
    forall c ensures IsUpper(c) <==> c in "ABCDEFGHIJKLMNOPQRSTUVWXYZ" {
      UpperMeaning(c);
    }
  }

  /** In a grammar that is made no code belongs to both namespaces, even when one begins the other. */
  lemma NamespacesAreDisjoint(builtIn: string, custom: string, grammar: Grammar, code: string)
    requires NewGrammar(builtIn, custom) == Some(grammar)
    ensures !(CodeHasNamespace(code, grammar.builtIn) && CodeHasNamespace(code, grammar.custom))
  {
    if CodeHasNamespace(code, grammar.builtIn) {
      NamespaceOfCode(code, grammar.builtIn);
    }
    if CodeHasNamespace(code, grammar.custom) {
      NamespaceOfCode(code, grammar.custom);
    }
  }

  // ---------- Selections ----------

  ghost predicate SelectsWithin(grammar: Grammar, inner: string, outer: string) {
    forall code | CodeMatchesSelector(grammar, code, inner) :: CodeMatchesSelector(grammar, code, outer)
  }

  ghost predicate SelectsApart(grammar: Grammar, s: string, t: string) {
    forall code | CodeMatchesSelector(grammar, code, s) :: !CodeMatchesSelector(grammar, code, t)
  }

  /**
   * Two selectors pick nested sets of codes exactly when one begins the other, and otherwise disjoint
   * sets. Every selector picks some code, so only one of the two happens.
   */
  lemma SelectionsNestOrAreDisjoint(grammar: Grammar, s: string, t: string)
    requires SelectorIsValid(grammar, s) && SelectorIsValid(grammar, t)
    ensures t <= s ==> SelectsWithin(grammar, s, t)
    ensures s <= t ==> SelectsWithin(grammar, t, s)
    ensures !(s <= t) && !(t <= s) <==> SelectsApart(grammar, s, t)
  {
    SelectorsArePrefixes(grammar, s);
    SelectorsArePrefixes(grammar, t);
    if SelectsApart(grammar, s, t) && (s <= t || t <= s) {
      var longer := if s <= t then t else s;
      var code :| CodeIsExact(grammar, code) && longer <= code;
      assert CodeMatchesSelector(grammar, code, s) && CodeMatchesSelector(grammar, code, t);
    }
    forall code | CodeMatchesSelector(grammar, code, s) && CodeMatchesSelector(grammar, code, t)
      ensures s <= t || t <= s
    {
      assert s == code[..|s|] && t == code[..|t|];
    }
  }
}
