/** The behaviour the repository's own test cases exercise, derived for
    the model: each lemma compiles the test's pattern against the base
    directory `/home/michael` and states what the rule answers for the
    test's paths, as the code computes it. */
module Scenarios {
  import opened Outcomes
  import opened Text
  import opened Paths
  import opened Glob
  import opened Semantics
  import opened Patterns
  import opened RuleSet

  const Home: PurePath := PurePath(Slash, ["home", "michael"])

  /** The path `/home/michael/` followed by `parts`. */
  function Under(parts: seq<Component>): PurePath {
    PurePath(Slash, Home.parts + parts)
  }

  lemma HomeIsBase(base: string)
    requires base == "/home/michael"
    ensures Str(Home) == base && IsAbsForm(base) && BasePath(base) == Home
  {
    HomeStr(base);
    StrIsAbsForm(Home);
  }

  lemma HomeStr(base: string)
    requires base == "/home/michael"
    ensures Str(Home) == base
  {
    assert Join(["home", "michael"]) == "home/michael";
  }

  /** Below the base, the searched text is the rest of the path. */
  lemma RelativeUnderHome(rule: IgnoreRule, parts: seq<Component>)
    requires rule.basePath == Some(Home)
    ensures Relative(rule, Under(parts)) == Some(PurePath(NoRoot, parts))
  {
    assert Under(parts).parts[..2] == Home.parts;
    assert Under(parts).parts[2..] == parts;
  }

  /** An unanchored rule hits when some suffix matches. */
  lemma HitAt(toks: seq<Token>, text: string, k: nat)
    requires k <= |text| && Matches(toks, text[k..])
    ensures Hits(toks, false, text)
  {
  }

  /** The unanchored `hello.` then `[^/]*` finds no suffix of a text too short
      or without `hello.` where the suffix would have to start. */
  lemma HelloMisses(text: string, h: string)
    requires h == "hello."
    requires |text| < 6 || (|text| == 6 && text != h)
    ensures !Hits(Lits(h) + [Star], false, text)
  {
    forall k | 0 <= k <= |text|
      ensures !Matches(Lits(h) + [Star], text[k..])
    {
      LitsThen(h, [Star], text[k..]);
      assert k == 0 ==> text[k..] == text;
    }
  }

  /** Lines 62-79 on `hello.*`: no flag set, and the glob untouched. */
  lemma HelloStarCompiles(line: string)
    requires line == "hello.*"
    ensures !IsBlank(line) && line[0] != '#' && !HasTripleStar(line)
    ensures DoubleStarsAccepted(line) && RStrip(line) == line
    ensures Derive(line) == Some(Shape(false, false, line))
  {
    assert line[0] == 'h';
    forall i | 0 <= i < |line|
      ensures !TripleStarAt(line, i)
    {
    }
    NoPairNoDoubleStar(line, 0);
    assert '/' !in line[..|line| - 1];
  }

  lemma HelloStarTokens(g: string)
    requires g == "hello.*"
    ensures Tokenize(g) == [Lit('h'), Lit('e'), Lit('l'), Lit('l'), Lit('o'), Lit('.'), Star]
  {
    assert TokensFrom(g, 7) == [];
    assert TokensFrom(g, 6) == [Star];
    assert TokensFrom(g, 5) == [Lit('.'), Star];
    assert TokensFrom(g, 4) == [Lit('o'), Lit('.'), Star];
    assert TokensFrom(g, 3) == [Lit('l'), Lit('o'), Lit('.'), Star];
    assert TokensFrom(g, 2) == [Lit('l'), Lit('l'), Lit('o'), Lit('.'), Star];
    assert TokensFrom(g, 1) == [Lit('e'), Lit('l'), Lit('l'), Lit('o'), Lit('.'), Star];
  }

  /** `hello.` escaped, then `[^/]*`. */
  const HelloToks: seq<Token> := [Lit('h'), Lit('e'), Lit('l'), Lit('l'), Lit('o'), Lit('.'), Star]

  lemma HelloToksSplit(h: string)
    requires h == "hello."
    ensures HelloToks == Lits(h) + [Star]
    ensures Compiles(HelloToks)
  {
  }

  /** The rule of the line `hello.*` read against `/home/michael`: no flag
      set, and the glob untouched. */
  lemma HelloStarRule(line: string, base: string)
    requires line == "hello.*" && base == "/home/michael"
    ensures RuleFromPattern(line, base, None) == Rule(HelloRule)
  {
    HomeIsBase(base);
    HelloStarCompiles(line);
    HelloStarTokens(line);
    RuleOfShape(line, base, None);
  }

  /** The `hello.*` rule hits a text that is `hello.` plus separator-free
      text from offset `k` on. */
  lemma HelloHit(rule: IgnoreRule, parts: seq<Component>, text: string, k: nat)
    requires rule.tokens == HelloToks && !rule.anchored && rule.basePath == Some(Home)
    requires Str(PurePath(NoRoot, parts)) == text
    requires k + 6 <= |text| && text[k..k + 6] == "hello." && '/' !in text[k + 6..]
    ensures MatchRule(rule, Under(parts)) == Ok(true)
  {
    var h := "hello.";
    HelloToksSplit(h);
    RelativeUnderHome(rule, parts);
    LitsThen(h, [Star], text[k..]);
    StarAlone(text[k + 6..]);
    assert text[k..][..6] == text[k..k + 6];
    assert text[k..][6..] == text[k + 6..];
    HitAt(HelloToks, text, k);
  }

  /** The `hello.*` rule misses a text with no room for `hello.` after it. */
  lemma HelloMiss(rule: IgnoreRule, parts: seq<Component>, text: string)
    requires rule.tokens == HelloToks && !rule.anchored && rule.basePath == Some(Home)
    requires Str(PurePath(NoRoot, parts)) == text
    requires |text| < 6 || (|text| == 6 && text != "hello.")
    ensures MatchRule(rule, Under(parts)) == Ok(false)
  {
    var h := "hello.";
    HelloToksSplit(h);
    RelativeUnderHome(rule, parts);
    HelloMisses(text, h);
  }

  /** The rule `hello.*` compiles to against `/home/michael`. */
  const HelloRule: IgnoreRule := IgnoreRule("hello.*", HelloToks, false, false, false, Some(Home), None)

  /** `hello.*` ignores `hello.txt` and `hello.` right below the base. */
  lemma WildcardHitsFile()
    ensures MatchRule(HelloRule, Under(["hello.txt"])) == Ok(true)
    ensures MatchRule(HelloRule, Under(["hello."])) == Ok(true)
  {
    assert "hello.txt"[0..6] == "hello.";
    HelloHit(HelloRule, ["hello.txt"], "hello.txt", 0);
    assert "hello."[0..6] == "hello.";
    HelloHit(HelloRule, ["hello."], "hello.", 0);
  }

  /** `hello.*` also ignores `dir/hello.txt`: an unanchored rule matches
      deeper down too. */
  lemma WildcardHitsNested()
    ensures MatchRule(HelloRule, Under(["dir", "hello.txt"])) == Ok(true)
  {
    var d := "dir/hello.txt";
    assert Join(["dir", "hello.txt"]) == d;
    assert d[4..10] == "hello." && d[10..] == "txt";
    HelloHit(HelloRule, ["dir", "hello.txt"], d, 4);
  }

  /** `hello.*` ignores neither `hello` nor `helloX`. */
  lemma WildcardMisses()
    ensures MatchRule(HelloRule, Under(["hello"])) == Ok(false)
    ensures MatchRule(HelloRule, Under(["helloX"])) == Ok(false)
  {
    HelloMiss(HelloRule, ["hello"], "hello");
    HelloMiss(HelloRule, ["helloX"], "helloX");
  }

  /** A character with no meaning to the translation or to the flag
      handling: neither a wildcard, a bracket nor a separator. */
  predicate Ordinary(c: char) {
    IsPlain(c) && c != '/'
  }

  /** A glob of ordinary characters translates to its escaped characters. */
  lemma {:induction false} OrdinaryTokens(g: string, i: nat)
    requires i <= |g|
    requires forall m :: i <= m < |g| ==> Ordinary(g[m])
    ensures TokensFrom(g, i) == Lits(g[i..])
    decreases |g| - i
  {
    if i < |g| {
      OrdinaryTokens(g, i + 1);
      assert Step(g, i) == ([Lit(g[i])], i + 1);
      assert g[i..][1..] == g[i + 1..];
      assert Lits(g[i..]) == [Lit(g[i])] + Lits(g[i + 1..]);
    } else {
      assert g[i..] == [];
    }
  }

  /** Without two asterisks in a row from `from` on, `finditer` reports
      nothing there. */
  lemma {:induction false} NoPairNoDoubleStar(p: string, from: nat)
    requires from <= |p|
    requires forall m :: from <= m < |p| ==> !IsDoubleStarAt(p, m)
    ensures DoubleStarMatches(p, from) == []
    decreases |p| - from
  {
    if from + 2 <= |p| {
      assert !IsDoubleStarAt(p, from);
      NoPairNoDoubleStar(p, from + 1);
    }
  }

  /** A non-empty run of ordinary characters passes lines 51-59 and
      leaves lines 62-74 untouched. */
  lemma OrdinaryPattern(p: string)
    requires p != [] && forall m :: 0 <= m < |p| ==> Ordinary(p[m])
    ensures DoubleStarsAccepted(p) && RStrip(p) != "/"
    ensures Derive(p) == Some(Shape(false, false, p))
    ensures Tokenize(p) == Lits(p)
  {
    NoPairNoDoubleStar(p, 0);
    RStripIsSlash(p);
    OrdinaryShape(p);
    OrdinaryTokens(p, 0);
    assert p[0..] == p;
  }

  /** A run of ordinary characters is neither directory-only nor anchored,
      and nothing is stripped from it. */
  lemma OrdinaryShape(p: string)
    requires p != [] && forall m :: 0 <= m < |p| ==> Ordinary(p[m])
    ensures Derive(p) == Some(Shape(false, false, p))
  {
    assert p[0] != '/' && p[0] != '*';
    assert p[|p| - 1] != '/';
    assert '/' !in p[..|p| - 1];
  }

  /** A line of one optional `!` and ordinary characters has no `***`. */
  lemma OrdinaryLineNoTripleStar(line: string)
    requires |line| > 0 && forall m :: 0 <= m < |line| ==> line[m] == '!' || Ordinary(line[m])
    ensures !HasTripleStar(line)
  {
  }

  /** A line whose pattern (after an optional `!`) is a non-empty run of
      ordinary characters compiles to an unanchored, not directory-only rule
      whose expression is those characters escaped. */
  lemma OrdinaryLine(line: string, base: string, source: Option<Source>)
    requires base == "" || IsAbsForm(base)
    requires !IsBlank(line) && line[0] != '#'
    requires Body(line) != [] && forall m :: 0 <= m < |Body(line)| ==> Ordinary(Body(line)[m])
    ensures RuleFromPattern(line, base, source) ==
            Rule(IgnoreRule(line, Lits(Body(line)), line[0] == '!', false, false,
                            if base == "" then None else Some(BasePath(base)), source))
  {
    var p := Body(line);
    var lo := if line[0] == '!' then 1 else 0;
    assert p == line[lo..];
    forall m | 0 <= m < |line|
      ensures line[m] == '!' || Ordinary(line[m])
    {
      if m >= lo {
        assert line[m] == p[m - lo];
      }
    }
    OrdinaryLineNoTripleStar(line);
    OrdinaryPattern(p);
    RuleOfShape(line, base, source);
  }

  /** `[^/]*` then escaped `cs` matches a text ending in `cs` with no
      separator before it. */
  lemma StarThenLits(cs: string, s: string, k: nat)
    requires k <= |s| && '/' !in s[..k] && s[k..] == cs
    ensures Matches([Star] + Lits(cs), s)
  {
    StarSplits(Lits(cs), s);
    LitsThen(cs, [], s[k..]);
    assert Lits(cs) + [] == Lits(cs);
    assert s[k..][..|cs|] == cs && s[k..][|cs|..] == [];
  }

  /** A `*` followed by a non-empty run of ordinary characters. */
  predicate StarOrdinary(p: string) {
    |p| >= 2 && p[0] == '*' && forall m :: 1 <= m < |p| ==> Ordinary(p[m])
  }

  /** Such a pattern passes lines 51-59. */
  lemma StarPatternAccepted(p: string)
    requires StarOrdinary(p)
    ensures DoubleStarsAccepted(p) && RStrip(p) != "/"
  {
    assert !IsDoubleStarAt(p, 0);
    NoPairNoDoubleStar(p, 0);
    RStripIsSlash(p);
  }

  /** It keeps its flags off and its glob whole. */
  lemma StarPatternShape(p: string)
    requires StarOrdinary(p)
    ensures Derive(p) == Some(Shape(false, false, p))
  {
    assert p[|p| - 1] != '/';
    assert '/' !in p[..|p| - 1];
    assert !LeadingDoubleStar(p) by {
      assert p[1] != '*' && p[..2][1] == p[1];
      assert |p| >= 3 ==> p[..3][0] == p[0];
    }
  }

  /** It translates to `[^/]*` then the escaped characters. */
  lemma StarPatternTokens(p: string)
    requires StarOrdinary(p)
    ensures Tokenize(p) == [Star] + Lits(p[1..])
  {
    OrdinaryTokens(p, 1);
    assert Step(p, 0) == ([Star], 1);
  }

  /** `.ignore` escaped. */
  const IgnoreToks: seq<Token> := [Lit('.'), Lit('i'), Lit('g'), Lit('n'), Lit('o'), Lit('r'), Lit('e')]

  /** `keep.ignore` escaped. */
  const KeepToks: seq<Token> := [Lit('k'), Lit('e'), Lit('e'), Lit('p')] + IgnoreToks

  lemma IgnoreToksAre(s: string)
    requires s == ".ignore"
    ensures Lits(s) == IgnoreToks
  {
  }

  lemma KeepToksAre(s: string)
    requires s == "keep.ignore"
    ensures Lits(s) == KeepToks
  {
  }

  /** Line 2 of the negation test's file, `*.ignore`, read against
      `/home/michael`. */
  function StarIgnoreRule(file: string): IgnoreRule {
    IgnoreRule("*.ignore", [Star] + IgnoreToks, false, false, false, Some(Home), Some(Source(file, 2)))
  }

  /** Line 3 of that file, `!keep.ignore`. */
  function KeepRule(file: string): IgnoreRule {
    IgnoreRule("!keep.ignore", KeepToks, true, false, false, Some(Home), Some(Source(file, 3)))
  }

  lemma StarIgnoreFacts(p: string)
    requires p == "*.ignore"
    ensures !IsBlank(p) && p[0] != '#' && !HasTripleStar(p)
    ensures StarOrdinary(p) && p[1..] == ".ignore"
  {
    assert p[0] == '*';
    forall i | 0 <= i < |p|
      ensures !TripleStarAt(p, i)
    {
    }
  }

  lemma StarIgnoreCompiles(file: string, line: string, base: string)
    requires line == "*.ignore" && base == "/home/michael"
    ensures RuleFromPattern(line, base, Some(Source(file, 2))) == Rule(StarIgnoreRule(file))
  {
    HomeIsBase(base);
    StarIgnoreFacts(line);
    StarPatternAccepted(line);
    StarPatternShape(line);
    StarPatternTokens(line);
    IgnoreToksAre(line[1..]);
    RuleOfShape(line, base, Some(Source(file, 2)));
  }

  lemma KeepFacts(line: string)
    requires line == "!keep.ignore"
    ensures |line| > 0 && !IsSpace(line[0]) && line[0] != '#' && line[0] == '!'
    ensures Body(line) == "keep.ignore"
    ensures forall m :: 0 <= m < |Body(line)| ==> Ordinary(Body(line)[m])
  {
    assert line[0] == '!';
  }

  lemma KeepCompiles(file: string, line: string, base: string)
    requires line == "!keep.ignore" && base == "/home/michael"
    ensures RuleFromPattern(line, base, Some(Source(file, 3))) == Rule(KeepRule(file))
  {
    HomeIsBase(base);
    KeepFacts(line);
    OrdinaryLine(line, base, Some(Source(file, 3)));
    KeepToksAre(Body(line));
  }

  /** A blank line gives no rule. */
  lemma BlankLineNoRule(line: string, base: string, source: Option<Source>)
    requires base == "" || IsAbsForm(base)
    requires IsBlank(line)
    ensures RuleFromPattern(line, base, source) == NoRule
  {
  }

  /** A compiling unanchored rule based at `/home/michael` hits a path
      below it whose relative text has a matching suffix. */
  lemma UnanchoredHit(rule: IgnoreRule, parts: seq<Component>, text: string, k: nat)
    requires !rule.anchored && rule.basePath == Some(Home) && Compiles(rule.tokens)
    requires Str(PurePath(NoRoot, parts)) == text
    requires k <= |text| && Matches(rule.tokens, text[k..])
    ensures MatchRule(rule, Under(parts)) == Ok(true)
  {
    RelativeUnderHome(rule, parts);
    HitAt(rule.tokens, text, k);
  }

  /** Escaped characters after a `[^/]*` always compile. */
  lemma StarLitsCompile(cs: string)
    ensures Compiles([Star] + Lits(cs))
  {
    var toks := [Star] + Lits(cs);
    assert forall k :: 1 <= k < |toks| ==> toks[k] == Lits(cs)[k - 1];
  }

  /** `*.ignore` ignores any `<name>.ignore` right below the base. */
  lemma StarIgnoreMatches(file: string, name: string)
    requires IsComponent(name + ".ignore")
    ensures MatchRule(StarIgnoreRule(file), Under([name + ".ignore"])) == Ok(true)
  {
    var suffix := ".ignore";
    var text := name + suffix;
    assert '/' !in text[..|name|] by {
      assert text[..|name|] == name;
    }
    assert text[|name|..] == suffix;
    StarThenLits(suffix, text, |name|);
    assert text[0..] == text;
    StarLitsCompile(suffix);
    IgnoreToksAre(suffix);
    assert Str(PurePath(NoRoot, [text])) == text;
    UnanchoredHit(StarIgnoreRule(file), [text], text, 0);
  }

  /** The two rules of the negation test, in file order, ignore every
      `<name>.ignore` right below the base, `keep.ignore` included: the
      earlier `*.ignore` already matches and `any` stops there, so the
      later `!keep.ignore` never re-includes anything. */
  lemma NegationFileIgnores(rules: seq<IgnoreRule>, file: string, name: string)
    requires rules == [StarIgnoreRule(file), KeepRule(file)]
    requires IsComponent(name + ".ignore")
    ensures AnyMatch(rules, Under([name + ".ignore"])) == Ok(true)
  {
    StarIgnoreMatches(file, name);
    FirstRuleDecides(rules, Under([name + ".ignore"]));
  }

  /** Lines 38-74 on `/hello.*`: the leading `/` anchors the rule and is
      stripped. */
  lemma AnchoredHelloFacts(line: string)
    requires line == "/hello.*"
    ensures !IsBlank(line) && line[0] != '#' && !HasTripleStar(line)
    ensures DoubleStarsAccepted(line) && RStrip(line) != "/"
    ensures Derive(line) == Some(Shape(false, true, line[1..]))
  {
    assert line[0] == '/' && !IsSpace(line[0]);
    forall i | 0 <= i < |line|
      ensures !TripleStarAt(line, i)
    {
    }
    NoPairNoDoubleStar(line, 0);
    RStripIsSlash(line);
    AnchoredHelloShape(line);
  }

  lemma AnchoredHelloShape(line: string)
    requires line == "/hello.*"
    ensures Derive(line) == Some(Shape(false, true, line[1..]))
  {
    assert line[1] != '/';
    assert '/' in line[..|line| - 1] by {
      assert line[..|line| - 1][0] == '/';
    }
    assert !LeadingDoubleStar(line) by {
      assert line[..2][1] == 'h' && line[..3][1] == 'h';
    }
    assert line[1..] == "hello.*";
  }

  /** The rule `/hello.*` compiles to against `/home/michael`. */
  const AnchoredHelloRule: IgnoreRule := IgnoreRule("/hello.*", HelloToks, false, false, true, Some(Home), None)

  lemma AnchoredHelloCompiles(line: string, base: string)
    requires line == "/hello.*" && base == "/home/michael"
    ensures RuleFromPattern(line, base, None) == Rule(AnchoredHelloRule)
  {
    HomeIsBase(base);
    AnchoredHelloFacts(line);
    HelloStarTokens(line[1..]);
    RuleOfShape(line, base, None);
  }

  /** Anchored, `/hello.*` ignores exactly the paths whose relative text
      starts with `hello.` and has no separator after it. */
  lemma AnchoredDecides(parts: seq<Component>, text: string)
    requires Str(PurePath(NoRoot, parts)) == text
    ensures MatchRule(AnchoredHelloRule, Under(parts)) ==
            Ok(|text| >= 6 && text[..6] == "hello." && '/' !in text[6..])
  {
    var h := "hello.";
    HelloToksSplit(h);
    RelativeUnderHome(AnchoredHelloRule, parts);
    LitsThen(h, [Star], text);
    if |text| >= 6 {
      StarAlone(text[6..]);
    }
  }

  /** Anchored, `/hello.*` still ignores `hello.txt` right below the base. */
  lemma AnchoredHits(path: PurePath)
    requires path == Under(["hello.txt"])
    ensures MatchRule(AnchoredHelloRule, path) == Ok(true)
  {
    var text := "hello.txt";
    assert Str(PurePath(NoRoot, ["hello.txt"])) == text;
    AnchoredDecides(["hello.txt"], text);
    assert text[..6] == "hello." && text[6..] == "txt";
  }

  /** Anchored, `/hello.*` does not ignore `a/hello.java`: the expression
      must match from the start of the relative path. */
  lemma AnchoredMisses(path: PurePath)
    requires path == Under(["a", "hello.java"])
    ensures MatchRule(AnchoredHelloRule, path) == Ok(false)
  {
    var text := "a/hello.java";
    assert Str(PurePath(NoRoot, ["a", "hello.java"])) == text by {
      assert Join(["a", "hello.java"]) == text;
    }
    AnchoredDecides(["a", "hello.java"], text);
    assert text[..6][0] == 'a';
  }

  /** Short lines on which `rule_from_pattern` raises `IndexError`
      instead of returning a rule or `None`: a lone `!`, a lone `*`, `/`
      then `*`, `**`, `**` then `/`, and `//`. */
  lemma CrashingLines(line: string)
    requires line == "!" || line == "*" || line == "/*" || line == "**" || line == "**/" || line == "//"
    ensures RuleFromPattern(line, "", None) == IndexError
  {
    var body := Body(line);
    assert !IsSpace(line[0]) && line[0] != '#';
    assert !HasTripleStar(line) by {
      forall i | 0 <= i < |line|
        ensures !TripleStarAt(line, i)
      {
      }
    }
    assert body in CrashForms && body != "/" by {
      if line == "!" {
        assert body == "";
      }
    }
    assert EveryDoubleStarAllowed(body) by {
      forall i | 0 <= i < |body| && IsDoubleStarAt(body, i)
        ensures DoubleStarAllowed(body, i)
      {
        assert i == 0;
      }
    }
    RuleFromPatternOutcomes(line, "", None);
  }
}
