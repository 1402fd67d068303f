/** The first and the comment test cases of the repository, derived for the
    model against the base directory `/home/michael`: a class in a glob, a
    directory-only pattern, and a line that starts with an escaped `#`. */
module SimpleScenarios {
  import opened Outcomes
  import opened Text
  import opened Paths
  import opened Glob
  import opened Semantics
  import opened Patterns
  import opened RuleSet
  import opened Scenarios

  /** `[cod]`. */
  const CodClass: Token := Class(false, [Single('c'), Single('o'), Single('d')])

  /** `*.py[cod]` translated: `[^/]*`, the escaped `.py`, then `[cod]`. */
  const PycToks: seq<Token> := [Star, Lit('.'), Lit('p'), Lit('y'), CodClass]

  predicate IsCod(c: char) {
    c == 'c' || c == 'o' || c == 'd'
  }

  /** A text ending in `.pyc`, `.pyo` or `.pyd`. */
  predicate EndsPyc(s: string) {
    |s| >= 4 && s[|s| - 4] == '.' && s[|s| - 3] == 'p' && s[|s| - 2] == 'y' && IsCod(s[|s| - 1])
  }

  lemma PycTokens(g: string)
    requires g == "*.py[cod]"
    ensures Tokenize(g) == PycToks
  {
    assert ClassScanStart(g, 5) == 5;
    assert CloseFrom(g, 8) == 8;
    assert CloseFrom(g, 7) == 8;
    assert CloseFrom(g, 6) == 8;
    assert CloseFrom(g, 5) == 8;
    assert g[5..8] == "cod";
    assert ParseItems("cod") == [Single('c')] + ParseItems("od");
    assert ParseItems("od") == [Single('o')] + ParseItems("d");
    assert ParseItems("d") == [Single('d')] + ParseItems([]);
    assert ClassToken(g[5..8]) == CodClass;
    assert Step(g, 4) == ([CodClass], 9);
    assert TokensFrom(g, 9) == [];
    assert TokensFrom(g, 4) == [CodClass];
    assert TokensFrom(g, 3) == [Lit('y'), CodClass];
    assert TokensFrom(g, 2) == [Lit('p'), Lit('y'), CodClass];
    assert TokensFrom(g, 1) == [Lit('.'), Lit('p'), Lit('y'), CodClass];
    assert Step(g, 0) == ([Star], 1);
  }

  lemma CodMembers(c: char)
    ensures InClass(false, CodClass.items, c) <==> IsCod(c)
  {
    var items := CodClass.items;
    if c == 'c' {
      assert ItemHas(items[0], c);
    } else if c == 'o' {
      assert ItemHas(items[1], c);
    } else if c == 'd' {
      assert ItemHas(items[2], c);
    }
  }

  /** The tail of `*.py[cod]` after the `[^/]*`: exactly four characters. */
  lemma PycTail(s: string, h: string)
    requires h == ".py"
    ensures Matches(Lits(h) + [CodClass], s) <==> |s| == 4 && EndsPyc(s)
  {
    LitsThen(h, [CodClass], s);
    if |s| >= 3 {
      ClassAlone(false, CodClass.items, s[3..]);
      if |s| == 4 {
        CodMembers(s[3]);
        assert s[3..][0] == s[3];
      }
    }
  }

  /** `*.py[cod]` matches exactly the texts that end in `.pyc`, `.pyo` or
      `.pyd` with no separator before that ending. */
  lemma PycMatches(s: string)
    ensures Matches(PycToks, s) <==> EndsPyc(s) && '/' !in s[..|s| - 4]
  {
    var h := ".py";
    if Matches(PycToks, s) {
      PycMatchesEnds(s, h);
    }
    if EndsPyc(s) && '/' !in s[..|s| - 4] {
      PycEndsMatch(s, h);
    }
  }

  lemma PycToksSplit(h: string)
    requires h == ".py"
    ensures PycToks == [Star] + (Lits(h) + [CodClass])
  {
    assert Lits(h) == [Lit('.'), Lit('p'), Lit('y')];
  }

  lemma PycMatchesEnds(s: string, h: string)
    requires h == ".py" && Matches(PycToks, s)
    ensures EndsPyc(s) && '/' !in s[..|s| - 4]
  {
    var rest := Lits(h) + [CodClass];
    PycToksSplit(h);
    StarSplits(rest, s);
    var k :| 0 <= k <= |s| && '/' !in s[..k] && Matches(rest, s[k..]);
    PycTail(s[k..], h);
    assert k == |s| - 4;
    assert s[k..][0] == s[|s| - 4] && s[k..][1] == s[|s| - 3];
    assert s[k..][2] == s[|s| - 2] && s[k..][3] == s[|s| - 1];
  }

  lemma PycEndsMatch(s: string, h: string)
    requires h == ".py" && EndsPyc(s) && '/' !in s[..|s| - 4]
    ensures Matches(PycToks, s)
  {
    var rest := Lits(h) + [CodClass];
    PycToksSplit(h);
    var k := |s| - 4;
    PycTail(s[k..], h);
    StarSplitsAt(rest, s, k);
  }

  /** Searched without anchor, `*.py[cod]` finds exactly the texts ending in
      `.pyc`, `.pyo` or `.pyd`. */
  lemma PycHits(text: string)
    ensures Hits(PycToks, false, text) <==> EndsPyc(text)
  {
    if Hits(PycToks, false, text) {
      var k :| 0 <= k <= |text| && Matches(PycToks, text[k..]);
      PycMatches(text[k..]);
      var t := text[k..];
      assert t[|t| - 4] == text[|text| - 4] && t[|t| - 3] == text[|text| - 3];
      assert t[|t| - 2] == text[|text| - 2] && t[|t| - 1] == text[|text| - 1];
    }
    if EndsPyc(text) {
      var k := |text| - 4;
      PycMatches(text[k..]);
      assert text[k..][..0] == [];
      HitAt(PycToks, text, k);
    }
  }

  /** Line 2 of the first test's file, `*.py[cod]`. */
  function PycRule(file: string): IgnoreRule {
    IgnoreRule("*.py[cod]", PycToks, false, false, false, Some(Home), Some(Source(file, 2)))
  }

  lemma PycLineFacts(line: string)
    requires line == "*.py[cod]"
    ensures !IsBlank(line) && line[0] != '#' && line[0] != '!' && !HasTripleStar(line)
    ensures DoubleStarsAccepted(line) && RStrip(line) != "/"
  {
    assert line[0] == '*' && !IsSpace(line[0]);
    forall i | 0 <= i < |line|
      ensures !TripleStarAt(line, i)
    {
    }
    NoPairNoDoubleStar(line, 0);
    RStripIsSlash(line);
  }

  lemma PycLineShape(line: string)
    requires line == "*.py[cod]"
    ensures Derive(line) == Some(Shape(false, false, line))
  {
    assert line[|line| - 1] == ']';
    assert '/' !in line[..|line| - 1];
    assert !LeadingDoubleStar(line) by {
      assert line[..2][1] == '.' && line[..3][1] == '.';
    }
  }

  lemma PycCompiles(file: string, line: string, base: string)
    requires line == "*.py[cod]" && base == "/home/michael"
    ensures RuleFromPattern(line, base, Some(Source(file, 2))) == Rule(PycRule(file))
  {
    HomeIsBase(base);
    PycLineFacts(line);
    PycLineShape(line);
    PycTokens(line);
    RuleOfShape(line, base, Some(Source(file, 2)));
  }

  /** The `*.py[cod]` rule ignores exactly the paths below the base whose
      relative text ends in `.pyc`, `.pyo` or `.pyd`, at any depth. */
  lemma PycDecides(file: string, parts: seq<Component>, text: string)
    requires Str(PurePath(NoRoot, parts)) == text
    ensures MatchRule(PycRule(file), Under(parts)) == Ok(EndsPyc(text))
  {
    RelativeUnderHome(PycRule(file), parts);
    PycHits(text);
    assert Compiles(PycToks) by {
      assert ClassCompiles(CodClass.items);
    }
  }

  /** A line that, after an optional `!`, is a non-empty run of ordinary
      characters and one `/`, compiles to a directory-only, unanchored rule
      whose expression is those characters escaped. */
  lemma OrdinaryDirLine(line: string, base: string, source: Option<Source>)
    requires base == "" || IsAbsForm(base)
    requires !IsBlank(line) && line[0] != '#'
    requires |Body(line)| >= 2 && Body(line)[|Body(line)| - 1] == '/'
    requires forall m :: 0 <= m < |Body(line)| - 1 ==> Ordinary(Body(line)[m])
    ensures var name := Body(line)[..|Body(line)| - 1];
            RuleFromPattern(line, base, source) ==
            Rule(IgnoreRule(line, Lits(name), line[0] == '!', true, false,
                            if base == "" then None else Some(BasePath(base)), source))
  {
    var p := Body(line);
    var name := p[..|p| - 1];
    assert !HasTripleStar(line);
    NoPairNoDoubleStar(p, 0);
    RStripIsSlash(p);
    OrdinaryDirShape(p);
    OrdinaryTokens(name, 0);
    assert name[0..] == name;
    RuleOfShape(line, base, source);
  }

  /** A run of ordinary characters and one `/`: directory-only, not
      anchored, and the `/` stripped. */
  lemma OrdinaryDirShape(p: string)
    requires |p| >= 2 && p[|p| - 1] == '/'
    requires forall m :: 0 <= m < |p| - 1 ==> Ordinary(p[m])
    ensures Derive(p) == Some(Shape(true, false, p[..|p| - 1]))
  {
    assert p[0] != '/' && p[0] != '*';
    assert '/' !in p[..|p| - 1];
    assert !LeadingDoubleStar(p) by {
      assert p[..2][0] == p[0];
      assert |p| >= 3 ==> p[..3][0] == p[0];
    }
  }

  /** `text` ends with `name`. */
  predicate EndsWith(text: string, name: string) {
    |name| <= |text| && text[|text| - |name|..] == name
  }

  /** A rule of escaped characters based at `/home/michael` ignores exactly
      the paths whose relative text ends with those characters: the search
      is unanchored but the expression ends at the end of the text. */
  lemma LitsRuleDecides(rule: IgnoreRule, parts: seq<Component>, text: string, name: string)
    requires rule.tokens == Lits(name) && !rule.anchored && rule.basePath == Some(Home)
    requires Str(PurePath(NoRoot, parts)) == text
    ensures MatchRule(rule, Under(parts)) == Ok(EndsWith(text, name))
  {
    RelativeUnderHome(rule, parts);
    if Hits(rule.tokens, false, text) {
      var k :| 0 <= k <= |text| && Matches(Lits(name), text[k..]);
      LitsExactly(name, text[k..]);
    }
    if EndsWith(text, name) {
      var k := |text| - |name|;
      LitsExactly(name, text[k..]);
      HitAt(rule.tokens, text, k);
    }
  }

  /** A relative path of one component prints as that component. */
  lemma OnePart(c: Component)
    ensures Str(PurePath(NoRoot, [c])) == c
  {
  }

  /** A relative path of two components prints with one `/` between them. */
  lemma TwoParts(c: Component, d: Component)
    ensures Str(PurePath(NoRoot, [c, d])) == c + "/" + d
  {
    assert Join([c, d]) == c + "/" + Join([d]);
  }

  /** Line 1 of the first test's file, `__pycache__/`, whose name is
      `name`. */
  function PycacheRule(file: string, name: string): IgnoreRule {
    IgnoreRule(name + "/", Lits(name), false, true, false, Some(Home), Some(Source(file, 1)))
  }

  lemma PycacheCompiles(file: string, name: string, base: string)
    requires name == "__pycache__" && base == "/home/michael"
    ensures RuleFromPattern(name + "/", base, Some(Source(file, 1))) == Rule(PycacheRule(file, name))
  {
    var line := name + "/";
    HomeIsBase(base);
    assert line[0] == '_' && !IsSpace(line[0]) && Body(line) == line;
    assert line[..|line| - 1] == name;
    OrdinaryDirLine(line, base, Some(Source(file, 1)));
  }

  /** Although directory-only, `__pycache__/` is tested like any rule: it
      ignores the entry `__pycache__` whether or not that is a directory. */
  lemma PycacheHit(file: string, name: Component)
    requires name == "__pycache__"
    ensures MatchRule(PycacheRule(file, name), Under([name])) == Ok(true)
  {
    OnePart(name);
    LitsRuleDecides(PycacheRule(file, name), [name], name, name);
    assert name[|name| - |name|..] == name;
  }

  /** The first test's file, in order: `main.py` is not ignored, `main.pyc`
      is, also one directory down. */
  lemma SimpleFile(rules: seq<IgnoreRule>, file: string, name: string,
                   py: Component, pyc: Component, dir: Component)
    requires name == "__pycache__" && py == "main.py" && pyc == "main.pyc" && dir == "dir"
    requires rules == [PycacheRule(file, name), PycRule(file)]
    ensures AnyMatch(rules, Under([py])) == Ok(false)
    ensures AnyMatch(rules, Under([pyc])) == Ok(true)
    ensures AnyMatch(rules, Under([dir, pyc])) == Ok(true)
  {
    SimpleMainPy(rules, file, name, py);
    SimpleTopPyc(rules, file, name, pyc);
    SimpleNestedPyc(rules, file, name, dir, pyc);
  }

  lemma SimpleTopPyc(rules: seq<IgnoreRule>, file: string, name: string, pyc: Component)
    requires name == "__pycache__" && pyc == "main.pyc"
    requires rules == [PycacheRule(file, name), PycRule(file)]
    ensures AnyMatch(rules, Under([pyc])) == Ok(true)
  {
    OnePart(pyc);
    assert EndsPyc(pyc) && !EndsWith(pyc, name);
    SimpleMainPyc(rules, file, name, [pyc], pyc);
  }

  lemma SimpleNestedPyc(rules: seq<IgnoreRule>, file: string, name: string,
                        dir: Component, pyc: Component)
    requires name == "__pycache__" && pyc == "main.pyc" && dir == "dir"
    requires rules == [PycacheRule(file, name), PycRule(file)]
    ensures AnyMatch(rules, Under([dir, pyc])) == Ok(true)
  {
    var text := dir + "/" + pyc;
    TwoParts(dir, pyc);
    assert EndsPyc(pyc) && |text| == 12;
    assert text[|text| - 4..] == pyc[|pyc| - 4..];
    assert text[|text| - |name|..][0] == 'i';
    SimpleMainPyc(rules, file, name, [dir, pyc], text);
  }

  lemma SimpleMainPy(rules: seq<IgnoreRule>, file: string, name: string, py: Component)
    requires name == "__pycache__" && py == "main.py"
    requires rules == [PycacheRule(file, name), PycRule(file)]
    ensures AnyMatch(rules, Under([py])) == Ok(false)
  {
    var path := Under([py]);
    OnePart(py);
    LitsRuleDecides(rules[0], [py], py, name);
    PycDecides(file, [py], py);
    assert !IsCod(py[|py| - 1]);
    var outcomes := RuleOutcomes(rules, path);
    assert outcomes[0] == Ok(false) && outcomes[1] == Ok(false);
  }

  lemma SimpleMainPyc(rules: seq<IgnoreRule>, file: string, name: string,
                      parts: seq<Component>, text: string)
    requires name == "__pycache__" && rules == [PycacheRule(file, name), PycRule(file)]
    requires Str(PurePath(NoRoot, parts)) == text && EndsPyc(text) && !EndsWith(text, name)
    ensures AnyMatch(rules, Under(parts)) == Ok(true)
  {
    var path := Under(parts);
    LitsRuleDecides(rules[0], parts, text, name);
    PycDecides(file, parts, text);
    var outcomes := RuleOutcomes(rules, path);
    assert outcomes[0] == Ok(false) && outcomes[1] == Ok(true);
  }

  /** The comment test's last line, `\#imnocomment`: the backslash is an
      ordinary character, so the rule is that text escaped. */
  lemma EscapedHashCompiles(line: string, base: string)
    requires line == "\\#imnocomment" && base == "/home/michael"
    ensures RuleFromPattern(line, base, None) ==
            Rule(IgnoreRule(line, Lits(line), false, false, false, Some(Home), None))
  {
    HomeIsBase(base);
    assert line[0] == '\\' && !IsSpace(line[0]) && Body(line) == line;
    OrdinaryLine(line, base, None);
  }

  /** As written, that rule does not ignore `#imnocomment`: the backslash
      is never unescaped and the entry's name is one character short. The
      repository's test expects it to be ignored. */
  lemma EscapedHashMisses(rule: IgnoreRule, line: string, name: Component)
    requires line == "\\#imnocomment" && name == "#imnocomment"
    requires rule == IgnoreRule(line, Lits(line), false, false, false, Some(Home), None)
    ensures MatchRule(rule, Under([name])) == Ok(false)
  {
    OnePart(name);
    LitsRuleDecides(rule, [name], name, line);
  }

  /** A comment line gives no rule. */
  lemma CommentNoRule(line: string, base: string)
    requires line == "#realcomment" && base == "/home/michael"
    ensures RuleFromPattern(line, base, None) == NoRule
  {
    HomeIsBase(base);
  }

  /** The filters a lone `?` passes. */
  lemma QuestionMarkFacts(line: string)
    requires line == "?"
    ensures !IsBlank(line) && line[0] != '#' && line[0] != '!' && !HasTripleStar(line)
    ensures DoubleStarsAccepted(line) && RStrip(line) != "/"
  {
    assert !IsSpace(line[0]);
    NoPairNoDoubleStar(line, 0);
    RStripIsSlash(line);
  }

  lemma QuestionMarkShape(line: string)
    requires line == "?"
    ensures Derive(line) == Some(Shape(false, false, line))
    ensures Tokenize(line) == [AnyChar]
  {
    assert '/' !in line[..0];
    assert !LeadingDoubleStar(line);
    assert TokensFrom(line, 1) == [];
  }

  /** The line `?`: an unanchored rule of one non-separator character. */
  lemma QuestionMarkRule(line: string, base: string)
    requires line == "?" && base == "/home/michael"
    ensures RuleFromPattern(line, base, None) ==
            Rule(IgnoreRule(line, [AnyChar], false, false, false, Some(Home), None))
  {
    HomeIsBase(base);
    QuestionMarkFacts(line);
    QuestionMarkShape(line);
    RuleOfShape(line, base, None);
  }

  /** Because the base directory is relative to itself as `.`, the rule of
      `?` ignores the base directory itself. */
  lemma QuestionMarkIgnoresBase(line: string, base: string)
    requires line == "?" && base == "/home/michael"
    ensures RuleFromPattern(line, base, None).Rule?
    ensures MatchRule(RuleFromPattern(line, base, None).rule, Home) == Ok(true)
  {
    QuestionMarkRule(line, base);
    var rule := RuleFromPattern(line, base, None).rule;
    BaseItselfIsDot(rule);
    var dot := ".";
    assert Matches([AnyChar], dot) by {
      assert [AnyChar][1..] == [];
      assert dot[1..] == [];
    }
    assert dot[0..] == dot;
    HitAt(rule.tokens, dot, 0);
  }
}
