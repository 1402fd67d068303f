/** `IgnoreRule.match`, the `any` over the rules that the matcher returned
    by `parse_gitignore` evaluates, and `parse_gitignore` itself over the
    lines of an ignore file. */
module RuleSet {
  import opened Outcomes
  import opened Paths
  import opened Glob
  import opened Semantics
  import opened Patterns

  /** The exceptions `match` can raise: `relative_to`'s `ValueError` for a
      path outside the rule's base, and the `re.error` Python raises when it
      first compiles an expression with a reversed class range. */
  datatype MatchError = NotUnderBase | BadCharacterRange

  /** The path the expression is searched in: relative to the rule's base
      when it has one, otherwise the path itself; `None` where
      `relative_to` raises. */
  function Relative(rule: IgnoreRule, path: PurePath): Option<PurePath> {
    match rule.basePath
    case None => Some(path)
    case Some(base) => RelativeTo(path, base)
  }

  /** What the search reports, read directly: an anchored expression must
      match the whole text, an unanchored one some suffix of it, starting
      at any character. */
  predicate Hits(toks: seq<Token>, anchored: bool, text: string) {
    if anchored then Matches(toks, text)
    else exists k :: 0 <= k <= |text| && Matches(toks, text[k..])
  }

  /** `rule.match(path)`. The `negation` and `directory_only` flags play no
      part. */
  function MatchRule(rule: IgnoreRule, path: PurePath): (r: Result<bool, MatchError>)
    ensures r == Err(NotUnderBase) <==>
              rule.basePath.Some? &&
              forall q: PurePath :: q.root == NoRoot ==> Joined(rule.basePath.value, q) != path
    ensures r == Err(BadCharacterRange) <==> Relative(rule, path).Some? && !Compiles(rule.tokens)
    ensures r.Ok? ==> (r.value <==> Hits(rule.tokens, rule.anchored, Str(Relative(rule, path).value)))
  {
    match Relative(rule, path)
    case None => Err(NotUnderBase)
    case Some(q) =>
      var text := DropDotSlash(Str(q));
      StrNeverStartsWithDotSlash(q);
      if !Compiles(rule.tokens) then Err(BadCharacterRange)
      else
        SearchSuffix(rule.tokens, text);
        Ok(if rule.anchored then Matches(rule.tokens, text) else Search(rule.tokens, text))
  }

  /** Python's `any` over a lazily produced sequence of outcomes, an
      exception being an `Err`: the first outcome that is not `False`
      decides, and what follows it is never produced. */
  function Any<E>(outcomes: seq<Result<bool, E>>): (r: Result<bool, E>)
    ensures r == Ok(false) <==> forall i :: 0 <= i < |outcomes| ==> outcomes[i] == Ok(false)
    ensures r != Ok(false) ==>
              exists i :: 0 <= i < |outcomes| && r == outcomes[i] &&
                forall j :: 0 <= j < i ==> outcomes[j] == Ok(false)
    decreases |outcomes|
  {
    if outcomes == [] then Ok(false)
    else if outcomes[0] == Ok(false) then
      var rest := Any(outcomes[1..]);
      assert forall i :: 1 <= i < |outcomes| ==> outcomes[1..][i - 1] == outcomes[i];
      assert rest != Ok(false) ==>
               exists i :: 1 <= i < |outcomes| && rest == outcomes[i] &&
                 forall j :: 0 <= j < i ==> outcomes[j] == Ok(false)
      by {
        if rest != Ok(false) {
          var i :| 0 <= i < |outcomes[1..]| && rest == outcomes[1..][i] &&
            forall j :: 0 <= j < i ==> outcomes[1..][j] == Ok(false);
          assert rest == outcomes[i + 1];
        }
      }
      rest
    else
      outcomes[0]
  }

  /** The outcome of every rule on `path`, in rule order. */
  function RuleOutcomes(rules: seq<IgnoreRule>, path: PurePath): (r: seq<Result<bool, MatchError>>)
    ensures |r| == |rules|
    ensures forall i :: 0 <= i < |rules| ==> r[i] == MatchRule(rules[i], path)
  {
    seq(|rules|, i requires 0 <= i < |rules| => MatchRule(rules[i], path))
  }

  /** The matcher `parse_gitignore` returns: `any(r.match(path) for r in
      rules)`. It is `False` iff every rule answers `False`; otherwise the
      first rule that does not answer `False` decides, with its `True` or
      its error. */
  function AnyMatch(rules: seq<IgnoreRule>, path: PurePath): (r: Result<bool, MatchError>)
    ensures r == Ok(false) <==> forall i :: 0 <= i < |rules| ==> MatchRule(rules[i], path) == Ok(false)
    ensures r != Ok(false) ==>
              exists i :: 0 <= i < |rules| && r == MatchRule(rules[i], path) &&
                forall j :: 0 <= j < i ==> MatchRule(rules[j], path) == Ok(false)
  {
    var o := RuleOutcomes(rules, path);
    assert forall i :: 0 <= i < |rules| ==> o[i] == MatchRule(rules[i], path);
    Any(o)
  }

  /** With no outcome an error, `any` is whether some outcome is `True`. */
  lemma AnyWithoutErrors<E>(outcomes: seq<Result<bool, E>>)
    requires forall i :: 0 <= i < |outcomes| ==> outcomes[i].Ok?
    ensures Any(outcomes) == Ok(exists i :: 0 <= i < |outcomes| && outcomes[i] == Ok(true))
  {
    if exists i :: 0 <= i < |outcomes| && outcomes[i] == Ok(true) {
      var i :| 0 <= i < |outcomes| && outcomes[i] == Ok(true);
      assert outcomes[i] != Ok(false);
      assert Any(outcomes) != Ok(false);
      var d :| 0 <= d < |outcomes| && Any(outcomes) == outcomes[d] &&
        forall j :: 0 <= j < d ==> outcomes[j] == Ok(false);
      assert outcomes[d] != Ok(false);
      assert outcomes[d].value == true;
    } else {
      forall i | 0 <= i < |outcomes|
        ensures outcomes[i] == Ok(false)
      {
        assert outcomes[i] != Ok(true);
        assert outcomes[i].value == false;
      }
    }
  }

  /** A first rule that matches decides, whatever follows it. */
  lemma FirstRuleDecides(rules: seq<IgnoreRule>, path: PurePath)
    requires rules != [] && MatchRule(rules[0], path) == Ok(true)
    ensures AnyMatch(rules, path) == Ok(true)
  {
    var o := RuleOutcomes(rules, path);
    assert o[0] == Ok(true);
    var i :| 0 <= i < |o| && Any(o) == o[i] && forall j :: 0 <= j < i ==> o[j] == Ok(false);
    assert i == 0;
  }

  /** The order of the rules does not matter while no rule raises: a
      later `!` rule cannot override an earlier match. */
  lemma AnyMatchPermutation(a: seq<IgnoreRule>, b: seq<IgnoreRule>, path: PurePath)
    requires multiset(a) == multiset(b)
    requires forall i :: 0 <= i < |a| ==> MatchRule(a[i], path).Ok?
    ensures AnyMatch(a, path) == AnyMatch(b, path)
  {
    var oa, ob := RuleOutcomes(a, path), RuleOutcomes(b, path);
    forall j | 0 <= j < |b|
      ensures ob[j].Ok?
    {
      assert b[j] in multiset(a);
      var i :| 0 <= i < |a| && a[i] == b[j];
    }
    AnyWithoutErrors(oa);
    AnyWithoutErrors(ob);
    if i :| 0 <= i < |a| && oa[i] == Ok(true) {
      assert a[i] in multiset(b);
      var j :| 0 <= j < |b| && b[j] == a[i];
      assert ob[j] == Ok(true);
    }
    if j :| 0 <= j < |b| && ob[j] == Ok(true) {
      assert b[j] in multiset(a);
      var i :| 0 <= i < |a| && a[i] == b[j];
      assert oa[i] == Ok(true);
    }
  }

  /** Two rules that match alike: the same expression, anchoring and base;
      the pattern text, the flags and the source may differ. */
  predicate SameMatcher(x: IgnoreRule, y: IgnoreRule) {
    x.tokens == y.tokens && x.anchored == y.anchored && x.basePath == y.basePath
  }

  /** Flipping `negation` or `directory_only` on any rules changes no
      outcome of the matcher. */
  lemma AnyMatchIgnoresFlags(a: seq<IgnoreRule>, b: seq<IgnoreRule>, path: PurePath)
    requires |a| == |b|
    requires forall i :: 0 <= i < |a| ==> SameMatcher(a[i], b[i])
    ensures AnyMatch(a, path) == AnyMatch(b, path)
  {
    var oa, ob := RuleOutcomes(a, path), RuleOutcomes(b, path);
    forall i | 0 <= i < |a|
      ensures oa[i] == ob[i]
    {
      SameMatcherMatches(a[i], b[i], path);
    }
    assert oa == ob;
  }

  lemma SameMatcherMatches(x: IgnoreRule, y: IgnoreRule, path: PurePath)
    requires SameMatcher(x, y)
    ensures MatchRule(x, path) == MatchRule(y, path)
  {
  }

  /** When the rules share a base, a path outside it makes the matcher
      raise, whatever the patterns are. */
  lemma OutsideBaseRaises(rules: seq<IgnoreRule>, base: PurePath, path: PurePath)
    requires rules != []
    requires forall i :: 0 <= i < |rules| ==> rules[i].basePath == Some(base)
    requires RelativeTo(path, base).None?
    ensures AnyMatch(rules, path) == Err(NotUnderBase)
  {
    var o := RuleOutcomes(rules, path);
    assert o[0] == Err(NotUnderBase);
    assert o[0] != Ok(false);
    var i :| 0 <= i < |o| && Any(o) == o[i] && forall j :: 0 <= j < i ==> o[j] == Ok(false);
    assert o[i] == Err(NotUnderBase);
  }

  /** The base directory itself is relative to itself as `.`, so a rule
      is tested against the one-character text `.` there. */
  lemma BaseItselfIsDot(rule: IgnoreRule)
    requires rule.basePath.Some? && Compiles(rule.tokens)
    ensures MatchRule(rule, rule.basePath.value) == Ok(Hits(rule.tokens, rule.anchored, "."))
  {
    var base := rule.basePath.value;
    assert base.parts[..|base.parts|] == base.parts;
    assert base.parts[|base.parts|..] == [];
  }

  /** `rule_from_pattern` on every line of a file, with the file name and
      the 1-based line number as the source. */
  function CompileLines(lines: seq<string>, base: string, file: string): (cs: seq<Compiled>)
    ensures |cs| == |lines|
    ensures forall i :: 0 <= i < |lines| ==> cs[i] == RuleFromPattern(lines[i], base, Some(Source(file, i + 1)))
  {
    seq(|lines|, i requires 0 <= i < |lines| => RuleFromPattern(lines[i], base, Some(Source(file, i + 1))))
  }

  /** The 1-based line number a rule was read from (0 without a source). */
  function LineOf(rule: IgnoreRule): int {
    if rule.source.Some? then rule.source.value.line else 0
  }

  /** Every rule in `cs` carries its own position, counted from 1. */
  predicate Numbered(cs: seq<Compiled>) {
    forall i :: 0 <= i < |cs| && cs[i].Rule? ==> LineOf(cs[i].rule) == i + 1
  }

  /** The compiled lines of a file are tagged with the file and their line
      number, and every rule they hold has the base the file was read
      against. */
  lemma CompileLinesTagged(lines: seq<string>, base: PurePath, file: string)
    requires base.root != NoRoot
    requires forall i :: 0 <= i < |base.parts| ==> base.parts[i] != ".."
    ensures var cs := CompileLines(lines, Str(base), file);
            && Numbered(cs)
            && (forall i :: 0 <= i < |cs| ==> !cs[i].BaseNotAbsolute?)
            && (forall i :: 0 <= i < |cs| && cs[i].Rule? ==>
                  cs[i].rule.source == Some(Source(file, i + 1)) && cs[i].rule.basePath == Some(base))
  {
    StrIsAbsForm(base);
  }

  /** The rules of `cs[k..]`, in order. Each is the rule of the line its
      number names. */
  function Kept(cs: seq<Compiled>, k: nat): (r: seq<IgnoreRule>)
    requires k <= |cs| && Numbered(cs)
    ensures forall j :: 0 <= j < |r| ==> k < LineOf(r[j]) <= |cs| && cs[LineOf(r[j]) - 1] == Rule(r[j])
    decreases |cs| - k
  {
    if k == |cs| then []
    else if cs[k].Rule? then [cs[k].rule] + Kept(cs, k + 1)
    else Kept(cs, k + 1)
  }

  /** Rules listed in strictly increasing line order. */
  predicate InFileOrder(rules: seq<IgnoreRule>) {
    forall j1, j2 :: 0 <= j1 < j2 < |rules| ==> LineOf(rules[j1]) < LineOf(rules[j2])
  }

  /** The kept rules come in strictly increasing line order. */
  lemma {:induction false} KeptInFileOrder(cs: seq<Compiled>, k: nat)
    requires k <= |cs| && Numbered(cs)
    ensures InFileOrder(Kept(cs, k))
    decreases |cs| - k
  {
    if k < |cs| {
      KeptInFileOrder(cs, k + 1);
      var rest := Kept(cs, k + 1);
      if cs[k].Rule? {
        var r := Kept(cs, k);
        assert r == [cs[k].rule] + rest;
        forall j1, j2 | 0 <= j1 < j2 < |r|
          ensures LineOf(r[j1]) < LineOf(r[j2])
        {
          assert r[j2] == rest[j2 - 1];
          assert k + 1 < LineOf(rest[j2 - 1]);
          if j1 > 0 {
            assert r[j1] == rest[j1 - 1];
            assert LineOf(rest[j1 - 1]) < LineOf(rest[j2 - 1]);
          } else {
            assert LineOf(r[0]) == k + 1;
          }
        }
      } else {
        assert Kept(cs, k) == rest;
      }
    }
  }

  /** No line that compiles to a rule is dropped. */
  lemma {:induction false} KeptComplete(cs: seq<Compiled>, k: nat)
    requires k <= |cs| && Numbered(cs)
    ensures forall i :: k <= i < |cs| && cs[i].Rule? ==> cs[i].rule in Kept(cs, k)
    decreases |cs| - k
  {
    if k < |cs| {
      KeptComplete(cs, k + 1);
    }
  }

  /** The exceptions `parse_gitignore` lets through, tagged with the
      1-based number of the line that raised: the `IndexError` some short
      patterns raise, and the `ValueError` for a base that is not absolute. */
  datatype ParseError = IndexErrorAt(line: int) | BaseNotAbsoluteAt(line: int)

  /** `rule_from_pattern` raised on this line. */
  predicate Raises(c: Compiled) {
    c.IndexError? || c.BaseNotAbsolute?
  }

  /** The loop of `parse_gitignore` over the compiled lines: the first line
      that raises aborts it with that exception, otherwise the rules are
      collected in order. */
  method CollectRules(cs: seq<Compiled>) returns (res: Result<seq<IgnoreRule>, ParseError>)
    requires Numbered(cs)
    ensures res.Err? <==> exists i :: 0 <= i < |cs| && Raises(cs[i])
    ensures res.Err? ==>
              && 1 <= res.error.line <= |cs|
              && Raises(cs[res.error.line - 1])
              && (res.error.IndexErrorAt? <==> cs[res.error.line - 1].IndexError?)
              && forall i :: 0 <= i < res.error.line - 1 ==> !Raises(cs[i])
    ensures res.Ok? ==> res.value == Kept(cs, 0)
  {
    var rules: seq<IgnoreRule> := [];
    var i := 0;
    while i < |cs|
      invariant 0 <= i <= |cs|
      invariant forall m :: 0 <= m < i ==> !Raises(cs[m])
      invariant rules + Kept(cs, i) == Kept(cs, 0)
    {
      var c := cs[i];
      if c.IndexError? {
        return Err(IndexErrorAt(i + 1));
      }
      if c.BaseNotAbsolute? {
        return Err(BaseNotAbsoluteAt(i + 1));
      }
      if c.Rule? {
        assert Kept(cs, i) == [c.rule] + Kept(cs, i + 1);
        rules := rules + [c.rule];
      }
      i := i + 1;
    }
    assert rules + [] == rules;
    return Ok(rules);
  }

  /** `parse_gitignore` over the lines of the file, with the base directory
      given as the absolute path `abspath(base_dir)` yields. The first line
      that raises `IndexError` aborts the parse; otherwise the result is the
      rules of all lines in order, each with that base and tagged with its
      file and line. */
  method ParseGitignore(lines: seq<string>, file: string, base: PurePath)
    returns (res: Result<seq<IgnoreRule>, ParseError>)
    requires base.root != NoRoot
    requires forall i :: 0 <= i < |base.parts| ==> base.parts[i] != ".."
    ensures var cs := CompileLines(lines, Str(base), file);
            && (res.Err? <==> exists i :: 0 <= i < |cs| && cs[i].IndexError?)
            && (res.Err? ==> 1 <= res.error.line <= |cs| && res.error.IndexErrorAt? && cs[res.error.line - 1].IndexError?)
            && (res.Ok? ==> Numbered(cs) && res.value == Kept(cs, 0))
    ensures res.Ok? ==> forall j :: 0 <= j < |res.value| ==>
              && res.value[j].basePath == Some(base)
              && res.value[j].source == Some(Source(file, LineOf(res.value[j])))
              && 1 <= LineOf(res.value[j]) <= |lines|
              && RuleFromPattern(lines[LineOf(res.value[j]) - 1], Str(base), res.value[j].source)
                 == Rule(res.value[j])
  {
    var cs := CompileLines(lines, Str(base), file);
    CompileLinesTagged(lines, base, file);
    res := CollectRules(cs);
    KeptTraced(lines, Str(base), base, file, cs);
  }

  /** Each kept rule of a file carries the base and its own file and line,
      and is what that line compiles to. */
  lemma KeptTraced(lines: seq<string>, b: string, base: PurePath, file: string, cs: seq<Compiled>)
    requires cs == CompileLines(lines, b, file) && Numbered(cs)
    requires forall i :: 0 <= i < |cs| && cs[i].Rule? ==>
               cs[i].rule.source == Some(Source(file, i + 1)) && cs[i].rule.basePath == Some(base)
    ensures var rules := Kept(cs, 0);
            forall j :: 0 <= j < |rules| ==>
              && rules[j].basePath == Some(base)
              && rules[j].source == Some(Source(file, LineOf(rules[j])))
              && 1 <= LineOf(rules[j]) <= |lines|
              && RuleFromPattern(lines[LineOf(rules[j]) - 1], b, rules[j].source) == Rule(rules[j])
  {
    var rules := Kept(cs, 0);
    forall j | 0 <= j < |rules|
      ensures rules[j].basePath == Some(base)
      ensures rules[j].source == Some(Source(file, LineOf(rules[j])))
      ensures 1 <= LineOf(rules[j]) <= |lines|
      ensures RuleFromPattern(lines[LineOf(rules[j]) - 1], b, rules[j].source) == Rule(rules[j])
    {
      var n := LineOf(rules[j]);
      assert cs[n - 1] == Rule(rules[j]);
      assert cs[n - 1].rule.source == Some(Source(file, n));
      assert cs[n - 1] == RuleFromPattern(lines[n - 1], b, Some(Source(file, n)));
    }
  }
}
