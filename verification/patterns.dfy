/** `rule_from_pattern`: one line of an ignore file becomes no rule, an
    `IgnoreRule`, or one of the two exceptions the function can raise. */
module Patterns {
  import opened Text
  import opened Outcomes
  import opened Paths
  import opened Glob

  /** The `(file, line number)` tag carried for diagnostics only. */
  datatype Source = Source(file: string, line: int)

  /** The rule record. `tokens` is the translated expression; `anchored`
      says whether it is prefixed with `^`. */
  datatype IgnoreRule = IgnoreRule(
    pattern: string,
    tokens: seq<Token>,
    negation: bool,
    directoryOnly: bool,
    anchored: bool,
    basePath: Option<PurePath>,
    source: Option<Source>)

  /** What one call of `rule_from_pattern` produces: the `ValueError` for a
      base that is not absolute, `None`, the `IndexError` some short patterns
      raise, or a rule. */
  datatype Compiled = BaseNotAbsolute | NoRule | IndexError | Rule(rule: IgnoreRule)

  /** The line with one leading `!` removed. */
  function Body(line: string): string {
    if |line| > 0 && line[0] == '!' then line[1..] else line
  }

  predicate IsDoubleStarAt(p: string, i: int) {
    0 <= i && i + 1 < |p| && p[i] == '*' && p[i + 1] == '*'
  }

  /** The starts of the matches `re.finditer(r'\*\*', p)` reports from index
      `from` on: scanning left to right, a match resumes the scan after its
      second asterisk, so matches never overlap. */
  function DoubleStarMatches(p: string, from: nat): (r: seq<nat>)
    requires from <= |p|
    ensures forall k :: 0 <= k < |r| ==> from <= r[k] && IsDoubleStarAt(p, r[k])
    decreases |p| - from
  {
    if from + 2 > |p| then []
    else if p[from] == '*' && p[from + 1] == '*' then [from] + DoubleStarMatches(p, from + 2)
    else DoubleStarMatches(p, from + 1)
  }

  /** Without `***`, `finditer` reports every `**`: none hides inside
      another. */
  lemma {:induction false} DoubleStarMatchesFindAll(p: string, from: nat)
    requires from <= |p|
    requires !HasTripleStar(p)
    requires from == 0 || !IsDoubleStarAt(p, from - 1)
    ensures forall i :: i in DoubleStarMatches(p, from) <==> from <= i && IsDoubleStarAt(p, i)
    decreases |p| - from
  {
    if from + 2 <= |p| {
      if p[from] == '*' && p[from + 1] == '*' {
        assert !TripleStarAt(p, from);
        DoubleStarMatchesFindAll(p, from + 2);
      } else {
        DoubleStarMatchesFindAll(p, from + 1);
      }
    }
  }

  /** The test on one `**` found at `start`: it may begin the pattern, end
      it, or sit between two slashes. */
  predicate DoubleStarAllowed(p: string, start: nat)
    requires IsDoubleStarAt(p, start)
  {
    || start == 0
    || start == |p| - 2
    || (p[start - 1] == '/' && p[start + 2] == '/')
  }

  /** The loop over `finditer` finds no disallowed `**`. */
  predicate DoubleStarsAccepted(p: string) {
    var found := DoubleStarMatches(p, 0);
    forall k :: 0 <= k < |found| ==> DoubleStarAllowed(p, found[k])
  }

  /** Every `**` in `p`, wherever it is, is allowed. */
  predicate EveryDoubleStarAllowed(p: string) {
    forall i :: 0 <= i < |p| && IsDoubleStarAt(p, i) ==> DoubleStarAllowed(p, i)
  }

  /** The flags and the glob left after the strips of lines 62-74. */
  datatype Shape = Shape(directoryOnly: bool, anchored: bool, glob: string)

  /** The inputs on which lines 62-74 index past the end of the pattern. */
  const CrashForms: set<string> := {"", "/", "*", "/*", "**", "/**", "**/", "/**/", "//"}

  /** The prefixes lines 66-72 may strip: a `/`, a `**`, a `/`, each optional. */
  const LeadForms: set<string> := {"", "/", "**", "/**", "//", "**/", "/**/"}

  /** A leading `**`, possibly after one leading `/`. */
  predicate LeadingDoubleStar(p: string) {
    (|p| >= 2 && p[..2] == "**") || (|p| >= 3 && p[..3] == "/**")
  }

  /** Lines 62-74 on their own: the flags, then the strips; `None` where an
      index runs past the end and Python raises `IndexError`. */
  function Derive(p: string): (r: Option<Shape>)
    ensures r.None? <==> p in CrashForms
    ensures r.Some? ==> (r.value.directoryOnly <==> p[|p| - 1] == '/')
    ensures r.Some? ==> (r.value.anchored <==> '/' in p[..|p| - 1] && !LeadingDoubleStar(p))
    ensures r.Some? ==> exists lead, trail :: StripsMost(p, lead, r.value.glob, trail)
  {
    if p == [] then None
    else
      var directoryOnly := p[|p| - 1] == '/';
      var slashAnchored := '/' in p[..|p| - 1];
      var p1 := if p[0] == '/' then p[1..] else p;
      if p1 == [] then
        assert p == [p[0]] + p1 == "/";
        None
      else if p1[0] == '*' && |p1| == 1 then
        assert p == p1 || p == "/" + p1;
        assert p1 == "*";
        assert p == "*" || p == "/*";
        None
      else
        var doubleStar := p1[0] == '*' && p1[1] == '*';
        assert doubleStar <==> LeadingDoubleStar(p);
        var p2 := if doubleStar then p1[2..] else p1;
        if p2 == [] then
          assert p1 == p1[..2] == "**";
          assert p == p1 || p == "/" + p1;
          assert p == "**" || p == "/**";
          None
        else
          var p3 := if p2[0] == '/' then p2[1..] else p2;
          if p3 == [] then
            assert p2 == "/";
            assert p1 == "/" || p1 == "**/" by {
              if doubleStar {
                assert p1 == p1[..2] + p2;
              }
            }
            assert p == p1 || p == "/" + p1;
            assert p == "/" || p == "//" || p == "**/" || p == "/**/";
            None
          else
            var glob := if p3[|p3| - 1] == '/' then p3[..|p3| - 1] else p3;
            NotCrashForm(p, p1, p2, p3);
            StripsCompose(p, p1, p2, p3, glob);
            Some(Shape(directoryOnly, slashAnchored && !doubleStar, glob))
  }

  /** A pattern that survives all three leading strips with text to spare
      is none of the crashing forms. */
  lemma NotCrashForm(p: string, p1: string, p2: string, p3: string)
    requires p != [] && p1 == (if p[0] == '/' then p[1..] else p)
    requires |p1| >= 2 || (p1 != [] && p1[0] != '*')
    requires p2 == (if p1[0] == '*' && p1[1] == '*' then p1[2..] else p1)
    requires p2 != [] && p3 == (if p2[0] == '/' then p2[1..] else p2)
    requires p3 != []
    ensures p !in CrashForms
  {
    assert p != "/" && p != "*" && p != "/*" && p != "**" && p != "/**";
    assert p != "**/" && p != "/**/" && p != "//";
  }

  /** `p` is `glob` with the prefix `lead` and the suffix `trail` put back. */
  predicate Strips(p: string, lead: string, glob: string, trail: string) {
    lead in LeadForms && (trail == "" || trail == "/") && p == lead + glob + trail
  }

  predicate IsPrefix(a: string, p: string) {
    |a| <= |p| && p[..|a|] == a
  }

  predicate EndsInSlash(s: string) {
    |s| > 0 && s[|s| - 1] == '/'
  }

  /** `lead` is the longest lead form that `p` starts with. */
  predicate LongestLead(p: string, lead: string) {
    && lead in LeadForms
    && IsPrefix(lead, p)
    && forall l :: l in LeadForms && IsPrefix(l, p) ==> |l| <= |lead|
  }

  /** `glob` is what is left of `p` once the longest lead form in front is
      taken off, and then one `/` behind if what remains ends in one. */
  predicate StripsMost(p: string, lead: string, glob: string, trail: string) {
    && Strips(p, lead, glob, trail)
    && LongestLead(p, lead)
    && (trail == "/" <==> EndsInSlash(p[|lead|..]))
  }

  /** The strips determine the glob: two readings of the same pattern
      agree on the lead, the trail and the glob. */
  lemma StripsMostUnique(p: string, lead1: string, glob1: string, trail1: string,
                         lead2: string, glob2: string, trail2: string)
    requires StripsMost(p, lead1, glob1, trail1) && StripsMost(p, lead2, glob2, trail2)
    ensures lead1 == lead2 && trail1 == trail2 && glob1 == glob2
  {
    assert |lead1| == |lead2|;
    assert lead1 == p[..|lead1|];
    assert p[|lead1|..] == glob1 + trail1;
    assert p[|lead2|..] == glob2 + trail2;
    assert glob1 == p[|lead1|..][..|p| - |lead1| - |trail1|];
  }

  /** The strips take off the longest lead form in front and one `/` behind
      when what remains ends in one; everything else of the pattern is the glob. */
  lemma StripsCompose(p: string, p1: string, p2: string, p3: string, glob: string)
    requires p != [] && p1 == (if p[0] == '/' then p[1..] else p)
    requires |p1| >= 2 || (p1 != [] && p1[0] != '*')
    requires p2 == (if p1[0] == '*' && p1[1] == '*' then p1[2..] else p1)
    requires p2 != [] && p3 == (if p2[0] == '/' then p2[1..] else p2)
    requires p3 != [] && glob == (if p3[|p3| - 1] == '/' then p3[..|p3| - 1] else p3)
    ensures exists lead, trail :: StripsMost(p, lead, glob, trail)
  {
    var a: string := if p[0] == '/' then "/" else "";
    var b: string := if p1[0] == '*' && p1[1] == '*' then "**" else "";
    var c: string := if p2[0] == '/' then "/" else "";
    var trail: string := if p3[|p3| - 1] == '/' then "/" else "";
    StripsGreedy(p, p1, p2, p3, glob, a, b, c, trail);
    GreedyLeadIsLongest(p, p1, p2, a, b, c);
    TrailIsSlash(p3, trail);
    StripsMostIntro(p, a + b + c, glob, trail, p3);
  }

  /** The three front strips and the back strip, put back together. */
  lemma StripsGreedy(p: string, p1: string, p2: string, p3: string, glob: string,
                     a: string, b: string, c: string, trail: string)
    requires p != [] && p1 == (if p[0] == '/' then p[1..] else p)
    requires |p1| >= 2 || (p1 != [] && p1[0] != '*')
    requires p2 == (if p1[0] == '*' && p1[1] == '*' then p1[2..] else p1)
    requires p2 != [] && p3 == (if p2[0] == '/' then p2[1..] else p2)
    requires p3 != [] && glob == (if p3[|p3| - 1] == '/' then p3[..|p3| - 1] else p3)
    requires a == (if p[0] == '/' then "/" else "")
    requires b == (if p1[0] == '*' && p1[1] == '*' then "**" else "")
    requires c == (if p2[0] == '/' then "/" else "")
    requires trail == (if p3[|p3| - 1] == '/' then "/" else "")
    ensures a + b + c in LeadForms && IsPrefix(a + b + c, p)
    ensures p == (a + b + c) + glob + trail && p[|a + b + c|..] == p3
  {
    PeelFront(p, p1);
    PeelDoubleStar(p1, p2);
    PeelFront(p2, p3);
    PeelBack(p3, glob);
    LeadIsLeadForm(a, b, c);
    Chain(p, p1, p2, p3, a, b, c, glob, trail);
  }

  /** Three prefixes and a suffix peeled off one after the other are one
      prefix and one suffix. */
  lemma Chain(p: string, p1: string, p2: string, p3: string, a: string, b: string, c: string,
              glob: string, trail: string)
    requires p == a + p1 && p1 == b + p2 && p2 == c + p3 && p3 == glob + trail
    ensures p == (a + b + c) + glob + trail && p[|a + b + c|..] == p3
    ensures IsPrefix(a + b + c, p)
  {
    assert p == (a + b + c) + p3;
  }

  lemma StripsMostIntro(p: string, lead: string, glob: string, trail: string, p3: string)
    requires lead in LeadForms && IsPrefix(lead, p)
    requires forall l :: l in LeadForms && IsPrefix(l, p) ==> |l| <= |lead|
    requires (trail == "" || trail == "/") && p == lead + glob + trail
    requires p[|lead|..] == p3 && (trail == "/" <==> EndsInSlash(p3))
    ensures StripsMost(p, lead, glob, trail)
  {
  }

  lemma TrailIsSlash(p3: string, trail: string)
    requires p3 != [] && trail == (if p3[|p3| - 1] == '/' then "/" else "")
    ensures trail == "/" <==> EndsInSlash(p3)
  {
  }

  /** Taking a `/`, then a `**`, then a `/` off the front whenever each is
      there takes off the longest lead form there is. */
  lemma GreedyLeadIsLongest(p: string, p1: string, p2: string, a: string, b: string, c: string)
    requires p != [] && p1 == (if p[0] == '/' then p[1..] else p)
    requires |p1| >= 2 || (p1 != [] && p1[0] != '*')
    requires p2 == (if p1[0] == '*' && p1[1] == '*' then p1[2..] else p1)
    requires p2 != []
    requires a == (if p[0] == '/' then "/" else "")
    requires b == (if p1[0] == '*' && p1[1] == '*' then "**" else "")
    requires c == (if p2[0] == '/' then "/" else "")
    ensures forall l :: l in LeadForms && IsPrefix(l, p) ==> |l| <= |a + b + c|
  {
    forall l | l in LeadForms && IsPrefix(l, p)
      ensures |l| <= |a + b + c|
    {
      if l == "/**/" {
        assert p[0] == '/' && p[1] == '*' && p[2] == '*' && p[3] == '/';
        assert p1[0] == '*' && p1[1] == '*' && p2[0] == '/';
      } else if l == "/**" {
        assert p[0] == '/' && p[1] == '*' && p[2] == '*';
        assert p1[0] == '*' && p1[1] == '*';
      } else if l == "**/" {
        assert p[0] == '*' && p[1] == '*' && p[2] == '/';
        assert p1[0] == '*' && p1[1] == '*' && p2[0] == '/';
      } else if l == "//" {
        assert p[0] == '/' && p[1] == '/';
        assert p1[0] == '/' && p2[0] == '/';
      } else if l == "**" {
        assert p[0] == '*' && p[1] == '*';
        assert p1[0] == '*' && p1[1] == '*';
      } else if l == "/" {
        assert p[0] == '/';
      }
    }
  }

  /** An optional leading `/` taken off `s` leaves `t`. */
  lemma PeelFront(s: string, t: string)
    requires s != [] && t == (if s[0] == '/' then s[1..] else s)
    ensures s == (if s[0] == '/' then "/" else "") + t
  {
    if s[0] == '/' {
      assert s == [s[0]] + s[1..];
    }
  }

  /** An optional trailing `/` taken off `s` leaves `t`. */
  lemma PeelBack(s: string, t: string)
    requires s != [] && t == (if s[|s| - 1] == '/' then s[..|s| - 1] else s)
    ensures s == t + (if s[|s| - 1] == '/' then "/" else "")
  {
    if s[|s| - 1] == '/' {
      assert s == s[..|s| - 1] + [s[|s| - 1]];
    }
  }

  /** An optional leading `**` taken off `s` leaves `t`. */
  lemma PeelDoubleStar(s: string, t: string)
    requires |s| >= 2 || (s != [] && s[0] != '*')
    requires t == (if s[0] == '*' && s[1] == '*' then s[2..] else s)
    ensures s == (if s[0] == '*' && s[1] == '*' then "**" else "") + t
  {
    if s[0] == '*' && s[1] == '*' {
      assert s == s[..2] + s[2..];
      assert s[..2] == "**";
    }
  }

  /** The eight ways of taking or leaving each of the three strips. */
  lemma LeadIsLeadForm(a: string, b: string, c: string)
    requires a == "" || a == "/"
    requires b == "" || b == "**"
    requires c == "" || c == "/"
    ensures a + b + c in LeadForms
  {
    if a == "/" && b == "**" && c == "/" {
      assert a + b + c == "/**/";
    } else if a == "/" && b == "**" {
      assert a + b + c == "/**";
    } else if a == "/" && c == "/" {
      assert a + b + c == "//";
    } else if b == "**" && c == "/" {
      assert a + b + c == "**/";
    } else if a == "/" || c == "/" {
      assert a + b + c == "/";
    } else if b == "**" {
      assert a + b + c == "**";
    } else {
      assert a + b + c == "";
    }
  }

  /** Every three-character window of a slice is one of the whole text. */
  lemma NoTripleStarInSlice(s: string, lo: nat, hi: nat)
    requires lo <= hi <= |s|
    requires !HasTripleStar(s)
    ensures !HasTripleStar(s[lo..hi])
  {
    if HasTripleStar(s[lo..hi]) {
      var i :| 0 <= i < |s[lo..hi]| && TripleStarAt(s[lo..hi], i);
      assert TripleStarAt(s, lo + i);
    }
  }

  /** The lines 38-42 let through (and a base the absoluteness test accepts). */
  predicate PassesFilters(line: string, base: string) {
    && (base == "" || IsAbsForm(base))
    && !IsBlank(line)
    && line[0] != '#'
    && !HasTripleStar(line)
  }

  /** `rule_from_pattern(line, base, source)`. An empty `base` stands for
      both `None` and `''`, which the source treats alike. */
  function RuleFromPattern(line: string, base: string, source: Option<Source>): (r: Compiled)
    ensures r.BaseNotAbsolute? <==> base != "" && !IsAbsForm(base)
    ensures r.Rule? ==> |line| > 0 && r.rule.pattern == line && r.rule.source == source
    ensures r.Rule? ==> (r.rule.negation <==> line[0] == '!')
    ensures r.Rule? ==> (r.rule.basePath.None? <==> base == "")
    ensures r.Rule? && base != "" ==> r.rule.basePath == Some(BasePath(base)) && Str(r.rule.basePath.value) == base
    ensures !r.BaseNotAbsolute? && (IsBlank(line) || line[0] == '#' || HasTripleStar(line)) ==> r.NoRule?
  {
    if base != "" && !IsAbsForm(base) then BaseNotAbsolute
    else if IsBlank(line) || line[0] == '#' then NoRule
    else if HasTripleStar(line) then NoRule
    else
      var negation := line[0] == '!';
      var p := if negation then line[1..] else line;
      if !DoubleStarsAccepted(p) then NoRule
      else if RStrip(p) == "/" then NoRule
      else
        match Derive(p)
        case None => IndexError
        case Some(shape) =>
          Rule(IgnoreRule(
            pattern := line,
            tokens := Tokenize(shape.glob),
            negation := negation,
            directoryOnly := shape.directoryOnly,
            anchored := shape.anchored,
            basePath := if base == "" then None else Some(BasePath(base)),
            source := source))
  }

  /** A line that passes every filter and whose body has a shape compiles
      to the rule of that shape. */
  lemma RuleOfShape(line: string, base: string, source: Option<Source>)
    requires PassesFilters(line, base)
    requires DoubleStarsAccepted(Body(line)) && RStrip(Body(line)) != "/"
    requires Derive(Body(line)).Some?
    ensures var shape := Derive(Body(line)).value;
            RuleFromPattern(line, base, source) ==
            Rule(IgnoreRule(line, Tokenize(shape.glob), line[0] == '!', shape.directoryOnly, shape.anchored,
                            if base == "" then None else Some(BasePath(base)), source))
  {
  }

  /** Without `***`, the `finditer` loop rejects a pattern iff some `**`
      in it is not allowed. */
  lemma DoubleStarsAcceptedIffEvery(p: string)
    requires !HasTripleStar(p)
    ensures DoubleStarsAccepted(p) <==> EveryDoubleStarAllowed(p)
  {
    var found := DoubleStarMatches(p, 0);
    DoubleStarMatchesFindAll(p, 0);
    if DoubleStarsAccepted(p) {
      forall i | 0 <= i < |p| && IsDoubleStarAt(p, i)
        ensures DoubleStarAllowed(p, i)
      {
        assert i in found;
        var k :| 0 <= k < |found| && found[k] == i;
      }
    }
  }

  /** The pattern after `!` removal keeps the line's freedom from `***`. */
  lemma BodyNoTripleStar(line: string)
    requires !HasTripleStar(line)
    ensures !HasTripleStar(Body(line))
  {
    var lo := if |line| > 0 && line[0] == '!' then 1 else 0;
    assert Body(line) == line[lo..|line|];
    NoTripleStarInSlice(line, lo, |line|);
  }

  /** A crash form other than `/` is never a slash followed by whitespace. */
  lemma CrashFormNotBareSlash(p: string)
    requires p in CrashForms && p != "/"
    ensures !(|p| > 0 && p[0] == '/' && IsBlank(p[1..]))
  {
    if |p| > 0 && p[0] == '/' {
      assert p[1] == '/' || p[1] == '*';
    }
  }

  /** Which lines give no rule, which crash, and which give a rule: a line
      the early filters keep gives no rule iff a `**` in its body is not
      allowed or the body is a lone `/` (trailing whitespace aside), and
      otherwise crashes iff its body is one of the crash forms. */
  lemma RuleFromPatternOutcomes(line: string, base: string, source: Option<Source>)
    requires PassesFilters(line, base)
    ensures var r := RuleFromPattern(line, base, source);
            var body := Body(line);
            && (r.NoRule? <==> !EveryDoubleStarAllowed(body) || (|body| > 0 && body[0] == '/' && IsBlank(body[1..])))
            && (r.IndexError? <==> EveryDoubleStarAllowed(body) && body != "/" && body in CrashForms)
  {
    var body := Body(line);
    BodyNoTripleStar(line);
    DoubleStarsAcceptedIffEvery(body);
    RStripIsSlash(body);
    if body != "/" && body in CrashForms {
      CrashFormNotBareSlash(body);
    }
  }

  /** The flags and the glob of a rule, read off the pattern after `!`
      removal: `directory_only` iff it ends in `/`; `anchored` iff a `/`
      occurs before its last character and it does not start with `**`, with or
      without a `/` before it; and the rule's fragments are the translation
      of the glob left when the longest of a `/`, a `**` and a `/` is taken
      off the front and one `/` off the back when what remains ends in one.
      The fragments write back to that glob without loss. */
  lemma RuleShape(line: string, base: string, source: Option<Source>)
    requires RuleFromPattern(line, base, source).Rule?
    ensures var rule := RuleFromPattern(line, base, source).rule;
            var body := Body(line);
            && |body| > 0
            && (rule.directoryOnly <==> body[|body| - 1] == '/')
            && (rule.anchored <==> '/' in body[..|body| - 1] && !LeadingDoubleStar(body))
            && (exists lead, glob, trail ::
                  StripsMost(body, lead, glob, trail) && rule.tokens == Tokenize(glob) && Render(rule.tokens) == glob)
  {
    var body := Body(line);
    var glob := Derive(body).value.glob;
    BodyNoTripleStar(line);
    var lead, trail :| StripsMost(body, lead, glob, trail);
    RenderStrips(body, lead, glob, trail);
  }

  /** A glob cut out of a pattern without `***` renders back to itself. */
  lemma RenderStrips(body: string, lead: string, glob: string, trail: string)
    requires StripsMost(body, lead, glob, trail) && !HasTripleStar(body)
    ensures Render(Tokenize(glob)) == glob
  {
    assert glob == body[|lead|..|lead| + |glob|];
    NoTripleStarInSlice(body, |lead|, |lead| + |glob|);
    RenderTokenize(glob);
  }
}
