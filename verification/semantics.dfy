/** The language each emitted fragment denotes under Python's `re` with the
    `(?ms)` flags, for paths without newlines: `Matches(toks, s)` holds iff
    the fragments, followed by `$`, match all of `s`, and `Search` is
    `re.search` of the same expression without a `^`. */
module Semantics {
  import opened Glob

  predicate ItemHas(item: ClassItem, c: char) {
    match item
    case Single(x) => c == x
    case Range(lo, hi) => lo <= c <= hi
  }

  /** Membership in `[...]` or, when negated, `[^...]`. A negated class
      matches `/` too: only `*` and `?` are kept off the separator. */
  predicate InClass(negated: bool, items: seq<ClassItem>, c: char) {
    negated != (exists k :: 0 <= k < |items| && ItemHas(items[k], c))
  }

  /** Python's regex compiler rejects a range whose bounds are reversed
      ("bad character range"); every other class body compiles. */
  predicate ClassCompiles(items: seq<ClassItem>) {
    forall k :: 0 <= k < |items| && items[k].Range? ==> items[k].lo <= items[k].hi
  }

  /** `re.compile` of the emitted expression succeeds. */
  predicate Compiles(toks: seq<Token>) {
    forall k :: 0 <= k < |toks| && toks[k].Class? ==> ClassCompiles(toks[k].items)
  }

  /** The fragments match all of `s`. Each repetition is unrolled one
      character at a time: `[^/]*` and `.*` either stop or eat one more. */
  predicate Matches(toks: seq<Token>, s: string)
    decreases |toks|, |s|
  {
    if toks == [] then s == []
    else
      match toks[0]
      case Star => Matches(toks[1..], s) || (s != [] && s[0] != '/' && Matches(toks, s[1..]))
      case DStar => Matches(toks[1..], s) || (s != [] && Matches(toks, s[1..]))
      case DStarSep =>
        || Matches(toks[1..], s)
        || (s != [] && s[0] == '/' && Matches(toks[1..], s[1..]))
        || (s != [] && Matches(toks, s[1..]))
      case AnyChar => s != [] && s[0] != '/' && Matches(toks[1..], s[1..])
      case Sep => s != [] && s[0] == '/' && Matches(toks[1..], s[1..])
      case Class(negated, items) => s != [] && InClass(negated, items, s[0]) && Matches(toks[1..], s[1..])
      case Lit(c) => s != [] && s[0] == c && Matches(toks[1..], s[1..])
  }

  /** `re.search` of the expression without `^`: a match that starts
      anywhere and, because of the `$`, runs to the end. */
  predicate Search(toks: seq<Token>, s: string)
    decreases |s|
  {
    Matches(toks, s) || (s != [] && Search(toks, s[1..]))
  }

  /** An unanchored search succeeds iff some suffix of the text matches,
      at any character offset, not only after a `/`. */
  lemma {:induction false} SearchSuffix(toks: seq<Token>, s: string)
    ensures Search(toks, s) <==> exists k :: 0 <= k <= |s| && Matches(toks, s[k..])
    decreases |s|
  {
    if s != [] {
      assert s[0..] == s;
      SearchSuffix(toks, s[1..]);
      if Search(toks, s[1..]) {
        var k :| 0 <= k <= |s[1..]| && Matches(toks, s[1..][k..]);
        assert s[1..][k..] == s[k + 1..];
      }
      if k :| 0 <= k <= |s| && Matches(toks, s[k..]) {
        if k > 0 {
          assert s[1..][k - 1..] == s[k..];
        }
      }
    } else {
      assert s[0..] == s;
    }
  }

  /** `[^/]*` then the rest: some separator-free prefix, then the rest. */
  lemma StarSplits(rest: seq<Token>, s: string)
    ensures Matches([Star] + rest, s) <==>
            exists k :: 0 <= k <= |s| && '/' !in s[..k] && Matches(rest, s[k..])
  {
    if Matches([Star] + rest, s) {
      StarSplitsFound(rest, s);
    }
    if k :| 0 <= k <= |s| && '/' !in s[..k] && Matches(rest, s[k..]) {
      StarSplitsAt(rest, s, k);
    }
  }

  /** A match of `[^/]*` then the rest leaves a separator-free prefix. */
  lemma {:induction false} StarSplitsFound(rest: seq<Token>, s: string)
    requires Matches([Star] + rest, s)
    ensures exists k :: 0 <= k <= |s| && '/' !in s[..k] && Matches(rest, s[k..])
    decreases |s|
  {
    var toks := [Star] + rest;
    assert toks[1..] == rest;
    if Matches(rest, s) {
      assert s[0..] == s && s[..0] == [];
    } else {
      StarSplitsFound(rest, s[1..]);
      var k :| 0 <= k <= |s[1..]| && '/' !in s[1..][..k] && Matches(rest, s[1..][k..]);
      assert s[1..][k..] == s[k + 1..];
      assert s[..k + 1] == [s[0]] + s[1..][..k];
    }
  }

  /** `[^/]*` absorbs any separator-free prefix in front of a match of the
      rest. */
  lemma {:induction false} StarSplitsAt(rest: seq<Token>, s: string, k: nat)
    requires k <= |s| && '/' !in s[..k] && Matches(rest, s[k..])
    ensures Matches([Star] + rest, s)
    decreases k
  {
    var toks := [Star] + rest;
    assert toks[1..] == rest;
    if k == 0 {
      assert s[0..] == s;
    } else {
      assert s[1..][k - 1..] == s[k..];
      assert s[1..][..k - 1] == s[1..k];
      assert s[0] in s[..k];
      StarSplitsAt(rest, s[1..], k - 1);
    }
  }

  /** `.*` then the rest: any prefix at all, then the rest. */
  lemma {:induction false} DStarSplits(rest: seq<Token>, s: string)
    ensures Matches([DStar] + rest, s) <==> exists k :: 0 <= k <= |s| && Matches(rest, s[k..])
    decreases |s|
  {
    var toks := [DStar] + rest;
    assert toks[1..] == rest;
    if s == [] {
      assert s[0..] == s;
    } else {
      DStarSplits(rest, s[1..]);
      if Matches(toks, s) && !Matches(rest, s) {
        var k :| 0 <= k <= |s[1..]| && Matches(rest, s[1..][k..]);
        assert s[1..][k..] == s[k + 1..];
      } else if Matches(rest, s) {
        assert s[0..] == s;
      }
      if k :| 0 <= k <= |s| && Matches(rest, s[k..]) {
        if k > 0 {
          assert s[1..][k - 1..] == s[k..];
        }
      }
    }
  }

  /** What `.*[/]?` may leave for the rest at offset `k`: the rest matches
      there, or there is a `/` there and the rest matches after it. */
  predicate RestAfter(rest: seq<Token>, s: string, k: int)
    requires 0 <= k <= |s|
  {
    Matches(rest, s[k..]) || (k < |s| && s[k] == '/' && Matches(rest, s[k + 1..]))
  }

  /** `.*[/]?` then the rest: any prefix, then optionally one `/`, then the rest. */
  lemma DStarSepSplits(rest: seq<Token>, s: string)
    ensures Matches([DStarSep] + rest, s) <==> exists k :: 0 <= k <= |s| && RestAfter(rest, s, k)
  {
    if Matches([DStarSep] + rest, s) {
      DStarSepFound(rest, s);
    }
    if k :| 0 <= k <= |s| && RestAfter(rest, s, k) {
      DStarSepAt(rest, s, k);
    }
  }

  /** A match of `.*[/]?` then the rest leaves the rest a place to match. */
  lemma {:induction false} DStarSepFound(rest: seq<Token>, s: string)
    requires Matches([DStarSep] + rest, s)
    ensures exists k :: 0 <= k <= |s| && RestAfter(rest, s, k)
    decreases |s|
  {
    var toks := [DStarSep] + rest;
    assert toks[1..] == rest;
    if Matches(rest, s) {
      assert s[0..] == s;
      assert RestAfter(rest, s, 0);
    } else if s != [] && s[0] == '/' && Matches(rest, s[1..]) {
      assert RestAfter(rest, s, 0);
    } else {
      DStarSepFound(rest, s[1..]);
      var k :| 0 <= k <= |s[1..]| && RestAfter(rest, s[1..], k);
      assert s[1..][k..] == s[k + 1..];
      assert k < |s[1..]| ==> s[1..][k + 1..] == s[k + 2..];
      assert RestAfter(rest, s, k + 1);
    }
  }

  /** `.*[/]?` absorbs any prefix in front of a place where the rest
      matches. */
  lemma {:induction false} DStarSepAt(rest: seq<Token>, s: string, k: nat)
    requires k <= |s| && RestAfter(rest, s, k)
    ensures Matches([DStarSep] + rest, s)
    decreases k
  {
    var toks := [DStarSep] + rest;
    assert toks[1..] == rest;
    if k == 0 {
      assert s[0..] == s;
    } else {
      assert s[1..][k - 1..] == s[k..];
      assert k < |s| ==> s[1..][k..] == s[k + 1..];
      assert RestAfter(rest, s[1..], k - 1);
      DStarSepAt(rest, s[1..], k - 1);
    }
  }

  /** The optional `/` after `.*` changes nothing: `**` followed by `/` matches exactly
      where `**` would. */
  lemma DStarSepIsDStar(rest: seq<Token>, s: string)
    ensures Matches([DStarSep] + rest, s) <==> Matches([DStar] + rest, s)
  {
    DStarSepSplits(rest, s);
    DStarSplits(rest, s);
    if k :| 0 <= k <= |s| && RestAfter(rest, s, k) {
      if !Matches(rest, s[k..]) {
        assert Matches(rest, s[(k + 1)..]);
      }
    }
    if k :| 0 <= k <= |s| && Matches(rest, s[k..]) {
      assert RestAfter(rest, s, k);
    }
  }

  /** The pair a trailing `**` emits, `.*[^/]*`, matches every text. */
  lemma TrailingDoubleStarMatchesAll(s: string)
    ensures Matches([DStar, Star], s)
  {
    StarSplits([], []);
    assert Matches([Star], []) by {
      assert ([Star] + [])[1..] == [];
      assert [Star] + [] == [Star];
    }
    DStarSplits([Star], s);
    assert s[|s|..] == [];
    assert [DStar] + [Star] == [DStar, Star];
  }

  /** A glob character with no wildcard meaning. */
  predicate IsPlain(c: char) {
    c != '*' && c != '?' && c != '['
  }

  /** A glob of plain characters (`/`, `.` and `\` included) matches only
      itself. */
  lemma {:induction false} PlainGlobMatchesItself(g: string, i: nat, s: string)
    requires i <= |g|
    requires forall m :: i <= m < |g| ==> IsPlain(g[m])
    ensures Matches(TokensFrom(g, i), s) <==> s == g[i..]
    decreases |g| - i
  {
    if i < |g| {
      var toks := TokensFrom(g, i);
      assert toks == Step(g, i).0 + TokensFrom(g, i + 1);
      assert toks[1..] == TokensFrom(g, i + 1);
      if s != [] {
        PlainGlobMatchesItself(g, i + 1, s[1..]);
        assert s == [s[0]] + s[1..];
      }
      assert g[i..] == [g[i]] + g[i + 1..];
    }
  }

  /** A `*` anywhere in a glob, not followed by a second `*`: a
      separator-free stretch of the text, then what the rest of the glob
      matches. */
  lemma StarInGlob(g: string, i: nat, s: string)
    requires i < |g| && g[i] == '*' && (i + 1 == |g| || g[i + 1] != '*')
    ensures Matches(TokensFrom(g, i), s) <==>
            exists k :: 0 <= k <= |s| && '/' !in s[..k] && Matches(TokensFrom(g, i + 1), s[k..])
  {
    TokensFromStep(g, i);
    StarSplits(TokensFrom(g, i + 1), s);
  }

  /** A `?` anywhere in a glob: one character that is not a separator, then
      what the rest of the glob matches. */
  lemma QuestionMarkInGlob(g: string, i: nat, s: string)
    requires i < |g| && g[i] == '?'
    ensures Matches(TokensFrom(g, i), s) <==>
            |s| > 0 && s[0] != '/' && Matches(TokensFrom(g, i + 1), s[1..])
  {
    TokensFromStep(g, i);
    assert ([AnyChar] + TokensFrom(g, i + 1))[1..] == TokensFrom(g, i + 1);
  }

  /** A `/` anywhere in a glob: exactly one separator, then what the rest
      of the glob matches. */
  lemma SlashInGlob(g: string, i: nat, s: string)
    requires i < |g| && g[i] == '/'
    ensures Matches(TokensFrom(g, i), s) <==>
            |s| > 0 && s[0] == '/' && Matches(TokensFrom(g, i + 1), s[1..])
  {
    TokensFromStep(g, i);
    assert ([Sep] + TokensFrom(g, i + 1))[1..] == TokensFrom(g, i + 1);
  }

  /** Any other character that is not `[` stands for itself. */
  lemma LiteralInGlob(g: string, i: nat, s: string)
    requires i < |g| && IsPlain(g[i]) && g[i] != '/'
    ensures Matches(TokensFrom(g, i), s) <==>
            |s| > 0 && s[0] == g[i] && Matches(TokensFrom(g, i + 1), s[1..])
  {
    TokensFromStep(g, i);
    assert ([Lit(g[i])] + TokensFrom(g, i + 1))[1..] == TokensFrom(g, i + 1);
  }

  /** A `[` whose class closes at `j`: one character the class admits, then
      what the glob after the `]` matches. */
  lemma ClassInGlob(g: string, i: nat, s: string)
    requires i < |g| && g[i] == '['
    requires CloseFrom(g, ClassScanStart(g, i + 1)) < |g|
    ensures var j := CloseFrom(g, ClassScanStart(g, i + 1));
            var t := TokensFrom(g, i)[0];
            && t.Class?
            && (Matches(TokensFrom(g, i), s) <==>
                |s| > 0 && InClass(t.negated, t.items, s[0]) && Matches(TokensFrom(g, j + 1), s[1..]))
  {
    BracketCloses(g, i);
    var j := CloseFrom(g, ClassScanStart(g, i + 1));
    var toks := TokensFrom(g, i);
    assert toks[1..] == TokensFrom(g, j + 1);
  }

  /** A `**` inside a glob and not followed by `/`: any text at all,
      separators included, then what the rest of the glob matches. */
  lemma DoubleStarInGlob(g: string, i: nat, s: string)
    requires i + 2 < |g| && g[i] == '*' && g[i + 1] == '*' && g[i + 2] != '/'
    ensures Matches(TokensFrom(g, i), s) <==>
            exists k :: 0 <= k <= |s| && Matches(TokensFrom(g, i + 2), s[k..])
  {
    TokensFromStep(g, i);
    DStarSplits(TokensFrom(g, i + 2), s);
  }

  /** A `**` followed by `/`, anywhere in a glob: any text, then an optional separator,
      then what the rest of the glob matches; the optional separator makes
      no difference, so this is the same as any text then the rest. */
  lemma DoubleStarSlashInGlob(g: string, i: nat, s: string)
    requires i + 2 < |g| && g[i] == '*' && g[i + 1] == '*' && g[i + 2] == '/'
    ensures var rest := TokensFrom(g, i + 3);
            && (Matches(TokensFrom(g, i), s) <==> exists k :: 0 <= k <= |s| && RestAfter(rest, s, k))
            && (Matches(TokensFrom(g, i), s) <==> exists k :: 0 <= k <= |s| && Matches(rest, s[k..]))
  {
    TokensFromStep(g, i);
    DStarSepSplits(TokensFrom(g, i + 3), s);
    DStarSepIsDStar(TokensFrom(g, i + 3), s);
    DStarSplits(TokensFrom(g, i + 3), s);
  }

  /** A `**` that ends a glob matches every remaining text. */
  lemma TrailingDoubleStarInGlob(g: string, i: nat, s: string)
    requires i + 2 == |g| && g[i] == '*' && g[i + 1] == '*'
    ensures Matches(TokensFrom(g, i), s)
  {
    TokensFromStep(g, i);
    assert TokensFrom(g, i) == [DStar, Star];
    TrailingDoubleStarMatchesAll(s);
  }

  /** A lone `*` matches any text without a separator. */
  lemma LoneStar(s: string)
    ensures Matches(Tokenize("*"), s) <==> '/' !in s
  {
    assert Step("*", 0) == ([Star], 1);
    assert Tokenize("*") == [Star] + [];
    StarAlone(s);
  }

  /** A lone `?` matches exactly one character that is not a separator. */
  lemma LoneQuestionMark(s: string)
    ensures Matches(Tokenize("?"), s) <==> |s| == 1 && s[0] != '/'
  {
    assert Step("?", 0) == ([AnyChar], 1);
    assert Tokenize("?") == [AnyChar];
  }

  /** A lone `**` matches every text, separators included. */
  lemma LoneDoubleStar(s: string)
    ensures Matches(Tokenize("**"), s)
  {
    assert Step("**", 0) == ([DStar, Star], 2);
    assert Tokenize("**") == [DStar, Star];
    TrailingDoubleStarMatchesAll(s);
  }

  /** A lone `**` followed by `/` matches every text too. */
  lemma LoneDoubleStarSlash(s: string)
    ensures Matches(Tokenize("**/"), s)
  {
    assert Step("**/", 0) == ([DStarSep], 3);
    assert Tokenize("**/") == [DStarSep] + [];
    DStarSepSplits([], s);
    assert s[|s|..] == [];
    assert RestAfter([], s, |s|);
  }

  /** A lone `/` matches exactly a separator. */
  lemma LoneSlash(s: string)
    ensures Matches(Tokenize("/"), s) <==> s == "/"
  {
    assert Step("/", 0) == ([Sep], 1);
    assert Tokenize("/") == [Sep];
  }

  /** The fragments `re.escape` gives for a run of ordinary characters. */
  function Lits(cs: string): (r: seq<Token>)
    ensures |r| == |cs| && forall i :: 0 <= i < |cs| ==> r[i] == Lit(cs[i])
  {
    if cs == [] then [] else [Lit(cs[0])] + Lits(cs[1..])
  }

  /** Escaped characters in front of the rest consume exactly themselves. */
  lemma {:induction false} LitsThen(cs: string, rest: seq<Token>, s: string)
    ensures Matches(Lits(cs) + rest, s) <==>
            |cs| <= |s| && s[..|cs|] == cs && Matches(rest, s[|cs|..])
    decreases |cs|
  {
    if cs == [] {
      assert Lits(cs) + rest == rest;
      assert s[..0] == cs && s[0..] == s;
    } else {
      var toks := Lits(cs) + rest;
      assert toks[0] == Lit(cs[0]);
      assert toks[1..] == Lits(cs[1..]) + rest;
      if s != [] {
        LitsThen(cs[1..], rest, s[1..]);
        PrefixAfterFirst(cs, s);
      }
    }
  }

  /** `cs` is a prefix of `s` iff their first characters agree and the rest
      of `cs` is a prefix of the rest of `s`; what follows it is the same. */
  lemma PrefixAfterFirst(cs: string, s: string)
    requires cs != [] && s != []
    ensures (|cs| <= |s| && s[..|cs|] == cs) <==>
            (s[0] == cs[0] && |cs| - 1 <= |s| - 1 && s[1..][..|cs| - 1] == cs[1..])
    ensures |cs| <= |s| ==> s[1..][|cs| - 1..] == s[|cs|..]
  {
    if |cs| <= |s| {
      assert s[..|cs|] == [s[0]] + s[1..][..|cs| - 1];
      assert cs == [cs[0]] + cs[1..];
    }
  }

  /** A lone `[^/]*` matches exactly the texts without a separator. */
  lemma StarAlone(s: string)
    ensures Matches([Star], s) <==> '/' !in s
  {
    StarSplits([], s);
    assert [Star] + [] == [Star];
    if '/' !in s {
      assert s[..|s|] == s && s[|s|..] == [];
    }
  }

  /** A lone class matches exactly one member character. */
  lemma ClassAlone(negated: bool, items: seq<ClassItem>, s: string)
    ensures Matches([Class(negated, items)], s) <==> |s| == 1 && InClass(negated, items, s[0])
  {
    assert [Class(negated, items)][1..] == [];
  }

  /** Escaped characters never match a text shorter than themselves. */
  lemma LitsNeedRoom(cs: string, s: string)
    requires |s| < |cs|
    ensures !Matches(Lits(cs), s)
  {
    LitsThen(cs, [], s);
    assert Lits(cs) + [] == Lits(cs);
  }

  /** Escaped characters alone match exactly themselves. */
  lemma LitsExactly(cs: string, s: string)
    ensures Matches(Lits(cs), s) <==> s == cs
  {
    LitsThen(cs, [], s);
    assert Lits(cs) + [] == Lits(cs);
    if |cs| <= |s| && s[..|cs|] == cs {
      assert s == s[..|cs|] + s[|cs|..];
    }
  }

  /** The first character of a class body that compiles is a member:
      either on its own or as the low end of a range. */
  lemma LeadingCharIsMember(body: string)
    requires body != [] && ClassCompiles(ParseItems(body))
    ensures InClass(false, ParseItems(body), body[0])
  {
    assert ItemHas(ParseItems(body)[0], body[0]);
  }

  /** The first character of a closed class body, after the `!` if there
      is one, is listed in the class: it is a member of `[...]` and is
      excluded by `[!...]`. This holds for a `]` there, which the scan for
      the closing `]` skips, and for a `^` there, which reaches the regex
      escaped and so neither ends nor negates the class. */
  lemma FirstIsMember(g: string, i: nat)
    requires i + 1 < |g| && g[i] == '['
    requires CloseFrom(g, ClassScanStart(g, i + 1)) < |g|
    ensures var t := TokensFrom(g, i)[0];
            var k := if g[i + 1] == '!' then i + 2 else i + 1;
            && k < |g| && t.Class? && (t.negated <==> g[i + 1] == '!')
            && (ClassCompiles(t.items) ==> InClass(false, t.items, g[k]) && !InClass(true, t.items, g[k]))
  {
    BracketCloses(g, i);
    var j := CloseFrom(g, ClassScanStart(g, i + 1));
    var k := if g[i + 1] == '!' then i + 2 else i + 1;
    var body := g[k..j];
    assert body[0] == g[k];
    if ClassCompiles(ParseItems(body)) {
      LeadingCharIsMember(body);
    }
  }

  /** `x-y` at the start of a class body, after the `!` if there is one,
      is a range: every character from `x` to `y` is listed, so it is a
      member of `[...]` and excluded by `[!...]`. This holds for `x` a `]`,
      which the scan for the closing `]` skips. */
  lemma DashMakesRange(g: string, i: nat)
    requires i + 1 < |g| && g[i] == '['
    requires var k := if g[i + 1] == '!' then i + 2 else i + 1;
             k + 2 < |g| && g[k + 1] == '-' && g[k + 2] != ']'
    requires CloseFrom(g, ClassScanStart(g, i + 1)) < |g|
    ensures var t := TokensFrom(g, i)[0];
            var k := if g[i + 1] == '!' then i + 2 else i + 1;
            && t.Class? && (t.negated <==> g[i + 1] == '!')
            && t.items[0] == Range(g[k], g[k + 2])
            && forall c :: g[k] <= c <= g[k + 2] ==> InClass(false, t.items, c) && !InClass(true, t.items, c)
  {
    BracketCloses(g, i);
    var j := CloseFrom(g, ClassScanStart(g, i + 1));
    var k := if g[i + 1] == '!' then i + 2 else i + 1;
    assert k + 2 < j;
    var body := g[k..j];
    assert body[..3] == [g[k], '-', g[k + 2]];
    var items := ParseItems(body);
    assert items[0] == Range(g[k], g[k + 2]);
    forall c | g[k] <= c <= g[k + 2]
      ensures InClass(false, items, c)
    {
      assert ItemHas(items[0], c);
    }
  }
}
