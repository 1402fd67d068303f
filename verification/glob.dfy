/** `fnmatch_pathname_to_regex`: the left-to-right translation of a glob into
    regular-expression fragments, with `/` as the only separator. Each
    fragment is a `Token`; `Semantics` gives the language each one denotes. */
module Glob {
  import opened Text

  /** One member of a bracket class, as Python's regex parser reads the class
      body: a character `c - d` is a range, anything else a single character. */
  datatype ClassItem = Single(c: char) | Range(lo: char, hi: char)

  /** One regex fragment emitted by the translator. */
  datatype Token =
    | Star                                        // `*`        emits `[^/]*`
    | DStar                                       // `**`       emits `.*`
    | DStarSep                                    // `**/`      emits `.*[/]?`
    | AnyChar                                     // `?`        emits `[^/]`
    | Sep                                         // `/`        emits `[/]`
    | Class(negated: bool, items: seq<ClassItem>) // `[...]`    emits `[...]`, `[!...]` emits `[^...]`
    | Lit(c: char)                                // any other  emits `re.escape(c)`

  /** How Python's regex parser splits a class body into members: a `-`
      between two characters makes a range, a `-` at either end is literal.
      Backslashes reach the parser doubled and so stand for themselves, and a
      leading `^` reaches it escaped, so neither needs a case here. */
  function ParseItems(body: string): seq<ClassItem>
    decreases |body|
  {
    if body == [] then []
    else if |body| >= 3 && body[1] == '-' then [Range(body[0], body[2])] + ParseItems(body[3..])
    else [Single(body[0])] + ParseItems(body[1..])
  }

  function RenderItem(item: ClassItem): string {
    match item
    case Single(c) => [c]
    case Range(lo, hi) => [lo, '-', hi]
  }

  /** The class body a member list was read from. */
  function RenderItems(items: seq<ClassItem>): string
    decreases |items|
  {
    if items == [] then [] else RenderItem(items[0]) + RenderItems(items[1..])
  }

  /** Reading a class body into members loses no character of it. */
  lemma {:induction false} RenderParseItems(body: string)
    ensures RenderItems(ParseItems(body)) == body
    decreases |body|
  {
    if body != [] {
      var items := ParseItems(body);
      if |body| >= 3 && body[1] == '-' {
        RenderParseItems(body[3..]);
        assert items[1..] == ParseItems(body[3..]);
        assert body == [body[0], '-', body[2]] + body[3..];
      } else {
        RenderParseItems(body[1..]);
        assert items[1..] == ParseItems(body[1..]);
        assert body == [body[0]] + body[1..];
      }
    }
  }

  /** Skipping past the `[`: an optional `!`, then an optional `]` that is a
      member rather than the end of the class (lines 156-160). */
  function ClassScanStart(g: string, i: nat): (j: nat)
    requires i <= |g|
    ensures i <= j <= |g|
  {
    var j0 := if i < |g| && g[i] == '!' then i + 1 else i;
    if j0 < |g| && g[j0] == ']' then j0 + 1 else j0
  }

  /** The first `]` at or after `j`, or `|g|` when there is none. */
  function CloseFrom(g: string, j: nat): (k: nat)
    requires j <= |g|
    ensures j <= k <= |g|
    ensures k < |g| ==> g[k] == ']'
    ensures forall m :: j <= m < k ==> g[m] != ']'
    decreases |g| - j
  {
    if j == |g| || g[j] == ']' then j else CloseFrom(g, j + 1)
  }

  /** The class token for the text between `[` and its `]`: a leading `!`
      negates, and the rest is read as members. */
  function ClassToken(stuff: string): Token {
    if stuff != [] && stuff[0] == '!' then Class(true, ParseItems(stuff[1..]))
    else Class(false, ParseItems(stuff))
  }

  /** One turn of the translator's loop at index `i`: the fragments it emits
      and the index it resumes at. */
  function Step(g: string, i: nat): (r: (seq<Token>, nat))
    requires i < |g|
    ensures i < r.1 <= |g|
  {
    var c := g[i];
    if c == '*' then AsteriskStep(g, i)
    else if c == '?' then ([AnyChar], i + 1)
    else if c == '/' then ([Sep], i + 1)
    else if c == '[' then BracketStep(g, i)
    else ([Lit(c)], i + 1)
  }

  /** The turn for a `*` at `i`. A `*` whose lookahead runs off the end
      lands in the `except IndexError` branch, which emits `[^/]*`; for a
      trailing `**` that comes after the `.*` already emitted. */
  function AsteriskStep(g: string, i: nat): (r: (seq<Token>, nat))
    requires i < |g|
    ensures i < r.1 <= |g|
  {
    if i + 1 == |g| then ([Star], i + 1)
    else if g[i + 1] != '*' then ([Star], i + 1)
    else if i + 2 == |g| then ([DStar, Star], i + 2)
    else if g[i + 2] == '/' then ([DStarSep], i + 3)
    else ([DStar], i + 2)
  }

  /** The turn for a `[` at `i`. A `[` without a closing `]` is a literal
      and scanning resumes right after it. */
  function BracketStep(g: string, i: nat): (r: (seq<Token>, nat))
    requires i < |g|
    ensures i < r.1 <= |g|
  {
    var j := CloseFrom(g, ClassScanStart(g, i + 1));
    if j >= |g| then ([Lit('[')], i + 1)
    else ([ClassToken(g[i + 1..j])], j + 1)
  }

  /** The fragments emitted for `g[i..]`. */
  function TokensFrom(g: string, i: nat): seq<Token>
    requires i <= |g|
    decreases |g| - i
  {
    if i == |g| then []
    else
      var (emitted, next) := Step(g, i);
      emitted + TokensFrom(g, next)
  }

  function Tokenize(g: string): seq<Token> {
    TokensFrom(g, 0)
  }

  /** The inner scan for the `]` that closes a class opened before index `i`. */
  method ScanClass(g: string, i: nat) returns (j: nat)
    requires i <= |g|
    ensures j == CloseFrom(g, ClassScanStart(g, i))
  {
    var n := |g|;
    j := i;
    if j < n && g[j] == '!' {
      j := j + 1;
    }
    if j < n && g[j] == ']' {
      j := j + 1;
    }
    ghost var start := j;
    while j < n && g[j] != ']'
      invariant start <= j <= n
      invariant forall m :: start <= m < j ==> g[m] != ']'
      decreases n - j
    {
      j := j + 1;
    }
  }

  /** One turn of the translator's loop: the character at `i` and whatever
      lookahead it needs, as the source reads them. */
  method TranslateStep(g: string, i: nat) returns (emitted: seq<Token>, next: nat)
    requires i < |g|
    ensures (emitted, next) == Step(g, i)
  {
    var n := |g|;
    var c := g[i];
    next := i + 1;
    if c == '*' {
      if next < n && g[next] == '*' {
        next := next + 1;
        if next < n && g[next] == '/' {
          next := next + 1;
          emitted := [DStarSep];
        } else if next < n {
          emitted := [DStar];
        } else {
          emitted := [DStar, Star];
        }
      } else {
        emitted := [Star];
      }
    } else if c == '?' {
      emitted := [AnyChar];
    } else if c == '/' {
      emitted := [Sep];
    } else if c == '[' {
      var j := ScanClass(g, next);
      if j >= n {
        emitted := [Lit('[')];
      } else {
        var stuff := g[next..j];
        next := j + 1;
        if stuff[0] == '!' {
          emitted := [Class(true, ParseItems(stuff[1..]))];
        } else {
          emitted := [Class(false, ParseItems(stuff))];
        }
      }
    } else {
      emitted := [Lit(c)];
    }
  }

  /** The translator's loop: the fragments of the whole glob, in order. */
  method Translate(g: string) returns (res: seq<Token>)
    ensures res == Tokenize(g)
  {
    var i := 0;
    res := [];
    while i < |g|
      invariant 0 <= i <= |g|
      invariant res + TokensFrom(g, i) == Tokenize(g)
      decreases |g| - i
    {
      var emitted, next := TranslateStep(g, i);
      res, i := res + emitted, next;
    }
  }

  function RenderToken(t: Token): string {
    match t
    case Star => "*"
    case DStar => "**"
    case DStarSep => "**/"
    case AnyChar => "?"
    case Sep => "/"
    case Class(negated, items) => "[" + (if negated then "!" else "") + RenderItems(items) + "]"
    case Lit(c) => [c]
  }

  /** The glob text a fragment list was translated from. The pair `.*` then
      `[^/]*` stems from one trailing `**`. */
  function Render(toks: seq<Token>): string
    decreases |toks|
  {
    if toks == [] then []
    else if |toks| == 2 && toks[0].DStar? && toks[1].Star? then "**"
    else RenderToken(toks[0]) + Render(toks[1..])
  }

  /** A fragment list starts with `Star` only where the glob has a `*`. */
  lemma StarComesFromAsterisk(g: string, i: nat)
    requires i < |g|
    requires TokensFrom(g, i)[0] == Star
    ensures g[i] == '*'
  {
    assert Step(g, i).0[0] == TokensFrom(g, i)[0];
  }

  /** Rendering one turn's fragments gives back the text the turn consumed. */
  lemma RenderStep(g: string, i: nat)
    requires i < |g|
    ensures Render(Step(g, i).0) == g[i..Step(g, i).1]
  {
    if g[i] == '[' {
      RenderBracketStep(g, i);
    } else if g[i] == '*' {
      RenderAsteriskStep(g, i);
    } else {
      var (emitted, next) := Step(g, i);
      assert next == i + 1;
      assert Render(emitted) == RenderToken(emitted[0]) + Render([]);
    }
  }

  lemma RenderAsteriskStep(g: string, i: nat)
    requires i < |g| && g[i] == '*'
    ensures Render(Step(g, i).0) == g[i..Step(g, i).1]
  {
    var (emitted, next) := Step(g, i);
    if i + 2 < |g| && g[i + 1] == '*' {
      if g[i + 2] == '/' {
        assert g[i..next] == "**/";
      } else {
        assert g[i..next] == "**";
      }
      assert Render(emitted) == RenderToken(emitted[0]) + Render([]);
    } else if i + 2 == |g| && g[i + 1] == '*' {
      assert g[i..next] == "**";
    } else {
      assert g[i..next] == "*";
      assert Render(emitted) == RenderToken(emitted[0]) + Render([]);
    }
  }

  lemma RenderBracketStep(g: string, i: nat)
    requires i < |g| && g[i] == '['
    ensures Render(Step(g, i).0) == g[i..Step(g, i).1]
  {
    var j := CloseFrom(g, ClassScanStart(g, i + 1));
    if j >= |g| {
      RenderOne(Lit('['));
      assert g[i..i + 1] == "[";
    } else {
      var stuff := g[i + 1..j];
      RenderOne(ClassToken(stuff));
      RenderClassToken(stuff);
      Bracketed(g, i, j);
    }
  }

  /** The text from a `[` at `i` to a `]` at `j`. */
  lemma Bracketed(g: string, i: nat, j: nat)
    requires i < j < |g| && g[i] == '[' && g[j] == ']'
    ensures g[i..j + 1] == "[" + g[i + 1..j] + "]"
  {
  }

  /** A one-fragment list renders as that fragment. */
  lemma RenderOne(t: Token)
    ensures Render([t]) == RenderToken(t)
  {
    assert [t][1..] == [];
  }

  /** A class token renders as the bracketed text it was read from. */
  lemma RenderClassToken(stuff: string)
    ensures RenderToken(ClassToken(stuff)) == "[" + stuff + "]"
  {
    if stuff != [] && stuff[0] == '!' {
      RenderParseItems(stuff[1..]);
      assert stuff == "!" + stuff[1..];
    } else {
      RenderParseItems(stuff);
    }
  }

  /** The translation drops no character of the glob: rendering the
      fragments gives the glob back, for every glob without `***` (the only
      globs that reach the translator). */
  lemma {:induction false} RenderTokensFrom(g: string, i: nat)
    requires i <= |g|
    requires !HasTripleStar(g)
    ensures Render(TokensFrom(g, i)) == g[i..]
    decreases |g| - i
  {
    if i < |g| {
      var (emitted, next) := Step(g, i);
      RenderTokensFrom(g, next);
      RenderStep(g, i);
      RenderGlue(g, i, TokensFrom(g, next));
    }
  }

  /** One turn's rendering followed by the rendering of the rest. */
  lemma RenderGlue(g: string, i: nat, rest: seq<Token>)
    requires i < |g| && !HasTripleStar(g)
    requires rest == TokensFrom(g, Step(g, i).1)
    requires Render(Step(g, i).0) == g[i..Step(g, i).1]
    requires Render(rest) == g[Step(g, i).1..]
    ensures Render(TokensFrom(g, i)) == g[i..]
  {
    var (emitted, next) := Step(g, i);
    StepShape(g, i);
    if emitted == [DStar] && rest != [] && rest[0] == Star {
      StarComesFromAsterisk(g, next);
    }
    RenderCat(emitted, rest);
    TokensFromStep(g, i);
    SliceAt(g, i, next);
  }

  lemma TokensFromStep(g: string, i: nat)
    requires i < |g|
    ensures TokensFrom(g, i) == Step(g, i).0 + TokensFrom(g, Step(g, i).1)
  {
  }

  lemma SliceAt<T>(s: seq<T>, i: nat, j: nat)
    requires i <= j <= |s|
    ensures s[i..] == s[i..j] + s[j..]
  {
  }

  /** What one turn can emit: a single fragment, or the pair for a trailing
      `**`, which ends the glob; a lone `.*` is never followed by a `*`. */
  lemma StepShape(g: string, i: nat)
    requires i < |g| && !HasTripleStar(g)
    ensures |Step(g, i).0| == 1 || (Step(g, i).0 == [DStar, Star] && Step(g, i).1 == |g|)
    ensures Step(g, i).0 == [DStar] ==> Step(g, i).1 < |g| && g[Step(g, i).1] != '*'
  {
    if g[i] == '*' && i + 2 < |g| && g[i + 1] == '*' && g[i + 2] != '/' {
      assert !TripleStarAt(g, i);
    }
  }

  /** Rendering distributes over the fragments of one turn and the rest. */
  lemma RenderCat(emitted: seq<Token>, rest: seq<Token>)
    requires |emitted| == 1 || (emitted == [DStar, Star] && rest == [])
    requires emitted == [DStar] ==> rest == [] || rest[0] != Star
    ensures Render(emitted + rest) == Render(emitted) + Render(rest)
  {
    if |emitted| == 2 {
      assert emitted + rest == emitted;
    } else {
      var all := emitted + rest;
      assert all[1..] == rest;
      assert rest != [] ==> all[1] == rest[0];
      assert emitted == [emitted[0]];
      RenderOne(emitted[0]);
    }
  }

  /** Round trip of the whole translation. */
  lemma RenderTokenize(g: string)
    requires !HasTripleStar(g)
    ensures Render(Tokenize(g)) == g
  {
    RenderTokensFrom(g, 0);
  }

  /** A `[` whose class is closed: the fragment is one class, negated iff a
      `!` follows the `[`, whose members are read from the text after that
      `!` up to the first `]` past the scan start, and translation resumes
      after that `]`. The class body is never empty. */
  lemma BracketCloses(g: string, i: nat)
    requires i < |g| && g[i] == '['
    requires CloseFrom(g, ClassScanStart(g, i + 1)) < |g|
    ensures var j := CloseFrom(g, ClassScanStart(g, i + 1));
            var negated := g[i + 1] == '!';
            && i + 1 < j
            && TokensFrom(g, i) == [Class(negated, ParseItems(g[(if negated then i + 2 else i + 1)..j]))]
                                   + TokensFrom(g, j + 1)
  {
    var j := CloseFrom(g, ClassScanStart(g, i + 1));
    var stuff := g[i + 1..j];
    assert i + 1 < j;
    assert stuff[0] == g[i + 1];
    if g[i + 1] == '!' {
      assert stuff[1..] == g[i + 2..j];
    }
    TokensFromStep(g, i);
  }

  /** A `[` with no closing `]` is a literal, and translation resumes right
      after it. */
  lemma UnclosedBracketIsLiteral(g: string, i: nat)
    requires i < |g| && g[i] == '['
    requires CloseFrom(g, ClassScanStart(g, i + 1)) == |g|
    ensures TokensFrom(g, i) == [Lit('[')] + TokensFrom(g, i + 1)
  {
    TokensFromStep(g, i);
  }
}
