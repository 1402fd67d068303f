# gitignore_parser, modelled in Dafny

The model covers the engine of `gitignore_parser`, a small Python library. It turns
the lines of a `.gitignore` file and a base directory into a predicate that says
whether an absolute path is ignored. The engine has three parts:

- `rule_from_pattern` compiles one line into an `IgnoreRule`. Along the way it:
  - drops blanks, comments and lines with `***`;
  - strips a leading `!`;
  - checks where `**` may stand;
  - drops a bare `/`;
  - records `directory_only` and `anchored`;
  - strips the leading `/`, `**` and `/` and the trailing `/`;
  - translates the remaining glob to a regular expression.
- `fnmatch_pathname_to_regex` performs that translation. `*` becomes "any run
  without a separator", `**` becomes "anything", `**/` becomes "anything then an
  optional separator", `?` becomes one non-separator character, `/` becomes the
  separator, `[...]` becomes a character class, and every other character is escaped.
  Each expression is followed by `$`.
- `IgnoreRule.match` and `parse_gitignore` apply the rules:
  - a path is made relative to the rule's base with `pathlib`;
  - the expression is searched in it;
  - the rules of a file are combined with a short-circuiting `any`.

The modules follow that structure:

| module | file | concept |
|---|---|---|
| `Outcomes` | `outcomes.dfy` | `Option` and `Result` |
| `Text` | `text.dfy` | Python's `str.isspace`, `rstrip()`, split and join on `/` |
| `Paths` | `paths.dfy` | `PurePosixPath`: a root and its components, `str()`, `relative_to`, the strings `abspath` leaves unchanged |
| `Glob` | `glob.dfy` | the regular expression as a sequence of `Token`s; the translation as functions and as a loop method; its inverse `Render` |
| `Semantics` | `semantics.dfy` | the language of a token sequence (`Matches`, `re.search` as `Search`) and the laws of each token |
| `Patterns` | `patterns.dfy` | `rule_from_pattern`, with its early returns and its `IndexError` crashes as outcomes |
| `RuleSet` | `ruleset.dfy` | `IgnoreRule.match`, `any`, and `parse_gitignore` over the lines of a file |
| `Scenarios`, `SimpleScenarios` | `scenarios.dfy`, `scenarios_simple.dfy` | the repository's own test cases, derived from the model |

### How the model follows the code

- A regular expression is never built as text. `Tokenize` yields the sequence of
  pieces the translation appends, and `Matches` gives each piece its meaning.
  `(?ms)` and `$` are modelled by matching to the end of the text.
- Python's exceptions are outcomes. `rule_from_pattern` returns one of:
  - `BaseNotAbsolute` for the `ValueError`;
  - `NoRule` for `None`;
  - `IndexError` where indexing an emptied pattern crashes;
  - `Rule(...)`.

  The crashing lines are exactly those whose body, after the `!`, is one of `""`,
  `*`, `/*`, `**`, `/**`, `**/`, `/**/` or `//` (`/` itself is dropped first).
- `IgnoreRule.match` returns `Err(NotUnderBase)` where `relative_to` raises.
  It returns `Err(BadCharacterRange)` where `re` rejects a class such as `[z-a]`;
  Python raises this when the rule is searched, not when it is compiled.
- `any` stops at the first rule that matches or raises, so an error in a later
  rule can be hidden by an earlier match.
- The regular expression puts `^` in front of `(?ms)`. The model treats it as the
  anchor it was meant to be.

Where the library's description and its code disagree, the model follows the code:

- A `!` line is recorded as a negation but never consulted. Any matching rule
  ignores the path, so `!keep.ignore` after `*.ignore` does not re-include
  `keep.ignore` (`Scenarios.NegationFileIgnores`). `tests.py:88` expects otherwise.
- `directory_only` is never consulted either. A directory rule matches its own
  name, and descendants only when the expression itself reaches them.
- `\#` is not unescaped. The rule `\#imnocomment` needs a literal backslash, so
  it does not ignore `#imnocomment` (`SimpleScenarios.EscapedHashMisses`).
  `tests.py:77` expects otherwise.
- Trailing spaces are not stripped or unescaped. They stay part of the expression.
- A path outside a rule's base is an error (`ValueError`), not "not ignored".
- Unanchored expressions are searched at every character offset, not only at
  component boundaries.

## Model

| member | source | states |
|---|---|---|
| Text.RStrip | gitignore_parser.py:59 | `rstrip()` keeps a prefix of the line, removes only whitespace, and leaves no whitespace at the end |
| Text.RStripIsSlash | gitignore_parser.py:59 | the stripped pattern is `/` exactly when the pattern is `/` followed only by whitespace |
| Text.JoinSplit | gitignore_parser.py:110 | joining the `/`-separated pieces of a text gives back the text |
| Text.SplitJoin | gitignore_parser.py:110 | splitting the join of slash-free pieces gives back the pieces |
| Paths.BasePath | gitignore_parser.py:86 | every string that `abspath` leaves unchanged reads as an absolute path, with no `..`, that prints back as that same string |
| Paths.StrIsAbsForm | gitignore_parser.py:32-33 | every absolute path without `..` prints as a string `abspath` leaves unchanged (`IsAbsForm`), and that string reads back as the path |
| Paths.StrSplits | gitignore_parser.py:108-111 | `str()` of a path is its root followed by text that splits at `/` back into its components; the empty relative path prints as `.` |
| Paths.StrHasNoNewline | gitignore_parser.py:108-115 | the text handed to `re.search` never holds a newline, so under `(?m)` both `$` and a leading `^` can match only at its ends |
| Paths.RelativeTo | gitignore_parser.py:110 | `relative_to` returns the relative path that, appended to the base, gives the path, and raises exactly when there is none |
| Paths.StrNeverStartsWithDotSlash | gitignore_parser.py:113-114 | a printed path never starts with `./`, so the strip at these lines never changes it |
| Glob.ScanClass | gitignore_parser.py:156-162 | the class scan skips a leading `!` and then a leading `]`, and stops at the next `]` or the end |
| Glob.TranslateStep | gitignore_parser.py:137-174 | one pass of the loop emits the pieces and advances the index exactly as the functional step does |
| Glob.Translate | gitignore_parser.py:127-177 | the loop yields exactly the token sequence of the whole glob |
| Glob.RenderParseItems | gitignore_parser.py:166-172 | the members `ParseItems` reads from a class, written back, give the text between the brackets |
| Glob.RenderStep | gitignore_parser.py:137-174 | every piece one step (`Step`) emits, written back as glob syntax, is exactly the slice of the glob that step consumed |
| Glob.RenderAsteriskStep | gitignore_parser.py:139-150 | the pieces a `*` step emits (`AsteriskStep`) write back to the `*`, `**` or `**/` it consumed |
| Glob.RenderBracketStep | gitignore_parser.py:155-172 | the pieces a `[` step emits (`BracketStep`) write back to the bracketed text it consumed, or to the lone `[` |
| Glob.RenderTokensFrom | gitignore_parser.py:136-174 | from any index on, the emitted pieces write back to the rest of the glob |
| Glob.RenderTokenize | gitignore_parser.py:122-177 | the translation (`Tokenize`) loses nothing: on every glob without `***` the tokens write back to the glob |
| Glob.StepShape | gitignore_parser.py:139-150 | a step emits one piece, or `.*` then `[^/]*` for a trailing `**`; a lone `.*` is never followed by `*` |
| Glob.BracketCloses | gitignore_parser.py:155-172 | a `[` whose class closes emits one class, negated exactly when `!` follows the `[`, read from the text up to the first `]` after the optional `!` and `]`; translation resumes after that `]` |
| Glob.UnclosedBracketIsLiteral | gitignore_parser.py:163-164 | every `[` without a closing `]` is a literal `[`, and translation resumes right after it |
| Semantics.FirstIsMember | gitignore_parser.py:156-171 | in every closed class, the first character after the `[` and any `!` is listed whenever the class compiles: a member of `[...]`, excluded by `[!...]`, which is negated exactly when `!` follows the `[`; this covers a `]` right after `[` or `[!` (which the scan skips) and a leading `^` (which is escaped) |
| Semantics.DashMakesRange | gitignore_parser.py:156-172 | a closed class whose body, after any `!`, starts `x-y` holds the range from `x` to `y` first: every character between them is a member of `[...]` and excluded by `[!...]`, also when `x` is a `]` the scan skips |
| Semantics.SearchSuffix | gitignore_parser.py:115 | an unanchored search (`Search`) succeeds exactly when the expression matches (`Matches`) some suffix of the text |
| Semantics.StarSplits | gitignore_parser.py:148 | `[^/]*` then the rest matches exactly when a separator-free prefix is followed by a match of the rest |
| Semantics.DStarSplits | gitignore_parser.py:143 | `.*` then the rest matches exactly when some suffix matches the rest |
| Semantics.DStarSepSplits | gitignore_parser.py:143-146 | `.*[/]?` then the rest matches exactly when the rest matches after some prefix, optionally followed by one separator |
| Semantics.DStarSepIsDStar | gitignore_parser.py:143-146 | `.*[/]?` accepts exactly what `.*` accepts in front of the same rest |
| Semantics.TrailingDoubleStarMatchesAll | gitignore_parser.py:141-150 | the pair a trailing `**` emits, `.*[^/]*`, matches every text |
| Semantics.PlainGlobMatchesItself | gitignore_parser.py:151-174 | a glob without `*`, `?` or `[` matches exactly its own text |
| Semantics.StarInGlob | gitignore_parser.py:139-150 | a `*` at any position, not followed by another `*`, matches a separator-free stretch of the text followed by whatever the rest of the glob matches |
| Semantics.QuestionMarkInGlob | gitignore_parser.py:151-152 | a `?` at any position matches one character other than `/`, followed by whatever the rest of the glob matches |
| Semantics.SlashInGlob | gitignore_parser.py:153-154 | a `/` at any position matches exactly one `/`, followed by whatever the rest of the glob matches |
| Semantics.LiteralInGlob | gitignore_parser.py:173-174 | any other character except `[` at any position matches exactly itself, followed by whatever the rest of the glob matches |
| Semantics.ClassInGlob | gitignore_parser.py:155-172 | a closed class at any position matches one character it admits (or, negated, does not list), followed by whatever the glob after its `]` matches |
| Semantics.DoubleStarInGlob | gitignore_parser.py:139-143 | a `**` at any position that is neither at the end nor followed by `/` matches any text, separators included, followed by whatever the rest of the glob matches |
| Semantics.DoubleStarSlashInGlob | gitignore_parser.py:139-146 | a `**` followed by `/` at any position matches any text, then an optional `/`, then whatever the rest of the glob matches; the optional `/` changes nothing, so it matches what any text then the rest matches |
| Semantics.TrailingDoubleStarInGlob | gitignore_parser.py:139-150 | a `**` that ends the glob matches every remaining text |
| Semantics.LoneStar | gitignore_parser.py:147-150 | the glob `*` alone matches exactly the texts without a separator |
| Semantics.LoneQuestionMark | gitignore_parser.py:151-152 | the glob `?` alone matches exactly one character that is not a separator |
| Semantics.LoneDoubleStar | gitignore_parser.py:141-150 | a lone `**` matches every text |
| Semantics.LoneDoubleStarSlash | gitignore_parser.py:141-146 | a lone `**/` matches every text |
| Semantics.LoneSlash | gitignore_parser.py:153-154 | the glob `/` alone matches exactly the text `/` |
| Semantics.LitsThen | gitignore_parser.py:173-174 | escaped characters in front of a rest consume exactly themselves |
| Semantics.LitsExactly | gitignore_parser.py:173-176 | escaped characters alone match exactly their own text |
| Semantics.ClassAlone | gitignore_parser.py:172 | a class matches exactly one character that is in it, or not in it when negated |
| Patterns.DoubleStarMatches | gitignore_parser.py:51 | every match `re.finditer(r'\*\*')` reports is the start of a `**` at or after the scan start |
| Patterns.DoubleStarMatchesFindAll | gitignore_parser.py:51 | `re.finditer(r'\*\*')` on a pattern without `***` finds every position where `**` starts |
| Patterns.DoubleStarsAcceptedIffEvery | gitignore_parser.py:51-56 | the loop accepts the pattern exactly when every `**` is at the start, at the end, or between two `/` |
| Patterns.Derive | gitignore_parser.py:62-74 | the flags and stripping raise `IndexError` exactly on the crash forms; `directory_only` is "ends in `/`"; `anchored` is "has a `/` before the last character and does not start with `**` or `/**`"; the glob is the pattern minus the longest of `/`, `**`, `//`, `/**`, `**/` and `/**/` it starts with, and minus one trailing `/` when what remains ends in one |
| Patterns.StripsMostUnique | gitignore_parser.py:66-74 | that reading of a pattern as lead, glob and trailing `/` is unique, so it determines the glob |
| Patterns.RuleFromPattern | gitignore_parser.py:32-88 | a base not left unchanged by `abspath` raises; blank, comment and `***` lines give no rule; a rule keeps the original line and source, negation is "starts with `!`", and the base prints back as given |
| Patterns.RuleFromPatternOutcomes | gitignore_parser.py:49-73 | a line that passes the first filters gives no rule exactly when a `**` is misplaced or the body is `/` plus whitespace, and crashes exactly when the remaining body is a crash form |
| Patterns.RuleShape | gitignore_parser.py:62-88 | every rule's flags are those of its body, and its expression is the translation (`Tokenize`) of the one glob left when the body loses its longest lead form and a trailing `/`; those fragments write back to that glob |
| Patterns.BodyNoTripleStar | gitignore_parser.py:41-46 | dropping the `!` cannot create a `***` |
| Patterns.CrashFormNotBareSlash | gitignore_parser.py:58-74 | only the bare `/` crash form is caught by the line-59 filter |
| RuleSet.MatchRule | gitignore_parser.py:107-117 | `match` raises `ValueError` exactly when the path is not under the base; it raises `re.error` exactly when the path is under the base and a class range is reversed (`Compiles` fails); otherwise it answers whether the expression is found in the relative text, from the start when anchored |
| RuleSet.AnyMatch | gitignore_parser.py:21 | the matcher answers false exactly when every rule answers false; otherwise the first rule that does not answer false decides, with its true or its error |
| RuleSet.Any | gitignore_parser.py:21 | `any` is false exactly when every outcome is false; otherwise it is the first outcome that is not false |
| RuleSet.AnyWithoutErrors | gitignore_parser.py:21 | without errors, `any` is true exactly when some rule matches |
| RuleSet.FirstRuleDecides | gitignore_parser.py:21 | a match by the first rule decides the answer whatever the later rules do |
| RuleSet.AnyMatchPermutation | gitignore_parser.py:21 | when no rule raises, the order of the rules does not change the answer |
| RuleSet.AnyMatchIgnoresFlags | gitignore_parser.py:107-117 | `negation` and `directory_only` never influence the answer: rules with the same expression, anchoring and base answer alike |
| RuleSet.SameMatcherMatches | gitignore_parser.py:107-117 | `match` reads only the expression, anchoring and base of a rule |
| RuleSet.OutsideBaseRaises | gitignore_parser.py:107-110 | a path outside the common base raises instead of answering false |
| RuleSet.BaseItselfIsDot | gitignore_parser.py:109-117 | the base directory itself is tested as the relative text `.` |
| RuleSet.CompileLinesTagged | gitignore_parser.py:17-18 | with an absolute base, no line raises `ValueError`, and every rule carries its line number and the base |
| RuleSet.KeptInFileOrder | gitignore_parser.py:19-20 | the kept rules are in strictly increasing line order |
| RuleSet.KeptComplete | gitignore_parser.py:19-20 | every line that gives a rule contributes that rule |
| RuleSet.CollectRules | gitignore_parser.py:14-21 | parsing fails exactly when some line raises, and then reports the first such line with its exception (`IndexError`, or `ValueError` for a base that is not absolute); otherwise it keeps exactly the rules, in file order |
| RuleSet.ParseGitignore | gitignore_parser.py:8-21 | parsing fails exactly when a line crashes; each rule it returns is what its own line compiles to, based at the given directory and tagged with that line |
| RuleSet.KeptTraced | gitignore_parser.py:14-20 | every kept rule traces back to the line it names |
| Scenarios.CrashingLines | gitignore_parser.py:62-73 | the lines `!`, `*`, `/*`, `**`, `**/` and `//` make `rule_from_pattern` raise `IndexError` |
| Scenarios.BlankLineNoRule | gitignore_parser.py:38-39 | a whitespace-only line gives no rule |
| Scenarios.OrdinaryLine | gitignore_parser.py:44-88 | a line of ordinary characters, optionally after `!`, gives an unanchored, non-directory rule of those characters escaped |
| Scenarios.HelloStarRule | tests.py:22-26 | `hello.*` compiles to escaped `hello.` followed by `[^/]*`, unanchored |
| Scenarios.WildcardHitsFile | tests.py:27-30 | `hello.*` ignores `hello.txt` and `hello.` |
| Scenarios.WildcardHitsNested | tests.py:29 | `hello.*` ignores `dir/hello.txt` |
| Scenarios.WildcardMisses | tests.py:31-32 | `hello.*` does not ignore `hello` or `helloX` |
| Scenarios.AnchoredHelloCompiles | tests.py:34-38 | `/hello.*` compiles to the same expression as `hello.*`, anchored |
| Scenarios.AnchoredDecides | tests.py:34-41 | the anchored rule ignores exactly the relative paths that start with `hello.` and have no separator after it |
| Scenarios.AnchoredHits | tests.py:39 | `/hello.*` ignores `hello.txt` |
| Scenarios.AnchoredMisses | tests.py:41 | `/hello.*` does not ignore `a/hello.java` |
| Scenarios.StarIgnoreCompiles | tests.py:79-86 | line 2 of the negation file, `*.ignore`, compiles to `[^/]*` then escaped `.ignore` |
| Scenarios.KeepCompiles | tests.py:79-86 | line 3, `!keep.ignore`, compiles to a negated rule of `keep.ignore` escaped |
| Scenarios.StarIgnoreMatches | tests.py:87-89 | `*.ignore` ignores every entry whose name ends in `.ignore` |
| Scenarios.NegationFileIgnores | tests.py:79-89 | with the code as written, the negation file ignores `keep.ignore` too |
| SimpleScenarios.PycTokens | tests.py:14 | `*.py[cod]` translates to `[^/]*`, escaped `.py`, then the class `[cod]` |
| SimpleScenarios.PycMatches | tests.py:14 | `*.py[cod]` matches exactly the texts ending in `.pyc`, `.pyo` or `.pyd` with no separator before that ending |
| SimpleScenarios.PycHits | tests.py:14 | searched unanchored, `*.py[cod]` finds exactly the texts ending in `.pyc`, `.pyo` or `.pyd` |
| SimpleScenarios.PycCompiles | tests.py:12-16 | line 2, `*.py[cod]`, compiles to that unanchored, non-directory rule |
| SimpleScenarios.PycDecides | tests.py:17-19 | the `*.py[cod]` rule ignores exactly the paths whose relative text ends in `.pyc`, `.pyo` or `.pyd`, at any depth |
| SimpleScenarios.OrdinaryDirLine | gitignore_parser.py:62-88 | an ordinary name followed by `/` gives a directory-only, unanchored rule of that name escaped |
| SimpleScenarios.LitsRuleDecides | gitignore_parser.py:107-117 | an unanchored rule of escaped characters ignores exactly the paths whose relative text ends with those characters |
| SimpleScenarios.PycacheCompiles | tests.py:13 | line 1, `__pycache__/`, compiles to a directory-only rule of the escaped name |
| SimpleScenarios.PycacheHit | tests.py:20 | `__pycache__/` ignores the entry `__pycache__` |
| SimpleScenarios.SimpleFile | tests.py:11-19 | the two-line file does not ignore `main.py` but ignores `main.pyc` and `dir/main.pyc` |
| SimpleScenarios.QuestionMarkRule | gitignore_parser.py:151-152 | the line `?` compiles to an unanchored rule of one non-separator character |
| SimpleScenarios.QuestionMarkIgnoresBase | gitignore_parser.py:109-117 | the rule of `?` ignores the base directory itself, whose relative text is `.` |
| SimpleScenarios.EscapedHashCompiles | tests.py:71 | `\#imnocomment` is an ordinary line whose rule keeps the backslash |
| SimpleScenarios.EscapedHashMisses | tests.py:77 | with the code as written, that rule does not ignore `#imnocomment` |
| SimpleScenarios.CommentNoRule | tests.py:69-75 | `#realcomment` gives no rule |

## Left out

- Reading the file: opening it, reading it line by line, removing the `\n` and counting lines (`gitignore_parser.py:12-16`). Because of this, a file is a sequence of lines.
- `base_dir=None` defaulting to `dirname(full_path)`, and the `abspath` call at line 17. Both depend on the file name and the working directory, so `ParseGitignore` takes a base that is already absolute and normalised.
- `os.sep` and `os.altsep`: the separator is `/`, as on POSIX.
- Lone surrogates in paths and lines. A Python `str` can hold them, for example after `surrogateescape` decoding of a file name, but a Dafny `char` is a Unicode scalar value and cannot. No operation of the model depends on this.
- `Path(abs_path)` normalisation of the queried path (repeated or trailing `/`, `.` components, as in `tests.py:28`). Queries are given as `PurePath` values, which are already normal.
- `(?ms)` multiline mode: with it, `$` matches before every newline and `^` after every newline. Path components in the model hold no newline (`Paths.StrHasNoNewline`), so both match only at the ends of the searched text.
- IsAbsForm: a base directory whose text holds a newline counts as not absolute, where `abspath` would accept it. Such a base could only contain paths with a newline in them, which the model does not represent.
- Newer versions of Python reject `^` placed before the inline flags. The model anchors as the older ones did.
- Class syntax beyond members and ranges. A backslash in a class reaches `re` doubled (line 166), so it stands for itself, and `re` has no `[:alpha:]`-style sets. What is left out is the `FutureWarning` `re` gives for what may later read as a nested set or a set operation inside a class; it changes no answer. `Glob.RenderParseItems` keeps the class text exactly, and `Semantics.InClass` reads it as single characters and `a-b` ranges.
- `IgnoreRule.__str__`, `__repr__`, the unused `whitespace_re`, and `setup.py`: none of them affects matching.
- Negation override, trailing-space handling, `\#` unescaping, directory-only descendant matching, and segment-boundary anchoring are not modelled as intended behaviour. The code does none of these things, and the model follows the code (see above).
