/** The slice of `os.path` and `pathlib` that the ignore rules touch, on
    POSIX: the `abspath` fixed-point test applied to a base directory, the
    `PurePath` value a base or a queried path becomes, `str()` of such a
    value, and `relative_to`. Paths arrive already normalised: a `PurePath`
    is its root and its list of components. */
module Paths {
  import opened Text
  import opened Outcomes

  /** A component pathlib keeps: non-empty, separator-free and never `.`
      (pathlib drops `.` components; it keeps `..`). Components hold no
      newline: under `(?m)` a newline in the searched text would let `$`
      match before it and `^` after it, which `Semantics` does not model. */
  predicate IsComponent(c: string) {
    c != [] && '/' !in c && '\n' !in c && c != "."
  }

  type Component = c: string | IsComponent(c) witness "a"

  /** The anchor of a POSIX path. POSIX lets a path start with exactly two
      slashes and mean something else than one, so pathlib and `normpath`
      keep `//` apart from `/`. */
  datatype Root = NoRoot | Slash | DoubleSlash

  datatype PurePath = PurePath(root: Root, parts: seq<Component>)

  function RootText(r: Root): string {
    match r
    case NoRoot => ""
    case Slash => "/"
    case DoubleSlash => "//"
  }

  /** `str(p)`: the root, then the components joined by `/`; an empty
      relative path prints as `.`. */
  function Str(p: PurePath): string {
    if p.root == NoRoot && p.parts == [] then "." else RootText(p.root) + Join(p.parts)
  }

  /** Printing a path and splitting the text after the root at `/` gives
      its components back; the empty relative path prints as `.`. */
  lemma StrSplits(p: PurePath)
    ensures p.root == NoRoot && p.parts == [] ==> Str(p) == "."
    ensures p.parts != [] ==> Split(Str(p)[|RootText(p.root)|..]) == p.parts
  {
    if p.parts != [] {
      SplitJoin(p.parts);
      assert Str(p)[|RootText(p.root)|..] == Join(p.parts);
    }
  }

  /** The printed form of a path holds no newline, so `$` and `^` under
      `(?m)` can only match at its ends. */
  lemma {:induction false} StrHasNoNewline(p: PurePath)
    ensures '\n' !in Str(p)
  {
    JoinHasNoNewline(p.parts);
  }

  lemma {:induction false} JoinHasNoNewline(parts: seq<Component>)
    ensures '\n' !in Join(parts)
    decreases |parts|
  {
    if |parts| > 1 {
      JoinHasNoNewline(parts[1..]);
      assert Join(parts) == parts[0] + "/" + Join(parts[1..]);
    }
  }

  /** A component that survives `normpath` of an absolute path (`..` at the
      root is dropped and elsewhere cancels its parent). */
  predicate IsBaseComponent(c: string) {
    IsComponent(c) && c != ".."
  }

  predicate AllBaseComponents(cs: seq<string>) {
    forall i :: 0 <= i < |cs| ==> IsBaseComponent(cs[i])
  }

  /** `b == os.path.abspath(b)` for a non-empty `b`. A relative `b` never
      passes, whatever the working directory is, because `abspath` makes it
      start with `/`; an absolute `b` passes iff `normpath` leaves it alone:
      one or exactly two leading slashes, then non-empty components that are
      neither `.` nor `..`, and no trailing slash. */
  predicate IsAbsForm(b: string) {
    || b == "/" || b == "//"
    || (|b| > 1 && b[0] == '/' && AllBaseComponents(Split(b[1..])))
    || (|b| > 2 && b[..2] == "//" && AllBaseComponents(Split(b[2..])))
  }

  /** `Path(b)` for a base directory that passed the absoluteness test;
      printing it gives `b` back. */
  function BasePath(b: string): (p: PurePath)
    requires IsAbsForm(b)
    ensures p.root != NoRoot
    ensures forall i :: 0 <= i < |p.parts| ==> p.parts[i] != ".."
    ensures Str(p) == b
  {
    if b == "/" then PurePath(Slash, [])
    else if b == "//" then PurePath(DoubleSlash, [])
    else if b[1] != '/' then
      JoinSplit(b[1..]);
      assert b == "/" + b[1..];
      PurePath(Slash, Split(b[1..]))
    else
      assert b[..2] == "//" by {
        assert !AllBaseComponents(Split(b[1..])) by {
          assert b[1..] == "/" + b[2..];
          assert Split(b[1..])[0] == [];
        }
      }
      JoinSplit(b[2..]);
      assert b == "//" + b[2..];
      PurePath(DoubleSlash, Split(b[2..]))
  }

  /** Every rooted path without `..` prints as a string that passes the
      absoluteness test and converts back to the same path. */
  lemma StrIsAbsForm(p: PurePath)
    requires p.root != NoRoot
    requires forall i :: 0 <= i < |p.parts| ==> p.parts[i] != ".."
    ensures IsAbsForm(Str(p)) && BasePath(Str(p)) == p
  {
    var b := Str(p);
    if p.parts != [] {
      var j := Join(p.parts);
      SplitJoin(p.parts);
      assert j[0] == p.parts[0][0] by {
        if |p.parts| > 1 {
          assert j == p.parts[0] + ("/" + Join(p.parts[1..]));
        }
      }
      if p.root == Slash {
        assert b[1..] == j;
      } else {
        assert b[..2] == "//" && b[2..] == j;
        assert p.parts[0][0] in p.parts[0];
      }
    }
  }

  /** The path `q` appended to `base` (`base / q` for a relative `q`). */
  function Joined(base: PurePath, q: PurePath): PurePath {
    PurePath(base.root, base.parts + q.parts)
  }

  /** `p.relative_to(base)`, `None` where pathlib raises `ValueError`: the
      inverse of appending a relative path to `base`. */
  function RelativeTo(p: PurePath, base: PurePath): (r: Option<PurePath>)
    ensures r.Some? ==> r.value.root == NoRoot && Joined(base, r.value) == p
    ensures r.None? ==> forall q: PurePath :: q.root == NoRoot ==> Joined(base, q) != p
  {
    var n := |base.parts|;
    if p.root == base.root && n <= |p.parts| && p.parts[..n] == base.parts then
      assert base.parts + p.parts[n..] == p.parts;
      Some(PurePath(NoRoot, p.parts[n..]))
    else
      None
  }

  /** Python's `s.startswith('./')`. */
  predicate StartsWithDotSlash(s: string) {
    |s| >= 2 && s[0] == '.' && s[1] == '/'
  }

  /** `s[2:]` when `s` starts with `./`, else `s`. */
  function DropDotSlash(s: string): string {
    if StartsWithDotSlash(s) then s[2..] else s
  }

  /** The printed form of a normalised path never starts with `./`, so the
      strip of that prefix in `IgnoreRule.match` never fires. */
  lemma StrNeverStartsWithDotSlash(p: PurePath)
    ensures !StartsWithDotSlash(Str(p))
    ensures DropDotSlash(Str(p)) == Str(p)
  {
    if p.root == NoRoot && p.parts != [] {
      var c := p.parts[0];
      var j := Join(p.parts);
      if |p.parts| > 1 {
        assert j == c + ("/" + Join(p.parts[1..]));
      }
      assert j[..|c|] == c;
      assert |c| > 1 ==> c[1] in c;
    }
  }
}
