/**
 * `Autoloader::truepath`: lexical path normalisation followed by one
 * `readlink` step. Both `/` and `\` separate segments; `.` segments vanish,
 * `..` pops the last kept segment (and does nothing at the root); the result
 * starts with `/` and has no trailing separator unless it is the root.
 */
module Paths {

  predicate IsSeparator(c: char) {
    c == '/' || c == '\\'
  }

  /** A path without `:` that does not start with `/` is taken relative to
      the working directory. */
  function Absolutize(cwd: string, path: string): string {
    if ':' !in path && (|path| == 0 || path[0] != '/') then cwd + "/" + path else path
  }

  /** `str_replace(array('/', '\\'), '/', $path)` */
  function Unify(path: string): (r: string)
    ensures |r| == |path|
    ensures forall i :: 0 <= i < |r| ==> r[i] == if IsSeparator(path[i]) then '/' else path[i]
  {
    seq(|path|, i requires 0 <= i < |path| => if IsSeparator(path[i]) then '/' else path[i])
  }

  /** `explode($sep, $s)`: the pieces between separators, empty ones included. */
  function Split(s: string, sep: char): (r: seq<string>)
    ensures |r| >= 1
  {
    if s == [] then [""]
    else
      var rest := Split(s[1..], sep);
      if s[0] == sep then [""] + rest else [[s[0]] + rest[0]] + rest[1..]
  }

  /** `array_filter($parts, 'strlen')` */
  function DropEmpty(parts: seq<string>): (r: seq<string>)
    ensures forall p :: p in r ==> p in parts && p != ""
  {
    if parts == [] then []
    else if parts[0] == "" then DropEmpty(parts[1..])
    else [parts[0]] + DropEmpty(parts[1..])
  }

  /** One iteration of the loop over the path's parts. */
  function Step(absolutes: seq<string>, part: string): seq<string> {
    if part == "." then absolutes
    else if part == ".." then (if absolutes == [] then [] else absolutes[..|absolutes| - 1])
    else absolutes + [part]
  }

  function ResolveFrom(absolutes: seq<string>, parts: seq<string>): seq<string>
    decreases parts
  {
    if parts == [] then absolutes else ResolveFrom(Step(absolutes, parts[0]), parts[1..])
  }

  /** `implode('/', $segments)` */
  function Join(segments: seq<string>): string {
    if segments == [] then ""
    else if |segments| == 1 then segments[0]
    else segments[0] + "/" + Join(segments[1..])
  }

  /** The non-empty parts of a path, split at either separator. */
  function Parts(p: string): seq<string> {
    DropEmpty(Split(Unify(p), '/'))
  }

  /** The segments the loop keeps for `path`. */
  function Segments(cwd: string, path: string): seq<string> {
    ResolveFrom([], Parts(Absolutize(cwd, path)))
  }

  /** The lexical part of `truepath`. */
  function Lexical(cwd: string, path: string): string {
    "/" + Join(Segments(cwd, path))
  }

  /** `truepath`: the lexical result, replaced by its link target when it
      names an existing symbolic link. */
  function Resolved(cwd: string, links: map<string, string>, path: string): string {
    var p := Lexical(cwd, path);
    if p in links then links[p] else p
  }

  /** A segment that normalisation keeps. */
  predicate Clean(segment: string) {
    segment != "" && segment != "." && segment != ".." && forall c :: c in segment ==> !IsSeparator(c)
  }

  /** Starts with the separator, and is either the root or a sequence of
      clean segments: no empty, `.` or `..` segment, no `\`, no trailing `/`. */
  predicate Canonical(p: string) {
    |p| >= 1 && p[0] == '/' && (p == "/" || forall s :: s in Split(p[1..], '/') ==> Clean(s))
  }

  method Truepath(cwd: string, links: map<string, string>, path: string) returns (r: string)
    ensures r == Resolved(cwd, links, path)
  {
    var p := Absolutize(cwd, path);
    p := Unify(p);
    var parts := DropEmpty(Split(p, '/'));
    var absolutes: seq<string> := [];
    var i := 0;
    while i < |parts|
      invariant 0 <= i <= |parts|
      invariant ResolveFrom(absolutes, parts[i..]) == ResolveFrom([], parts)
    {
      var part := parts[i];
      if part == "." {
      } else if part == ".." {
        if absolutes != [] {
          absolutes := absolutes[..|absolutes| - 1];
        }
      } else {
        absolutes := absolutes + [part];
      }
      i := i + 1;
    }
    r := "/" + Join(absolutes);
    if r in links {
      r := links[r];
    }
  }

  // ---------------------------------------------------------------------
  // Splitting and joining

  lemma {:induction false} SplitNoSeparator(a: string, sep: char)
    requires sep !in a
    ensures Split(a, sep) == [a]
  {
    if a != [] {
      assert forall c :: c in a[1..] ==> c in a;
      SplitNoSeparator(a[1..], sep);
      assert a == [a[0]] + a[1..];
    }
  }

  lemma {:induction false} SplitConcat(a: string, b: string, sep: char)
    ensures Split(a + [sep] + b, sep) == Split(a, sep) + Split(b, sep)
  {
    if a == [] {
      assert a + [sep] + b == [sep] + b;
      assert ([sep] + b)[1..] == b;
    } else {
      assert (a + [sep] + b)[1..] == a[1..] + [sep] + b;
      SplitConcat(a[1..], b, sep);
    }
  }

  lemma {:induction false} JoinSplit(s: string)
    ensures Join(Split(s, '/')) == s
  {
    if s != [] {
      JoinSplit(s[1..]);
      var rest := Split(s[1..], '/');
      if s[0] != '/' && |rest| > 1 {
        assert Join(rest) == rest[0] + "/" + Join(rest[1..]);
      }
    }
  }

  lemma {:induction false} SplitJoin(segments: seq<string>)
    requires segments != []
    requires forall s :: s in segments ==> '/' !in s
    ensures Split(Join(segments), '/') == segments
  {
    if |segments| == 1 {
      SplitNoSeparator(segments[0], '/');
    } else {
      SplitJoin(segments[1..]);
      SplitNoSeparator(segments[0], '/');
      SplitConcat(segments[0], Join(segments[1..]), '/');
      assert segments[0] + "/" + Join(segments[1..]) == segments[0] + ['/'] + Join(segments[1..]);
    }
  }

  lemma {:induction false} DropEmptyConcat(x: seq<string>, y: seq<string>)
    ensures DropEmpty(x + y) == DropEmpty(x) + DropEmpty(y)
  {
    if x != [] {
      assert (x + y)[1..] == x[1..] + y;
      DropEmptyConcat(x[1..], y);
    } else {
      assert x + y == y;
    }
  }

  lemma {:induction false} DropEmptyKeepsNonEmpty(parts: seq<string>)
    requires forall p :: p in parts ==> p != ""
    ensures DropEmpty(parts) == parts
  {
    if parts != [] {
      assert forall p :: p in parts[1..] ==> p in parts;
      DropEmptyKeepsNonEmpty(parts[1..]);
      assert parts[0] in parts;
    }
  }

  lemma UnifyConcat(a: string, b: string)
    ensures Unify(a + b) == Unify(a) + Unify(b)
  {
    assert forall i :: 0 <= i < |a + b| ==> Unify(a + b)[i] == (Unify(a) + Unify(b))[i];
  }

  lemma UnifyIdentity(s: string)
    requires forall c :: c in s ==> c != '\\'
    ensures Unify(s) == s
  {
    forall i | 0 <= i < |s|
      ensures Unify(s)[i] == s[i]
    {
      assert s[i] in s;
      assert !IsSeparator(s[i]) || s[i] == '/';
    }
  }

  // ---------------------------------------------------------------------
  // The loop over parts

  lemma {:induction false} ResolveFromConcat(absolutes: seq<string>, xs: seq<string>, ys: seq<string>)
    ensures ResolveFrom(absolutes, xs + ys) == ResolveFrom(ResolveFrom(absolutes, xs), ys)
    decreases xs
  {
    if xs == [] {
      assert xs + ys == ys;
    } else {
      assert (xs + ys)[1..] == xs[1..] + ys;
      ResolveFromConcat(Step(absolutes, xs[0]), xs[1..], ys);
    }
  }

  lemma {:induction false} ResolveFromClean(absolutes: seq<string>, parts: seq<string>)
    requires forall s :: s in absolutes ==> Clean(s)
    requires forall s :: s in parts ==> s != "" && '/' !in s && '\\' !in s
    ensures forall s :: s in ResolveFrom(absolutes, parts) ==> Clean(s)
    decreases parts
  {
    if parts != [] {
      var next := Step(absolutes, parts[0]);
      assert parts[0] in parts;
      forall s | s in next
        ensures Clean(s)
      {
        if parts[0] == ".." && absolutes != [] {
          assert s in absolutes[..|absolutes| - 1];
          assert forall t :: t in absolutes[..|absolutes| - 1] ==> t in absolutes;
        } else if parts[0] != "." && parts[0] != ".." {
          assert s in absolutes || s == parts[0];
        }
      }
      assert forall p :: p in parts[1..] ==> p in parts;
      ResolveFromClean(next, parts[1..]);
    }
  }

  lemma {:induction false} ResolveFromKeepsClean(absolutes: seq<string>, parts: seq<string>)
    requires forall s :: s in parts ==> Clean(s)
    ensures ResolveFrom(absolutes, parts) == absolutes + parts
    decreases parts
  {
    if parts != [] {
      assert parts[0] in parts;
      assert forall p :: p in parts[1..] ==> p in parts;
      ResolveFromKeepsClean(absolutes + [parts[0]], parts[1..]);
      assert absolutes + [parts[0]] + parts[1..] == absolutes + parts;
    }
  }

  lemma UnifiedPartsHaveNoSeparator(p: string)
    ensures forall s :: s in Parts(p) ==> s != "" && '/' !in s && '\\' !in s
  {
    SplitUnifiedHasNoSeparator(Unify(p));
  }

  lemma {:induction false} SplitUnifiedHasNoSeparator(u: string)
    requires forall c :: c in u ==> c != '\\'
    ensures forall s :: s in Split(u, '/') ==> '/' !in s && '\\' !in s
  {
    if u != [] {
      assert forall c :: c in u[1..] ==> c in u;
      SplitUnifiedHasNoSeparator(u[1..]);
      var rest := Split(u[1..], '/');
      assert u[0] in u;
      if u[0] != '/' {
        assert rest[0] in rest;
        assert forall c :: c in [u[0]] + rest[0] ==> c == u[0] || c in rest[0];
        assert forall t :: t in rest[1..] ==> t in rest;
      }
    }
  }

  // ---------------------------------------------------------------------
  // Properties of truepath

  /** The lexical result starts with `/`, has no empty, `.` or `..` segment,
      no `\`, and no trailing separator unless it is the root. */
  lemma LexicalIsCanonical(cwd: string, path: string)
    ensures Canonical(Lexical(cwd, path))
  {
    var segments := Segments(cwd, path);
    UnifiedPartsHaveNoSeparator(Absolutize(cwd, path));
    ResolveFromClean([], Parts(Absolutize(cwd, path)));
    var p := Lexical(cwd, path);
    if segments != [] {
      assert p[1..] == Join(segments);
      forall s | s in segments
        ensures '/' !in s
      {
        assert Clean(s);
      }
      SplitJoin(segments);
    } else {
      assert p == "/";
    }
  }

  lemma {:induction false} NoBackslashInJoin(segments: seq<string>)
    requires forall s :: s in segments ==> Clean(s)
    ensures '\\' !in Join(segments)
  {
    if segments != [] {
      assert segments[0] in segments;
      assert Clean(segments[0]);
      if |segments| > 1 {
        assert forall t :: t in segments[1..] ==> t in segments;
        NoBackslashInJoin(segments[1..]);
      }
    }
  }

  /** The parts of a canonical path are its clean segments. */
  lemma CanonicalParts(p: string)
    requires Canonical(p)
    ensures Parts(p) == DropEmpty(Split(p[1..], '/'))
    ensures forall s :: s in Parts(p) ==> Clean(s)
    ensures Join(Parts(p)) == p[1..]
  {
    var tail := p[1..];
    assert p == "/" + tail;
    JoinSplit(tail);
    if p != "/" {
      NoBackslashInJoin(Split(tail, '/'));
      DropEmptyKeepsNonEmpty(Split(tail, '/'));
    } else {
      assert tail == "";
    }
    assert '\\' !in tail;
    UnifyIdentity(p);
    SplitConcat("", tail, '/');
    assert "" + ['/'] + tail == p;
    var xs := Split(tail, '/');
    assert Split(p, '/') == [""] + xs;
    assert ([""] + xs)[1..] == xs;
  }

  /** A canonical path normalises to itself, whatever the working
      directory. */
  lemma CanonicalIsFixed(cwd: string, p: string)
    requires Canonical(p)
    ensures Lexical(cwd, p) == p
  {
    assert Absolutize(cwd, p) == p;
    CanonicalParts(p);
    ResolveFromKeepsClean([], Parts(p));
    assert [] + Parts(p) == Parts(p);
    assert p == "/" + p[1..];
  }

  /** Normalising a normalised path gives it back, whatever the working
      directory. */
  lemma LexicalIdempotent(cwd: string, cwd': string, path: string)
    ensures Lexical(cwd', Lexical(cwd, path)) == Lexical(cwd, path)
  {
    LexicalIsCanonical(cwd, path);
    CanonicalIsFixed(cwd', Lexical(cwd, path));
  }

  /** A path without `:` that does not start with `/` is resolved below the
      working directory: it normalises like the working directory, a
      separator and the path, given an absolute working directory. */
  lemma RelativeToCwd(cwd: string, cwd': string, path: string)
    requires ':' !in path && (path == "" || path[0] != '/')
    requires ':' !in cwd && |cwd| > 0 && cwd[0] == '/'
    ensures Lexical(cwd, path) == Lexical(cwd', cwd + "/" + path)
  {
    assert (cwd + "/" + path)[0] == '/';
    assert ':' !in cwd + "/" + path;
  }

  /** The parts of `a + "/" + b` are those of `a` followed by those of `b`. */
  lemma PartsConcat(a: string, b: string)
    ensures Parts(a + "/" + b) == Parts(a) + Parts(b)
  {
    UnifyConcat(a + "/", b);
    UnifyConcat(a, "/");
    assert Unify("/") == "/";
    assert Unify(a + "/" + b) == Unify(a) + ['/'] + Unify(b);
    SplitConcat(Unify(a), Unify(b), '/');
    DropEmptyConcat(Split(Unify(a), '/'), Split(Unify(b), '/'));
  }

  /** The parts of a single clean segment. */
  lemma PartsOfSegment(s: string)
    requires s != "" && '/' !in s && '\\' !in s
    ensures Parts(s) == [s]
  {
    UnifyIdentity(s);
    SplitNoSeparator(s, '/');
    assert Split(Unify(s), '/') == [s];
    assert [s][1..] == [];
    assert DropEmpty([s]) == [s] + DropEmpty([]);
  }

  /** What `Absolutize` puts in front of `x` in a path `x + rest`, where
      `rest` starts with a separator; `colonAfter` says whether `rest`
      contains a `:`. */
  function AbsHead(cwd: string, x: string, colonAfter: bool): string {
    if !colonAfter && ':' !in x && x != "" && x[0] != '/' then cwd + "/" + x else x
  }

  lemma AbsolutizeConcat(cwd: string, x: string, rest: string)
    requires |rest| > 0 && rest[0] == '/'
    ensures Absolutize(cwd, x + rest) == AbsHead(cwd, x, ':' in rest) + rest
  {
    if x == "" {
      assert x + rest == rest;
    } else {
      assert (x + rest)[0] == x[0];
      assert (':' in x + rest) == (':' in x || ':' in rest);
    }
  }

  /** The segments of `x + "/" + y`, in terms of those of its two sides. */
  lemma SegmentsConcat(cwd: string, x: string, y: string)
    ensures Segments(cwd, x + "/" + y)
         == ResolveFrom(ResolveFrom([], Parts(AbsHead(cwd, x, ':' in y))), Parts(y))
  {
    AbsolutizeConcat(cwd, x, "/" + y);
    assert x + ("/" + y) == x + "/" + y;
    assert (':' in "/" + y) == (':' in y);
    var head := AbsHead(cwd, x, ':' in y);
    assert head + ("/" + y) == head + "/" + y;
    PartsConcat(head, y);
    ResolveFromConcat([], Parts(head), Parts(y));
  }

  /** A `.` segment has no effect: `a/./b` and `a/b` normalise alike. */
  lemma DotSegmentVanishes(cwd: string, x: string, y: string)
    ensures Lexical(cwd, x + "/./" + y) == Lexical(cwd, x + "/" + y)
  {
    DotSegmentSkipped(cwd, x, y);
  }

  lemma DotSegmentSkipped(cwd: string, x: string, y: string)
    ensures Segments(cwd, x + "/./" + y) == Segments(cwd, x + "/" + y)
  {
    var y' := "./" + y;
    var head := ResolveFrom([], Parts(AbsHead(cwd, x, ':' in y)));
    calc {
      Segments(cwd, x + "/./" + y);
      { assert x + "/./" + y == x + "/" + y'; }
      Segments(cwd, x + "/" + y');
      { SegmentsConcat(cwd, x, y');
        assert (':' in y') == (':' in y); }
      ResolveFrom(head, Parts(y'));
      { assert y' == "." + "/" + y;
        PartsConcat(".", y);
        PartsOfSegment("."); }
      ResolveFrom(head, ["."] + Parts(y));
      { ResolveFromConcat(head, ["."], Parts(y)); }
      ResolveFrom(ResolveFrom(head, ["."]), Parts(y));
      { SegmentsConcat(cwd, x, y); }
      Segments(cwd, x + "/" + y);
    }
  }

  /** A `..` segment cancels the clean segment before it: `a/s/../b` and
      `a/b` normalise alike. */
  lemma DotDotCancels(cwd: string, x: string, s: string, y: string)
    requires Clean(s) && ':' !in s
    ensures Lexical(cwd, x + "/" + s + "/../" + y) == Lexical(cwd, x + "/" + y)
  {
    var y' := s + "/" + (".." + "/" + y);
    assert x + "/" + s + "/../" + y == x + "/" + y';
    assert (':' in y') == (':' in y);
    SegmentsConcat(cwd, x, y');
    SegmentsConcat(cwd, x, y);
    PartsConcat(s, ".." + "/" + y);
    PartsConcat("..", y);
    PartsOfSegment(s);
    PartsOfSegment("..");
    var head := ResolveFrom([], Parts(AbsHead(cwd, x, ':' in y)));
    assert Parts(y') == [s, ".."] + Parts(y);
    ResolveFromConcat(head, [s, ".."], Parts(y));
    assert ResolveFrom(head, [s, ".."]) == head;
  }

  /** `..` at the root stays at the root. */
  lemma DotDotAtRoot(cwd: string, y: string)
    ensures Lexical(cwd, "/../" + y) == Lexical(cwd, "/" + y)
  {
    var y' := ".." + "/" + y;
    assert "/../" + y == "" + "/" + y';
    assert "/" + y == "" + "/" + y;
    assert (':' in y') == (':' in y);
    SegmentsConcat(cwd, "", y');
    SegmentsConcat(cwd, "", y);
    PartsConcat("..", y);
    PartsOfSegment("..");
    assert Parts("") == [];
    ResolveFromConcat([], [".."], Parts(y));
  }

  /** `a/./b/../c` normalises like `a/c`, whatever `a` is. */
  lemma DotsExample(cwd: string, a: string)
    ensures Lexical(cwd, a + "/./b/../c") == Lexical(cwd, a + "/c")
  {
    DotsExampleSpelling(a);
    DotSegmentVanishes(cwd, a, "b/../c");
    assert Clean("b") && ':' !in "b";
    DotDotCancels(cwd, a, "b", "c");
  }

  lemma DotsExampleSpelling(a: string)
    ensures a + "/./b/../c" == a + "/./" + "b/../c"
    ensures a + "/" + "b/../c" == a + "/" + "b" + "/../" + "c"
    ensures a + "/" + "c" == a + "/c"
  {
    assert "/./b/../c" == "/./" + "b/../c";
    assert "/" + "b/../c" == "/" + "b" + "/../" + "c";
  }

  /** Inside a path, `\` separates segments exactly as `/` does. */
  lemma BackslashSeparates(cwd: string, x: string, y: string)
    requires x != ""
    ensures Lexical(cwd, x + "\\" + y) == Lexical(cwd, x + "/" + y)
  {
    assert (x + "\\" + y)[0] == x[0] == (x + "/" + y)[0];
    assert (':' in x + "\\" + y) == (':' in x + "/" + y);
    var pre := if ':' !in x + "/" + y && x[0] != '/' then cwd + "/" else "";
    assert Absolutize(cwd, x + "\\" + y) == pre + x + "\\" + y;
    assert Absolutize(cwd, x + "/" + y) == pre + x + "/" + y;
    UnifyConcat(pre + x + "\\", y);
    UnifyConcat(pre + x, "\\");
    UnifyConcat(pre + x + "/", y);
    UnifyConcat(pre + x, "/");
    assert Unify("\\") == Unify("/");
  }
}
