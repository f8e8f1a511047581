/**
 * `FileUtils`: the path-resolution adapter and the recursive search for
 * files by extension. The search keeps, in walk order, every path name the
 * recursive directory walk yields that has at least one character, then a
 * dot, then the extension at its very end; the comparison ignores ASCII
 * case unless the caller asks for case sensitivity.
 */
module FileUtils {
  import opened Values
  import opened Environment
  import Paths

  /** `truepath($path)`, handed on to the autoloader's resolver. */
  method Truepath(h: Host, path: string) returns (r: string)
    ensures r == Paths.Resolved(h.cwd, h.links, path)
    ensures Paths.Lexical(h.cwd, path) !in h.links ==> Paths.Canonical(r)
  {
    r := Paths.Truepath(h.cwd, h.links, path);
    Paths.LexicalIsCanonical(h.cwd, path);
  }

  /** `empty($extension)` for a string. */
  predicate EmptyString(s: string) {
    s == "" || s == "0"
  }

  /** The two ends of a name compare equal, with or without case. */
  predicate SameEnding(a: string, b: string, caseSensitive: bool) {
    if caseSensitive then a == b else LowerString(a) == LowerString(b)
  }

  /** `/^.+\.ext$/` (with `i` unless case-sensitive) matches `name`. */
  predicate HasExtension(name: string, ext: string, caseSensitive: bool) {
    |name| >= |ext| + 2
    && name[|name| - |ext| - 1] == '.'
    && SameEnding(name[|name| - |ext|..], ext, caseSensitive)
  }

  /** The walk's names that match, in walk order. */
  function Matching(walk: seq<string>, ext: string, caseSensitive: bool): (r: seq<string>)
    ensures |r| <= |walk|
    ensures forall i :: 0 <= i < |r| ==> HasExtension(r[i], ext, caseSensitive)
  {
    if walk == [] then []
    else
      var rest := Matching(walk[..|walk| - 1], ext, caseSensitive);
      var last := walk[|walk| - 1];
      if HasExtension(last, ext, caseSensitive) then rest + [last] else rest
  }

  /** What the search answers: the three argument checks in order, then
      the matching names of the walk below the resolved directory. */
  function Find(h: Host, path: Value, extension: Value, caseSensitive: Value): (r: Result<seq<string>>)
    ensures r.Ok? <==> path.VStr? && extension.VStr? && caseSensitive.VBool?
                       && path.s in h.realpaths && h.realpaths[path.s] in h.walks && !EmptyString(extension.s)
    ensures r.Ok? ==> r.value == Matching(h.walks[h.realpaths[path.s]], extension.s, caseSensitive.b)
    ensures !path.VStr? || !extension.VStr? ==> r == Err(NotAString)
    ensures path.VStr? && extension.VStr? && !caseSensitive.VBool? ==> r == Err(NotABool)
    ensures path.VStr? && extension.VStr? && caseSensitive.VBool?
            && (path.s !in h.realpaths || h.realpaths[path.s] !in h.walks)
            ==> r.Err? && r.error.NotADirectory?
  {
    if !path.VStr? || !extension.VStr? then Err(NotAString)
    else if !caseSensitive.VBool? then Err(NotABool)
    else if path.s !in h.realpaths then Err(NotADirectory(""))
    else if h.realpaths[path.s] !in h.walks then Err(NotADirectory(h.realpaths[path.s]))
    else if EmptyString(extension.s) then Err(EmptyExtension)
    else Ok(Matching(h.walks[h.realpaths[path.s]], extension.s, caseSensitive.b))
  }

  /** `findFilesByExtension($path, $extension, $caseSensitive)`. */
  method FindFilesByExtension(h: Host, path: Value, extension: Value, caseSensitive: Value)
    returns (r: Result<seq<string>>)
    ensures r == Find(h, path, extension, caseSensitive)
  {
    if !path.VStr? || !extension.VStr? {
      return Err(NotAString);
    }
    if !caseSensitive.VBool? {
      return Err(NotABool);
    }
    if path.s !in h.realpaths {
      return Err(NotADirectory(""));
    }
    var dir := h.realpaths[path.s];
    if dir !in h.walks {
      return Err(NotADirectory(dir));
    }
    if EmptyString(extension.s) {
      return Err(EmptyExtension);
    }
    var walk := h.walks[dir];
    var files: seq<string> := [];
    var i := 0;
    while i < |walk|
      invariant 0 <= i <= |walk|
      invariant files == Matching(walk[..i], extension.s, caseSensitive.b)
    {
      assert walk[..i + 1][..i] == walk[..i];
      if HasExtension(walk[i], extension.s, caseSensitive.b) {
        files := files + [walk[i]];
      }
      i := i + 1;
    }
    assert walk[..|walk|] == walk;
    return Ok(files);
  }

  /** `findPHPFiles($path)`: the search for `php`, ignoring case. */
  method FindPhpFiles(h: Host, path: Value) returns (r: Result<seq<string>>)
    ensures r == Find(h, path, VStr("php"), VBool(false))
  {
    r := FindFilesByExtension(h, path, VStr("php"), VBool(false));
  }

  // ---------------------------------------------------------------------
  // Properties of the search

  /** A name is found exactly when the walk yields it and it matches. */
  lemma {:induction false} MatchingMembership(walk: seq<string>, ext: string, caseSensitive: bool, name: string)
    ensures name in Matching(walk, ext, caseSensitive) <==> name in walk && HasExtension(name, ext, caseSensitive)
  {
    if walk != [] {
      var init := walk[..|walk| - 1];
      MatchingMembership(init, ext, caseSensitive, name);
      assert walk == init + [walk[|walk| - 1]];
    }
  }

  /** The names found keep their walk order: the result is the walk with
      the non-matching names dropped. */
  lemma {:induction false} MatchingIsSubsequence(walk: seq<string>, ext: string, caseSensitive: bool)
    ensures IsSubsequence(Matching(walk, ext, caseSensitive), walk)
  {
    if walk != [] {
      var init := walk[..|walk| - 1];
      MatchingIsSubsequence(init, ext, caseSensitive);
      SubsequenceExtend(Matching(init, ext, caseSensitive), init, walk[|walk| - 1]);
      assert walk == init + [walk[|walk| - 1]];
    }
  }

  /** `sub` is obtained from `s` by dropping elements. */
  ghost predicate IsSubsequence(sub: seq<string>, s: seq<string>) {
    exists picks: seq<nat> ::
      |picks| == |sub|
      && (forall i :: 0 <= i < |picks| ==> picks[i] < |s| && s[picks[i]] == sub[i])
      && (forall i, j :: 0 <= i < j < |picks| ==> picks[i] < picks[j])
  }

  lemma SubsequenceExtend(sub: seq<string>, s: seq<string>, x: string)
    requires IsSubsequence(sub, s)
    ensures IsSubsequence(sub, s + [x]) && IsSubsequence(sub + [x], s + [x])
  {
    var picks: seq<nat> :|
      |picks| == |sub|
      && (forall i :: 0 <= i < |picks| ==> picks[i] < |s| && s[picks[i]] == sub[i])
      && (forall i, j :: 0 <= i < j < |picks| ==> picks[i] < picks[j]);
    var s' := s + [x];
    assert forall i :: 0 <= i < |picks| ==> picks[i] < |s'| && s'[picks[i]] == sub[i];
    var picks' := picks + [|s|];
    assert forall i :: 0 <= i < |picks'| ==> picks'[i] < |s'| && s'[picks'[i]] == (sub + [x])[i];
  }

  /** Every case-sensitive match is also a match without regard to case. */
  lemma CaseSensitiveFindsLess(walk: seq<string>, ext: string, name: string)
    ensures name in Matching(walk, ext, true) ==> name in Matching(walk, ext, false)
  {
    MatchingMembership(walk, ext, true, name);
    MatchingMembership(walk, ext, false, name);
  }

  /** Without regard to case, the spelling of the extension does not
      matter. */
  lemma ExtensionCaseIrrelevant(walk: seq<string>, ext: string, ext': string)
    requires LowerString(ext) == LowerString(ext')
    ensures Matching(walk, ext, false) == Matching(walk, ext', false)
  {
    forall name: string | true
      ensures HasExtension(name, ext, false) == HasExtension(name, ext', false)
    {
    }
  }

  /** A name that is only the dot and the extension is never found: the
      pattern wants at least one character in front. */
  lemma BareExtensionNotFound(walk: seq<string>, ext: string, caseSensitive: bool)
    ensures "." + ext !in Matching(walk, ext, caseSensitive)
  {
    MatchingMembership(walk, ext, caseSensitive, "." + ext);
  }

  /** `a.php` and `lib/B.PHP` are found for `php` without regard to case,
      in walk order; `notes.txt`, `php` and `.php` are not. */
  lemma PhpExample()
    ensures Matching(["a.php", "notes.txt", "php", ".php", "lib/B.PHP"], "php", false) == ["a.php", "lib/B.PHP"]
    ensures Matching(["a.php", "notes.txt", "php", ".php", "lib/B.PHP"], "php", true) == ["a.php"]
  {
    var w := ["a.php", "notes.txt", "php", ".php", "lib/B.PHP"];
    assert HasExtension("a.php", "php", true) && HasExtension("a.php", "php", false);
    assert LowerString("txt")[0] == 't' && LowerString("php")[0] == 'p';
    assert !HasExtension("notes.txt", "php", false) && !HasExtension("notes.txt", "php", true);
    assert LowerString("PHP") == "php";
    assert HasExtension("lib/B.PHP", "php", false) && !HasExtension("lib/B.PHP", "php", true);
    assert !HasExtension("php", "php", false) && !HasExtension(".php", "php", false);
    forall cs: bool
      ensures Matching(w, "php", cs) == Matching(["a.php"], "php", cs) + (if cs then [] else ["lib/B.PHP"])
    {
      var w4 := ["a.php", "notes.txt", "php", ".php"];
      var w3 := ["a.php", "notes.txt", "php"];
      var w2 := ["a.php", "notes.txt"];
      assert w[..4] == w4 && w4[..3] == w3 && w3[..2] == w2 && w2[..1] == ["a.php"];
      assert Matching(w, "php", cs) == Matching(w4, "php", cs) + (if cs then [] else ["lib/B.PHP"]);
      assert Matching(w4, "php", cs) == Matching(w3, "php", cs);
      assert Matching(w3, "php", cs) == Matching(w2, "php", cs);
      assert Matching(w2, "php", cs) == Matching(["a.php"], "php", cs);
    }
    assert ["a.php"][..0] == [];
  }
}
