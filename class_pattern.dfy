/**
 * `Autoloader::getPattern` and the one regular-expression shape it builds:
 * an optional `class.` prefix, the namespace segments of the class name
 * separated by runs of `.` or `-`, then at most two `.class` or `.inc`
 * suffixes, matched against a whole file name without regard to case.
 */
module ClassPattern {
  import opened Values
  import Paths

  /** The characters `trim` removes by default. */
  predicate IsBlank(c: char) {
    c == ' ' || c == '\t' || c == '\n' || c == '\r' || c == 0 as char || c == 11 as char
  }

  function TrimLeft(s: string): (r: string)
    ensures |r| <= |s| && r == s[|s| - |r|..]
    ensures r == [] || !IsBlank(r[0])
    ensures forall i :: 0 <= i < |s| - |r| ==> IsBlank(s[i])
  {
    if s == [] || !IsBlank(s[0]) then s else TrimLeft(s[1..])
  }

  function TrimRight(s: string): (r: string)
    ensures |r| <= |s| && r == s[..|r|]
    ensures r == [] || !IsBlank(r[|r| - 1])
    ensures forall i :: |r| <= i < |s| ==> IsBlank(s[i])
  {
    if s == [] || !IsBlank(s[|s| - 1]) then s else TrimRight(s[..|s| - 1])
  }

  /** `trim($class)` */
  function Trim(s: string): string {
    TrimRight(TrimLeft(s))
  }

  /** The trimmed class name without one leading namespace separator. */
  function Fixed(cls: string): string {
    var t := Trim(cls);
    if |t| > 0 && t[0] == '\\' then t[1..] else t
  }

  /** The regular-expression text that stands for one namespace separator. */
  const NamespaceSeparator: string := "(\\.|-)+"

  const PatternHead: string := "/^(class\\.)?"
  const PatternTail: string := "(\\.class|\\.inc){0,2}$/i"

  /** `getPattern($class)`: the template with every `\` of the fixed class
      name replaced by the separator pattern. */
  function GetPattern(cls: string): string {
    PatternHead + ReplaceChar(Fixed(cls), '\\', NamespaceSeparator) + PatternTail
  }

  /** The namespace segments the pattern spells out, in order. */
  function ClassSegments(cls: string): seq<string> {
    Paths.Split(Fixed(cls), '\\')
  }

  /** The pieces joined by `sep`. */
  function JoinWith(parts: seq<string>, sep: string): string {
    if parts == [] then ""
    else if |parts| == 1 then parts[0]
    else parts[0] + sep + JoinWith(parts[1..], sep)
  }

  lemma {:induction false} ReplaceIsJoin(s: string, c: char, t: string)
    ensures ReplaceChar(s, c, t) == JoinWith(Paths.Split(s, c), t)
  {
    if s != [] {
      ReplaceIsJoin(s[1..], c, t);
      var rest := Paths.Split(s[1..], c);
      if s[0] == c {
        assert Paths.Split(s, c) == [""] + rest;
        assert ([""] + rest)[1..] == rest;
      } else if |rest| > 1 {
        assert JoinWith(rest, t) == rest[0] + t + JoinWith(rest[1..], t);
      }
    }
  }

  /** The pattern is the fixed template around the class's segments joined
      by the separator pattern. */
  lemma PatternSpellsSegments(cls: string)
    ensures GetPattern(cls) == PatternHead + JoinWith(ClassSegments(cls), NamespaceSeparator) + PatternTail
  {
    ReplaceIsJoin(Fixed(cls), '\\', NamespaceSeparator);
  }

  // ---------------------------------------------------------------------
  // What the pattern matches

  /** Equality without regard to ASCII case (the `i` modifier). */
  predicate SameText(a: string, b: string) {
    LowerString(a) == LowerString(b)
  }

  predicate IsNamespaceSeparator(c: char) {
    c == '.' || c == '-'
  }

  const Prefixes: seq<string> := ["", "class."]

  /** Every string `(\.class|\.inc){0,2}` matches. */
  const Suffixes: seq<string> := ["", ".class", ".inc", ".class.class", ".class.inc", ".inc.class", ".inc.inc"]

  /** `s` is the segments in order, each pair separated by a non-empty run
      of `.` and `-`. */
  predicate BodyMatches(s: string, segments: seq<string>)
    requires |segments| >= 1
    decreases |segments|, 0, 0
  {
    if |segments| == 1 then SameText(s, segments[0])
    else
      var n := |segments[0]|;
      n <= |s| && SameText(s[..n], segments[0]) && RunThenBody(s[n..], segments[1..])
  }

  /** `s` is a non-empty run of `.` and `-`, then a body matching
      `segments`. */
  predicate RunThenBody(s: string, segments: seq<string>)
    requires |segments| >= 1
    decreases |segments|, 1, |s|
  {
    |s| > 0 && IsNamespaceSeparator(s[0])
    && (BodyMatches(s[1..], segments) || RunThenBody(s[1..], segments))
  }

  /** The name is the prefix `Prefixes[p]`, a body matching the segments,
      and the suffix `Suffixes[q]`. */
  predicate MatchesWith(name: string, segments: seq<string>, p: nat, q: nat)
    requires |segments| >= 1 && p < |Prefixes| && q < |Suffixes|
  {
    |Prefixes[p]| + |Suffixes[q]| <= |name|
    && SameText(name[..|Prefixes[p]|], Prefixes[p])
    && SameText(name[|name| - |Suffixes[q]|..], Suffixes[q])
    && BodyMatches(name[|Prefixes[p]|..|name| - |Suffixes[q]|], segments)
  }

  /** The name matches with prefix `p` and one of the suffixes from `q` on. */
  predicate SomeSuffix(name: string, segments: seq<string>, p: nat, q: nat)
    requires |segments| >= 1 && p < |Prefixes| && q <= |Suffixes|
    decreases |Suffixes| - q
  {
    q < |Suffixes| && (MatchesWith(name, segments, p, q) || SomeSuffix(name, segments, p, q + 1))
  }

  /** `preg_match(getPattern($class), $name) == 1` for a class whose
      segments are `segments`. */
  predicate Matches(name: string, segments: seq<string>)
    requires |segments| >= 1
  {
    SomeSuffix(name, segments, 0, 0) || SomeSuffix(name, segments, 1, 0)
  }

  /** A separator run followed by a matching body, read as the regular
      expression reads it: some non-empty prefix of separators, then the
      body. */
  lemma {:induction false} RunThenBodyExactly(s: string, segments: seq<string>)
    requires |segments| >= 1
    ensures RunThenBody(s, segments) <==>
            exists k :: 0 < k <= |s| && (forall j :: 0 <= j < k ==> IsNamespaceSeparator(s[j]))
                        && BodyMatches(s[k..], segments)
    decreases |s|
  {
    if |s| > 0 {
      RunThenBodyExactly(s[1..], segments);
      if RunThenBody(s, segments) {
        if BodyMatches(s[1..], segments) {
          assert 0 < 1 <= |s| && (forall j :: 0 <= j < 1 ==> IsNamespaceSeparator(s[j]));
        } else {
          var k :| 0 < k <= |s[1..]| && (forall j :: 0 <= j < k ==> IsNamespaceSeparator(s[1..][j]))
                   && BodyMatches(s[1..][k..], segments);
          assert s[1..][k..] == s[k + 1..];
          assert forall j :: 0 <= j < k + 1 ==> IsNamespaceSeparator(s[j]) by {
            forall j | 0 <= j < k + 1
              ensures IsNamespaceSeparator(s[j])
            {
              if j > 0 {
                assert s[j] == s[1..][j - 1];
              }
            }
          }
        }
      }
      if exists k :: 0 < k <= |s| && (forall j :: 0 <= j < k ==> IsNamespaceSeparator(s[j]))
                     && BodyMatches(s[k..], segments) {
        var k :| 0 < k <= |s| && (forall j :: 0 <= j < k ==> IsNamespaceSeparator(s[j]))
                 && BodyMatches(s[k..], segments);
        assert IsNamespaceSeparator(s[0]);
        if k > 1 {
          assert s[1..][k - 1..] == s[k..];
          assert forall j :: 0 <= j < k - 1 ==> s[1..][j] == s[j + 1];
        }
      }
    }
  }

  /** The matcher accepts exactly the names with some prefix and some
      suffix around a matching body. */
  lemma MatchesExactly(name: string, segments: seq<string>)
    requires |segments| >= 1
    ensures Matches(name, segments) <==>
            exists p, q :: 0 <= p < |Prefixes| && 0 <= q < |Suffixes| && MatchesWith(name, segments, p, q)
  {
    SomeSuffixExactly(name, segments, 0, 0);
    SomeSuffixExactly(name, segments, 1, 0);
  }

  lemma {:induction false} SomeSuffixExactly(name: string, segments: seq<string>, p: nat, q: nat)
    requires |segments| >= 1 && p < |Prefixes| && q <= |Suffixes|
    ensures SomeSuffix(name, segments, p, q) <==> exists q' :: q <= q' < |Suffixes| && MatchesWith(name, segments, p, q')
    decreases |Suffixes| - q
  {
    if q < |Suffixes| {
      SomeSuffixExactly(name, segments, p, q + 1);
      if MatchesWith(name, segments, p, q) {
        assert q <= q < |Suffixes| && MatchesWith(name, segments, p, q);
      } else {
        assert forall q' :: q <= q' < |Suffixes| && MatchesWith(name, segments, p, q') ==> q + 1 <= q';
      }
    }
  }

  /** The segments interleaved with the given separator runs. */
  function Interleave(segments: seq<string>, runs: seq<string>): string
    requires |segments| >= 1 && |runs| == |segments| - 1
    decreases |segments|
  {
    if |segments| == 1 then segments[0]
    else segments[0] + runs[0] + Interleave(segments[1..], runs[1..])
  }

  predicate IsSeparatorRun(run: string) {
    |run| > 0 && forall j :: 0 <= j < |run| ==> IsNamespaceSeparator(run[j])
  }

  /** A separator run in front of a matching body. */
  lemma {:induction false} RunBeforeBody(run: string, t: string, segments: seq<string>)
    requires |segments| >= 1 && IsSeparatorRun(run) && BodyMatches(t, segments)
    ensures RunThenBody(run + t, segments)
    decreases |run|
  {
    assert (run + t)[0] == run[0];
    assert (run + t)[1..] == run[1..] + t;
    if |run| > 1 {
      RunBeforeBody(run[1..], t, segments);
    } else {
      assert run[1..] + t == t;
    }
  }

  lemma {:induction false} InterleaveMatches(segments: seq<string>, runs: seq<string>)
    requires |segments| >= 1 && |runs| == |segments| - 1
    requires forall i :: 0 <= i < |runs| ==> IsSeparatorRun(runs[i])
    ensures BodyMatches(Interleave(segments, runs), segments)
    decreases |segments|
  {
    if |segments| > 1 {
      var s := Interleave(segments, runs);
      var rest := Interleave(segments[1..], runs[1..]);
      var n := |segments[0]|;
      assert s == segments[0] + (runs[0] + rest);
      assert s[..n] == segments[0];
      assert s[n..] == runs[0] + rest;
      InterleaveMatches(segments[1..], runs[1..]);
      RunBeforeBody(runs[0], rest, segments[1..]);
    }
  }

  /** Every file name built from the class's segments, any separator runs,
      an optional `class.` prefix and up to two `.class`/`.inc` suffixes,
      matches. */
  lemma DecoratedNameMatches(segments: seq<string>, runs: seq<string>, p: nat, q: nat)
    requires |segments| >= 1 && |runs| == |segments| - 1
    requires forall i :: 0 <= i < |runs| ==> IsSeparatorRun(runs[i])
    requires p < |Prefixes| && q < |Suffixes|
    ensures Matches(Prefixes[p] + Interleave(segments, runs) + Suffixes[q], segments)
  {
    var body := Interleave(segments, runs);
    var name := Prefixes[p] + body + Suffixes[q];
    InterleaveMatches(segments, runs);
    assert name[..|Prefixes[p]|] == Prefixes[p];
    assert name[|name| - |Suffixes[q]|..] == Suffixes[q];
    assert name[|Prefixes[p]|..|name| - |Suffixes[q]|] == body;
    assert MatchesWith(name, segments, p, q);
    MatchesExactly(name, segments);
  }

  /** The name `class.Vcms-Registry.inc` is found for class `\Vcms\Registry`. */
  lemma RegistryFileMatches()
    ensures ClassSegments("\\Vcms\\Registry") == ["Vcms", "Registry"]
    ensures Matches("class.Vcms-Registry.inc", ClassSegments("\\Vcms\\Registry"))
  {
    RegistryClassSegments();
    DecoratedNameMatches(["Vcms", "Registry"], ["-"], 1, 2);
    RegistryFileSpelling();
  }

  lemma RegistryClassSegments()
    ensures ClassSegments("\\Vcms\\Registry") == ["Vcms", "Registry"]
  {
    var s := "\\Vcms\\Registry";
    assert !IsBlank(s[0]);
    assert TrimLeft(s) == s;
    assert !IsBlank(s[|s| - 1]);
    assert TrimRight(s) == s;
    assert Fixed(s) == s[1..];
    assert s[1..] == "Vcms" + "\\" + "Registry";
    assert '\\' !in "Vcms" && '\\' !in "Registry";
    SplitTwo("Vcms", "Registry");
  }

  lemma RegistryFileSpelling()
    ensures Prefixes[1] + Interleave(["Vcms", "Registry"], ["-"]) + Suffixes[2] == "class.Vcms-Registry.inc"
  {
    assert Interleave(["Vcms", "Registry"], ["-"]) == "Vcms-Registry";
  }

  lemma SplitTwo(a: string, b: string)
    requires '\\' !in a && '\\' !in b
    ensures Paths.Split(a + "\\" + b, '\\') == [a, b]
  {
    Paths.SplitConcat(a, b, '\\');
    Paths.SplitNoSeparator(a, '\\');
    Paths.SplitNoSeparator(b, '\\');
    assert a + ['\\'] + b == a + "\\" + b;
  }
}
