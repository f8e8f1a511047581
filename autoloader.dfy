/**
 * The class-file autoloader. Each registered directory is walked once and
 * its PHP files indexed by a key made from the file name; a class is found
 * by that key, or (when searching is enabled) by the first indexed file
 * whose name matches the class pattern. A miss everywhere rescans every
 * directory once and tries again.
 *
 * The per-directory index is the class's `directoryFiles` field, filled in
 * place; the registry is the one the rest of the bootstrap layer uses.
 */
module VcmsAutoloader {
  import opened Values
  import opened Environment
  import Paths
  import ClassPattern
  import opened VcmsRegistry

  const AutoloadKey: string := "autoload"
  const SearchEnableKey: string := "autoload_search_enable"
  const PathIgnoreKey: string := "autoload_path_ignore"

  /** One directory's index: file key and file path, in insertion order. */
  type Index = seq<(string, string)>

  // ---------------------------------------------------------------------
  // File names

  /** The position of the last `c` in `s`, or -1. */
  function LastIndexOf(s: string, c: char): (r: int)
    ensures -1 <= r < |s|
    ensures r >= 0 ==> s[r] == c
    ensures forall j :: r < j < |s| ==> s[j] != c
  {
    if s == [] then -1
    else if s[|s| - 1] == c then |s| - 1
    else LastIndexOf(s[..|s| - 1], c)
  }

  /** The last path component. */
  function Basename(p: string): (r: string)
    ensures '/' !in r
  {
    p[LastIndexOf(p, '/') + 1..]
  }

  /** `pathinfo($p, PATHINFO_FILENAME)`: the base name without its last
      extension. */
  function Filename(p: string): (r: string)
    ensures '/' !in r
  {
    var b := Basename(p);
    var d := LastIndexOf(b, '.');
    if d < 0 then b else b[..d]
  }

  /** The index key of a file: its lower-cased file name with `.` turned
      into `-`. */
  function FileKey(p: string): string {
    ReplaceChar(LowerString(Filename(p)), '.', "-")
  }

  /** The key a class name is looked up under: lower-cased, `\` turned into
      `-` (untrimmed, leading separator kept). */
  function ClassKey(cls: string): string {
    ReplaceChar(LowerString(cls), '\\', "-")
  }

  /** `/^.+\.php$/i` against a path without line feeds. */
  predicate IsPhpFile(p: string) {
    |p| >= 5 && ClassPattern.SameText(p[|p| - 4..], ".php") && '\n' !in p
  }

  /** No directory on the way from `root` down to `p`'s own directory is
      ignored: each entry of the walk is refused when its containing
      directory loosely equals a value of `ignored` (`in_array`), and
      nothing below a refused directory is visited. */
  predicate Visible(root: string, p: string, ignored: seq<Value>) {
    forall j :: |root| <= j < |p| && p[j] == '/' ==> !LooseIn(VStr(p[..j]), ignored)
  }

  // ---------------------------------------------------------------------
  // The index

  predicate UniqueKeys(index: Index) {
    forall i, j :: 0 <= i < j < |index| ==> index[i].0 != index[j].0
  }

  /** The file stored under `key`. */
  function Find(index: Index, key: string): (r: Option<string>)
    ensures r.None? <==> forall i :: 0 <= i < |index| ==> index[i].0 != key
    ensures r.Some? ==> exists i :: 0 <= i < |index| && index[i] == (key, r.value)
  {
    if index == [] then None
    else if index[0].0 == key then Some(index[0].1)
    else Find(index[1..], key)
  }

  /** `$index[$key] = $file`: an existing key keeps its place and takes the
      new file; a new key goes at the end. */
  function Put(index: Index, key: string, file: string): Index
    decreases |index|
  {
    if index == [] then [(key, file)]
    else if index[0].0 == key then [(key, file)] + index[1..]
    else [index[0]] + Put(index[1..], key, file)
  }

  /** After `Put`, the key finds the new file and every other key finds
      what it found before. */
  lemma {:induction false} PutBinds(index: Index, key: string, file: string)
    ensures Find(Put(index, key, file), key) == Some(file)
    ensures forall k :: k != key ==> Find(Put(index, key, file), k) == Find(index, k)
    decreases |index|
  {
    FindCons((key, file), []);
    if index != [] {
      FindCons(index[0], index[1..]);
      assert index == [index[0]] + index[1..];
      if index[0].0 == key {
        FindCons((key, file), index[1..]);
      } else {
        PutBinds(index[1..], key, file);
        FindCons(index[0], Put(index[1..], key, file));
      }
    }
  }

  /** `Put` adds no entry but the new binding. */
  lemma {:induction false} PutEntries(index: Index, key: string, file: string)
    ensures forall e :: e in Put(index, key, file) ==> e in index || e == (key, file)
    decreases |index|
  {
    if index != [] && index[0].0 != key {
      PutEntries(index[1..], key, file);
      assert forall e :: e in index[1..] ==> e in index;
    }
  }

  /** `Put` keeps the keys of a well-formed index distinct. */
  lemma {:induction false} PutKeepsKeysUnique(index: Index, key: string, file: string)
    requires UniqueKeys(index)
    ensures UniqueKeys(Put(index, key, file))
    decreases |index|
  {
    if index == [] {
    } else if index[0].0 == key {
      assert forall i :: 0 <= i < |index[1..]| ==> index[1..][i] == index[i + 1];
      ConsUnique((key, file), index[1..]);
    } else {
      var rest := Put(index[1..], key, file);
      assert forall i :: 0 <= i < |index[1..]| ==> index[1..][i] == index[i + 1];
      PutKeepsKeysUnique(index[1..], key, file);
      PutEntries(index[1..], key, file);
      assert forall i :: 0 <= i < |rest| ==> rest[i].0 != index[0].0 by {
        forall i | 0 <= i < |rest|
          ensures rest[i].0 != index[0].0
        {
          assert rest[i] in rest;
          if rest[i] != (key, file) {
            var j :| 0 <= j < |index[1..]| && index[1..][j] == rest[i];
          }
        }
      }
      ConsUnique(index[0], rest);
    }
  }

  lemma ConsUnique(head: (string, string), rest: Index)
    requires UniqueKeys(rest)
    requires forall i :: 0 <= i < |rest| ==> rest[i].0 != head.0
    ensures UniqueKeys([head] + rest)
  {
    var r := [head] + rest;
    assert forall i :: 1 <= i < |r| ==> r[i] == rest[i - 1];
  }

  lemma FindCons(head: (string, string), rest: Index)
    ensures forall k :: Find([head] + rest, k) == if head.0 == k then Some(head.1) else Find(rest, k)
  {
    assert ([head] + rest)[1..] == rest;
  }

  /** The walk's entry `p` is a PHP file the filter lets through. */
  predicate Indexable(root: string, p: string, ignored: seq<Value>) {
    IsPhpFile(p) && Visible(root, p, ignored)
  }

  /** One entry of the walk: an accepted PHP file is put in the index. */
  function Indexed(index: Index, p: string, root: string, ignored: seq<Value>): Index {
    if Indexable(root, p, ignored) then Put(index, FileKey(p), p) else index
  }

  /** The index built from the files of a walk, in walk order. */
  function IndexOf(walk: seq<string>, root: string, ignored: seq<Value>): Index
    decreases |walk|
  {
    if walk == [] then []
    else Indexed(IndexOf(walk[..|walk| - 1], root, ignored), walk[|walk| - 1], root, ignored)
  }

  /** Every entry of the index is a walked PHP file that the filter lets
      through, under its own key, and no key occurs twice. */
  lemma {:induction false} IndexOfEntries(walk: seq<string>, root: string, ignored: seq<Value>)
    ensures UniqueKeys(IndexOf(walk, root, ignored))
    ensures forall e :: e in IndexOf(walk, root, ignored) ==>
              e.1 in walk && Indexable(root, e.1, ignored) && e.0 == FileKey(e.1)
    decreases |walk|
  {
    if walk != [] {
      var before := IndexOf(walk[..|walk| - 1], root, ignored);
      var p := walk[|walk| - 1];
      IndexOfEntries(walk[..|walk| - 1], root, ignored);
      assert forall e :: e in before ==> e.1 in walk;
      if Indexable(root, p, ignored) {
        PutKeepsKeysUnique(before, FileKey(p), p);
        PutEntries(before, FileKey(p), p);
      }
    }
  }

  lemma IndexOfStep(walk: seq<string>, i: nat, root: string, ignored: seq<Value>)
    requires i < |walk|
    ensures IndexOf(walk[..i + 1], root, ignored) == Indexed(IndexOf(walk[..i], root, ignored), walk[i], root, ignored)
  {
    assert walk[..i + 1][..i] == walk[..i];
  }

  /** The last indexable file of the walk whose key is `key`. */
  function LastWithKey(walk: seq<string>, root: string, ignored: seq<Value>, key: string): Option<string>
    decreases |walk|
  {
    if walk == [] then None
    else
      var p := walk[|walk| - 1];
      if IsPhpFile(p) && Visible(root, p, ignored) && FileKey(p) == key then Some(p)
      else LastWithKey(walk[..|walk| - 1], root, ignored, key)
  }

  /** Looking a key up in the index finds the last file of the walk with
      that key: on a collision the later file wins. */
  lemma {:induction false} IndexFindsLastFile(walk: seq<string>, root: string, ignored: seq<Value>, key: string)
    ensures Find(IndexOf(walk, root, ignored), key) == LastWithKey(walk, root, ignored, key)
    decreases |walk|
  {
    if walk != [] {
      IndexFindsLastFile(walk[..|walk| - 1], root, ignored, key);
      var p := walk[|walk| - 1];
      PutBinds(IndexOf(walk[..|walk| - 1], root, ignored), FileKey(p), p);
    }
  }

  /** Nothing at or below an ignored directory inside the walked tree is
      indexed. */
  lemma IgnoredSubtreeNotIndexed(walk: seq<string>, root: string, ignored: seq<Value>, d: string, p: string)
    requires LooseIn(VStr(d), ignored) && |d| >= |root|
    requires |p| > |d| && p[..|d|] == d && p[|d|] == '/'
    ensures forall e :: e in IndexOf(walk, root, ignored) ==> e.1 != p
  {
    IndexOfEntries(walk, root, ignored);
    assert LooseIn(VStr(p[..|d|]), ignored);
    assert !Visible(root, p, ignored);
  }

  // ---------------------------------------------------------------------
  // Registry-dependent parts

  /** The directories `listDirs` returns, as `foreach` visits them. */
  function Dirs(vars: Vars): seq<Value> {
    if HasKey(vars, Some(AutoloadKey)) then ForeachValues(vars[AutoloadKey].value) else []
  }

  /** The string `truepath` works on for a value. A scalar is converted as
      PHP 7 converts it to a string. An array makes `strpos` and `explode`
      warn and return null: no working directory is put in front, no part
      is kept, and the lexical result is the root. */
  function PathArg(v: Value): string {
    if v.VList? || v.VObj? then "/" else ToPhpString(v)
  }

  /** `truepath` of a value, as `accept` stores it back into the filter. */
  function Normal(h: Host, v: Value): Value {
    VStr(Paths.Resolved(h.cwd, h.links, PathArg(v)))
  }

  /** `truepath` of an array is the root, or its link target. */
  lemma ArrayPathIsRoot(h: Host, v: Value)
    requires v.VList? || v.VObj?
    ensures Normal(h, v) == VStr(if "/" in h.links then h.links["/"] else "/")
  {
    Paths.CanonicalIsFixed(h.cwd, "/");
  }

  /** `accept`'s loop from position `i` up to `count`: the entry under each
      position is read (null when the array has none) and its `truepath`
      is stored back under that position. */
  function NormalizedFrom(h: Host, es: seq<(string, Value)>, i: nat, count: nat): seq<(string, Value)>
    decreases count - i
  {
    if i >= count then es
    else
      var key := NatToString(i);
      NormalizedFrom(h, ArraySet(es, key, Normal(h, ArrayGet(es, key))), i + 1, count)
  }

  /** The values `accept` compares a directory with: the configured ignore
      list (a scalar wrapped into a list of one) after the normalisation
      loop; `None` when no ignore list is configured. */
  function IgnorePaths(h: Host, vars: Vars): (r: Option<seq<Value>>)
    ensures r.None? <==> PathIgnoreKey !in vars
  {
    if !HasKey(vars, Some(PathIgnoreKey)) then None
    else
      var es := Entries(Wrapped(vars[PathIgnoreKey].value));
      Some(ForeachValues(VObj(NormalizedFrom(h, es, 0, |es|))))
  }

  /** `k` is the key of one of the positions `0 .. i-1`. */
  predicate PositionBelow(k: string, i: nat) {
    exists j :: 0 <= j < i && k == NatToString(j)
  }

  predicate HasEntry(es: seq<(string, Value)>, k: string) {
    exists m :: 0 <= m < |es| && es[m].0 == k
  }

  /** The original entries once positions `0 .. i-1` are done: an entry
      under one of them holds its normalised value, any other keeps its
      own. */
  function Replaced(h: Host, es: seq<(string, Value)>, i: nat): (r: seq<(string, Value)>)
    ensures |r| == |es|
  {
    seq(|es|, m requires 0 <= m < |es| => Done(h, es[m], i))
  }

  function Done(h: Host, e: (string, Value), i: nat): (string, Value) {
    if PositionBelow(e.0, i) then (e.0, Normal(h, e.1)) else e
  }

  /** The entries the loop appends for positions `0 .. i-1` the array has
      no entry for: each holds `truepath(null)`, the working directory. */
  function Appended(h: Host, es: seq<(string, Value)>, i: nat): seq<(string, Value)> {
    if i == 0 then []
    else Appended(h, es, i - 1) + (if HasEntry(es, NatToString(i - 1)) then [] else [(NatToString(i - 1), Normal(h, VNull))])
  }

  /** Position `j` has no entry, and `e` is what the loop appends for it. */
  predicate FillsMissing(h: Host, es: seq<(string, Value)>, j: nat, e: (string, Value)) {
    !HasEntry(es, NatToString(j)) && e == (NatToString(j), Normal(h, VNull))
  }

  lemma AppendedMembers(h: Host, es: seq<(string, Value)>, i: nat, e: (string, Value))
    ensures e in Appended(h, es, i) <==> exists j :: 0 <= j < i && FillsMissing(h, es, j, e)
  {
    if e in Appended(h, es, i) {
      AppendedFills(h, es, i, e);
    }
    if exists j :: 0 <= j < i && FillsMissing(h, es, j, e) {
      var j :| 0 <= j < i && FillsMissing(h, es, j, e);
      FillsAppended(h, es, i, j, e);
    }
  }

  lemma {:induction false} AppendedFills(h: Host, es: seq<(string, Value)>, i: nat, e: (string, Value))
    requires e in Appended(h, es, i)
    ensures exists j :: 0 <= j < i && FillsMissing(h, es, j, e)
  {
    var key := NatToString(i - 1);
    var tail := if HasEntry(es, key) then [] else [(key, Normal(h, VNull))];
    assert Appended(h, es, i) == Appended(h, es, i - 1) + tail;
    if e in tail {
      assert FillsMissing(h, es, i - 1, e);
    } else {
      AppendedFills(h, es, i - 1, e);
      var j :| 0 <= j < i - 1 && FillsMissing(h, es, j, e);
      assert 0 <= j < i;
    }
  }

  lemma {:induction false} FillsAppended(h: Host, es: seq<(string, Value)>, i: nat, j: nat, e: (string, Value))
    requires j < i && FillsMissing(h, es, j, e)
    ensures e in Appended(h, es, i)
  {
    var key := NatToString(i - 1);
    var tail := if HasEntry(es, key) then [] else [(key, Normal(h, VNull))];
    assert Appended(h, es, i) == Appended(h, es, i - 1) + tail;
    if j == i - 1 {
      assert tail == [e];
    } else {
      FillsAppended(h, es, i - 1, j, e);
    }
  }

  lemma PositionBelowNext(k: string, i: nat)
    ensures PositionBelow(k, i + 1) <==> PositionBelow(k, i) || k == NatToString(i)
  {
    if PositionBelow(k, i + 1) && k != NatToString(i) {
      var j :| 0 <= j < i + 1 && k == NatToString(j);
      assert j < i;
    }
  }

  lemma NotPositionBelowItself(i: nat)
    ensures !PositionBelow(NatToString(i), i)
  {
    forall j | 0 <= j < i
      ensures NatToString(j) != NatToString(i)
    {
      if NatToString(j) == NatToString(i) {
        NatToStringInjective(j, i);
      }
    }
  }

  /** Before round `i`, no entry of the filter carries position `i`'s key
      except the array's own entry under it, which still holds its own
      value. */
  lemma KeysBeforeRound(h: Host, es: seq<(string, Value)>, i: nat)
    ensures var key := NatToString(i);
            var rep := Replaced(h, es, i);
            var app := Appended(h, es, i);
            (forall m :: 0 <= m < |es| ==> rep[m].0 == es[m].0)
            && (forall m :: 0 <= m < |es| && es[m].0 == key ==> rep[m] == es[m])
            && (forall n :: 0 <= n < |app| ==> app[n].0 != key)
  {
    var app := Appended(h, es, i);
    NotPositionBelowItself(i);
    forall n | 0 <= n < |app|
      ensures app[n].0 != NatToString(i)
    {
      AppendedMembers(h, es, i, app[n]);
      var j :| 0 <= j < i && FillsMissing(h, es, j, app[n]);
    }
  }

  /** One round of the loop: the position's entry, if the array has one,
      is normalised where it stands; otherwise the normalised null is
      appended. */
  lemma NormalizedStep(h: Host, es: seq<(string, Value)>, i: nat)
    requires DistinctKeys(es)
    ensures var key := NatToString(i);
            var cur := Replaced(h, es, i) + Appended(h, es, i);
            ArraySet(cur, key, Normal(h, ArrayGet(cur, key))) == Replaced(h, es, i + 1) + Appended(h, es, i + 1)
  {
    var key := NatToString(i);
    if HasEntry(es, key) {
      var m :| 0 <= m < |es| && es[m].0 == key;
      EntryRound(h, es, i, m);
    } else {
      MissingRound(h, es, i);
    }
  }

  lemma EntryRound(h: Host, es: seq<(string, Value)>, i: nat, m: nat)
    requires DistinctKeys(es) && m < |es| && es[m].0 == NatToString(i)
    ensures var key := NatToString(i);
            var cur := Replaced(h, es, i) + Appended(h, es, i);
            ArraySet(cur, key, Normal(h, ArrayGet(cur, key))) == Replaced(h, es, i + 1) + Appended(h, es, i + 1)
  {
    var key := NatToString(i);
    var rep := Replaced(h, es, i);
    var cur := rep + Appended(h, es, i);
    KeysBeforeRound(h, es, i);
    forall j | 0 <= j < m
      ensures cur[j].0 != key
    {
      assert cur[j] == rep[j];
    }
    assert cur[m] == es[m];
    ArrayAtKey(cur, key, m, Normal(h, es[m].1));
    assert HasEntry(es, key);
    assert Appended(h, es, i + 1) == Appended(h, es, i);
    var next := Replaced(h, es, i + 1);
    var updated := rep[m := (key, Normal(h, es[m].1))];
    forall n | 0 <= n < |es|
      ensures next[n] == updated[n]
    {
      PositionBelowNext(es[n].0, i);
      if n != m {
        assert es[n].0 != key;
        assert Done(h, es[n], i + 1) == Done(h, es[n], i);
      }
    }
    assert next == updated;
    UpdateFront(rep, Appended(h, es, i), m, (key, Normal(h, es[m].1)));
  }

  lemma UpdateFront<T>(a: seq<T>, b: seq<T>, m: nat, x: T)
    requires m < |a|
    ensures (a + b)[m := x] == a[m := x] + b
  {
  }

  lemma MissingRound(h: Host, es: seq<(string, Value)>, i: nat)
    requires !HasEntry(es, NatToString(i))
    ensures var key := NatToString(i);
            var cur := Replaced(h, es, i) + Appended(h, es, i);
            ArraySet(cur, key, Normal(h, ArrayGet(cur, key))) == Replaced(h, es, i + 1) + Appended(h, es, i + 1)
  {
    var key := NatToString(i);
    var rep := Replaced(h, es, i);
    var cur := rep + Appended(h, es, i);
    KeysBeforeRound(h, es, i);
    ArrayWithoutKey(cur, key, Normal(h, VNull));
    var next := Replaced(h, es, i + 1);
    forall n | 0 <= n < |es|
      ensures next[n] == rep[n]
    {
      PositionBelowNext(es[n].0, i);
    }
    assert next == rep;
  }

  lemma {:induction false} NormalizedFromSplits(h: Host, es: seq<(string, Value)>, i: nat, count: nat)
    requires DistinctKeys(es) && i <= count
    ensures NormalizedFrom(h, Replaced(h, es, i) + Appended(h, es, i), i, count)
            == Replaced(h, es, count) + Appended(h, es, count)
    decreases count - i
  {
    if i < count {
      NormalizedStep(h, es, i);
      NormalizedFromSplits(h, es, i + 1, count);
    }
  }

  /** What the loop leaves in the filter: every original entry, the one
      under a position below the count normalised and any other as it
      was, then the working directory once per missing position. */
  lemma NormalizedFilter(h: Host, es: seq<(string, Value)>)
    requires DistinctKeys(es)
    ensures NormalizedFrom(h, es, 0, |es|) == Replaced(h, es, |es|) + Appended(h, es, |es|)
  {
    assert Replaced(h, es, 0) + Appended(h, es, 0) == es;
    NormalizedFromSplits(h, es, 0, |es|);
  }

  lemma ValuesOfConcat(a: seq<(string, Value)>, b: seq<(string, Value)>)
    ensures ForeachValues(VObj(a + b)) == ForeachValues(VObj(a)) + ForeachValues(VObj(b))
  {
    var whole := ForeachValues(VObj(a + b));
    var parts := ForeachValues(VObj(a)) + ForeachValues(VObj(b));
    forall n | 0 <= n < |whole|
      ensures whole[n] == parts[n]
    {
      if n < |a| {
        assert (a + b)[n] == a[n];
      } else {
        assert (a + b)[n] == b[n - |a|];
      }
    }
  }

  /** The values of the filter the loop leaves: each original entry's
      value, normalised under a position below the count, then the working
      directory once per missing position. */
  lemma {:induction false} FilterMembers(h: Host, es: seq<(string, Value)>, v: Value)
    ensures v in ForeachValues(VObj(Replaced(h, es, |es|) + Appended(h, es, |es|))) <==>
              (exists m :: 0 <= m < |es| && v == Done(h, es[m], |es|).1)
              || (exists j :: 0 <= j < |es| && FillsMissing(h, es, j, (NatToString(j), v)))
  {
    var rep := Replaced(h, es, |es|);
    var app := Appended(h, es, |es|);
    ValuesOfConcat(rep, app);
    FrontMembers(h, es, v);
    BackMembers(h, es, v);
  }

  lemma FrontMembers(h: Host, es: seq<(string, Value)>, v: Value)
    ensures v in ForeachValues(VObj(Replaced(h, es, |es|))) <==>
              exists m :: 0 <= m < |es| && v == Done(h, es[m], |es|).1
  {
    var front := ForeachValues(VObj(Replaced(h, es, |es|)));
    if v in front {
      var m :| 0 <= m < |front| && front[m] == v;
      assert v == Done(h, es[m], |es|).1;
    }
    if exists m :: 0 <= m < |es| && v == Done(h, es[m], |es|).1 {
      var m :| 0 <= m < |es| && v == Done(h, es[m], |es|).1;
      assert front[m] == v;
    }
  }

  lemma BackMembers(h: Host, es: seq<(string, Value)>, v: Value)
    ensures v in ForeachValues(VObj(Appended(h, es, |es|))) <==>
              exists j :: 0 <= j < |es| && FillsMissing(h, es, j, (NatToString(j), v))
  {
    if v in ForeachValues(VObj(Appended(h, es, |es|))) {
      BackMemberFills(h, es, v);
    }
    if exists j :: 0 <= j < |es| && FillsMissing(h, es, j, (NatToString(j), v)) {
      var j :| 0 <= j < |es| && FillsMissing(h, es, j, (NatToString(j), v));
      FillsBackMember(h, es, j, v);
    }
  }

  lemma BackMemberFills(h: Host, es: seq<(string, Value)>, v: Value)
    requires v in ForeachValues(VObj(Appended(h, es, |es|)))
    ensures exists j :: 0 <= j < |es| && FillsMissing(h, es, j, (NatToString(j), v))
  {
    var app := Appended(h, es, |es|);
    var back := ForeachValues(VObj(app));
    var n :| 0 <= n < |back| && back[n] == v;
    var e := app[n];
    assert e.1 == v;
    AppendedMembers(h, es, |es|, e);
    var j :| 0 <= j < |es| && FillsMissing(h, es, j, e);
    assert e == (NatToString(j), v);
  }

  lemma FillsBackMember(h: Host, es: seq<(string, Value)>, j: nat, v: Value)
    requires j < |es| && FillsMissing(h, es, j, (NatToString(j), v))
    ensures v in ForeachValues(VObj(Appended(h, es, |es|)))
  {
    var app := Appended(h, es, |es|);
    var e := (NatToString(j), v);
    AppendedMembers(h, es, |es|, e);
    var n :| 0 <= n < |app| && app[n] == e;
    assert ForeachValues(VObj(app))[n] == v;
  }

  /** A value is compared with exactly when it is an entry's value
      (normalised when the entry sits under a position below the count),
      or the working directory standing in for a missing position. */
  lemma IgnorePathsMembers(h: Host, vars: Vars, v: Value)
    requires PathIgnoreKey in vars
    requires DistinctKeys(Entries(Wrapped(vars[PathIgnoreKey].value)))
    ensures var es := Entries(Wrapped(vars[PathIgnoreKey].value));
            v in IgnorePaths(h, vars).value <==>
              (exists m :: 0 <= m < |es| && v == Done(h, es[m], |es|).1)
              || (exists j :: 0 <= j < |es| && FillsMissing(h, es, j, (NatToString(j), v)))
  {
    var es := Entries(Wrapped(vars[PathIgnoreKey].value));
    NormalizedFilter(h, es);
    FilterMembers(h, es, v);
  }

  /** An array keyed by its own positions has no missing position, no
      repeated key, and every entry is normalised. */
  lemma PositionalEntries(h: Host, es: seq<(string, Value)>)
    requires forall j :: 0 <= j < |es| ==> es[j].0 == NatToString(j)
    ensures DistinctKeys(es)
    ensures Appended(h, es, |es|) == []
    ensures forall j :: 0 <= j < |es| ==> Done(h, es[j], |es|) == (es[j].0, Normal(h, es[j].1))
  {
    forall i, j | 0 <= i < j < |es|
      ensures es[i].0 != es[j].0
    {
      if es[i].0 == es[j].0 {
        NatToStringInjective(i, j);
      }
    }
    forall j | 0 <= j < |es|
      ensures HasEntry(es, NatToString(j)) && PositionBelow(es[j].0, |es|)
    {
      assert es[j].0 == NatToString(j);
    }
    AllPositionsPresent(h, es, |es|);
  }

  lemma {:induction false} AllPositionsPresent(h: Host, es: seq<(string, Value)>, i: nat)
    requires forall j :: 0 <= j < i ==> HasEntry(es, NatToString(j))
    ensures Appended(h, es, i) == []
  {
    if i > 0 {
      AllPositionsPresent(h, es, i - 1);
    }
  }

  /** On an array keyed by its own positions the loop normalises every
      value where it stands and adds nothing. */
  lemma PositionalFilter(h: Host, es: seq<(string, Value)>)
    requires forall j :: 0 <= j < |es| ==> es[j].0 == NatToString(j)
    ensures ForeachValues(VObj(NormalizedFrom(h, es, 0, |es|)))
            == seq(|es|, j requires 0 <= j < |es| => Normal(h, es[j].1))
  {
    PositionalEntries(h, es);
    NormalizedFilter(h, es);
    var rep := Replaced(h, es, |es|);
    assert rep + [] == rep;
    PositionalValues(h, es);
  }

  lemma PositionalValues(h: Host, es: seq<(string, Value)>)
    requires forall j :: 0 <= j < |es| ==> Done(h, es[j], |es|) == (es[j].0, Normal(h, es[j].1))
    ensures ForeachValues(VObj(Replaced(h, es, |es|)))
            == seq(|es|, j requires 0 <= j < |es| => Normal(h, es[j].1))
  {
    var rep := Replaced(h, es, |es|);
    var values := ForeachValues(VObj(rep));
    var expected := seq(|es|, j requires 0 <= j < |es| => Normal(h, es[j].1));
    forall j | 0 <= j < |es|
      ensures values[j] == expected[j]
    {
      assert rep[j] == Done(h, es[j], |es|);
    }
    assert |values| == |expected|;
  }

  /** A list (or a single value) is normalised entry by entry, in order,
      into canonical paths or link targets. */
  lemma ListIgnorePaths(h: Host, vars: Vars)
    requires PathIgnoreKey in vars && !vars[PathIgnoreKey].value.VObj?
    ensures var items := ForeachValues(Wrapped(vars[PathIgnoreKey].value));
            IgnorePaths(h, vars) == Some(seq(|items|, j requires 0 <= j < |items| => Normal(h, items[j])))
    ensures forall v :: v in IgnorePaths(h, vars).value ==>
              v.VStr? && (Paths.Canonical(v.s) || v.s in h.links.Values)
  {
    var items := Wrapped(vars[PathIgnoreKey].value).items;
    var es := Entries(Wrapped(vars[PathIgnoreKey].value));
    var expected := seq(|items|, j requires 0 <= j < |items| => Normal(h, items[j]));
    assert IgnorePaths(h, vars) == Some(expected) by {
      assert forall j :: 0 <= j < |es| ==> es[j] == (NatToString(j), items[j]);
      PositionalFilter(h, es);
      assert seq(|es|, j requires 0 <= j < |es| => Normal(h, es[j].1)) == expected;
    }
    forall v | v in expected
      ensures v.VStr? && (Paths.Canonical(v.s) || v.s in h.links.Values)
    {
      var j :| 0 <= j < |expected| && expected[j] == v;
      Paths.LexicalIsCanonical(h.cwd, PathArg(items[j]));
    }
  }

  /** `accept` on an associative ignore list: `{"a": x}` has no entry
      under position 0, so `x` is compared as it stands and the working
      directory joins the filter. */
  lemma AssociativeIgnoreExample(h: Host, vars: Vars, x: string)
    requires PathIgnoreKey in vars && vars[PathIgnoreKey].value == VObj([("a", VStr(x))])
    ensures IgnorePaths(h, vars) == Some([VStr(x), Normal(h, VNull)])
  {
    var es := [("a", VStr(x))];
    assert Entries(Wrapped(vars[PathIgnoreKey].value)) == es;
    assert NatToString(0) == "0";
    ArrayWithoutKey(es, "0", Normal(h, VNull));
    var done := es + [("0", Normal(h, VNull))];
    assert NormalizedFrom(h, es, 0, 1) == NormalizedFrom(h, done, 1, 1) == done;
    assert ForeachValues(VObj(done)) == [VStr(x), Normal(h, VNull)];
  }

  /** An ignore list holding a nested array puts the root into the filter,
      so entries directly under `/` are refused. */
  lemma NestedIgnoreEntryRefusesRoot(h: Host, vars: Vars, xs: seq<Value>)
    requires PathIgnoreKey in vars && vars[PathIgnoreKey].value == VList([VList(xs)])
    requires "/" !in h.links
    ensures IgnorePaths(h, vars) == Some([VStr("/")])
    ensures !Accepted(h, vars, "/")
  {
    ListIgnorePaths(h, vars);
    var items := ForeachValues(Wrapped(vars[PathIgnoreKey].value));
    assert items == [VList(xs)];
    ArrayPathIsRoot(h, VList(xs));
    assert seq(|items|, j requires 0 <= j < |items| => Normal(h, items[j])) == [VStr("/")];
    LooseEqReflexive(VStr("/"));
  }

  /** `RecursiveDirectoryFilter::accept` for an entry whose containing
      directory is `entryDir`: refused when it loosely equals a value of
      the filter. */
  predicate Accepted(h: Host, vars: Vars, entryDir: string) {
    var ignore := IgnorePaths(h, vars);
    ignore.None? || !LooseIn(VStr(entryDir), ignore.value)
  }

  /** A directory named by a plain ignore list is refused once `truepath`
      has normalised it. */
  lemma ListedDirectoryRefused(h: Host, vars: Vars, j: nat)
    requires PathIgnoreKey in vars && !vars[PathIgnoreKey].value.VObj?
    requires j < |ForeachValues(Wrapped(vars[PathIgnoreKey].value))|
    ensures var items := ForeachValues(Wrapped(vars[PathIgnoreKey].value));
            !Accepted(h, vars, Paths.Resolved(h.cwd, h.links, PathArg(items[j])))
  {
    var items := ForeachValues(Wrapped(vars[PathIgnoreKey].value));
    var d := Paths.Resolved(h.cwd, h.links, PathArg(items[j]));
    ListIgnorePaths(h, vars);
    assert IgnorePaths(h, vars).value[j] == VStr(d);
    LooseEqReflexive(VStr(d));
  }

  /** The filter the walk is checked against. */
  function Ignored(h: Host, vars: Vars): seq<Value> {
    var ignore := IgnorePaths(h, vars);
    if ignore.None? then [] else ignore.value
  }

  /** A file is visible exactly when every entry on its way down from the
      root is accepted. */
  lemma VisibleIffAccepted(h: Host, vars: Vars, root: string, p: string)
    ensures Visible(root, p, Ignored(h, vars))
        <==> forall j :: |root| <= j < |p| && p[j] == '/' ==> Accepted(h, vars, p[..j])
  {
  }

  /** What `loadDir` leaves in the index of the normalised directory, and
      whether it throws. */
  function LoadDirIndex(h: Host, vars: Vars, dir: string): (r: (Outcome, Index))
    ensures var d := Paths.Resolved(h.cwd, h.links, dir);
            (d !in h.walks ==> r == (Fail(NotADirectory(d)), []))
            && (d in h.walks ==> r.0 == Pass)
  {
    var d := Paths.Resolved(h.cwd, h.links, dir);
    if d !in h.walks then (Fail(NotADirectory(d)), [])
    else (Pass, IndexOf(h.walks[d], d, Ignored(h, vars)))
  }

  /** The outcome of `loadDir` and the directory indexes after it. */
  function Loaded(h: Host, vars: Vars, files: map<string, Index>, dir: string): (Outcome, map<string, Index>) {
    var r := LoadDirIndex(h, vars, dir);
    (r.0, files[Paths.Resolved(h.cwd, h.links, dir) := r.1])
  }

  /** `rescanDirs`: `loadDir` on every listed directory in order, stopping
      at the first one that throws. */
  function Rescan(h: Host, vars: Vars, files: map<string, Index>, dirs: seq<Value>): (Outcome, map<string, Index>) {
    RescanFrom(h, vars, files, dirs, 0)
  }

  /** `rescanDirs` from the `i`-th listed directory on. */
  function RescanFrom(h: Host, vars: Vars, files: map<string, Index>, dirs: seq<Value>, i: nat): (Outcome, map<string, Index>)
    requires i <= |dirs|
    decreases |dirs| - i
  {
    if i == |dirs| then (Pass, files)
    else
      var step := Loaded(h, vars, files, PathArg(dirs[i]));
      if step.0.Fail? then step else RescanFrom(h, vars, step.1, dirs, i + 1)
  }

  lemma RescanFromStep(h: Host, vars: Vars, files: map<string, Index>, dirs: seq<Value>, i: nat,
                       outcome: Outcome, files': map<string, Index>)
    requires i < |dirs| && (outcome, files') == Loaded(h, vars, files, PathArg(dirs[i]))
    ensures RescanFrom(h, vars, files, dirs, i)
         == if outcome.Fail? then (outcome, files') else RescanFrom(h, vars, files', dirs, i + 1)
  {
  }

  /** A nested array among the listed directories loads the root: its
      index is rebuilt and the rescan goes on with the next entry. */
  lemma NestedDirLoadsRoot(h: Host, vars: Vars, files: map<string, Index>, dirs: seq<Value>, i: nat)
    requires i < |dirs| && (dirs[i].VList? || dirs[i].VObj?)
    requires "/" !in h.links && "/" in h.walks
    ensures RescanFrom(h, vars, files, dirs, i)
         == RescanFrom(h, vars, files["/" := IndexOf(h.walks["/"], "/", Ignored(h, vars))], dirs, i + 1)
  {
    Paths.CanonicalIsFixed(h.cwd, "/");
    assert Paths.Resolved(h.cwd, h.links, PathArg(dirs[i])) == "/";
  }

  /** The key `array_key_exists` looks a directory value up under; `None`
      for a value that cannot be a key. */
  function DirKey(dir: Value): Option<string> {
    match dir
    case VStr(s) => Some(s)
    case VInt(i) => Some(IntToString(i))
    case VNull => Some("")
    case _ => None
  }

  /** The first index entry whose file name matches the class pattern. */
  function Search(index: Index, segments: seq<string>): Option<string>
    requires |segments| >= 1
    decreases |index|
  {
    if index == [] then None
    else if Hit(index[0].1, segments) then Some(index[0].1)
    else Search(index[1..], segments)
  }

  /** `Search` finds a hit only when no earlier entry is one, and finds
      nothing only when no entry is one. */
  lemma SearchFindsFirst(index: Index, segments: seq<string>)
    requires |segments| >= 1
    ensures Search(index, segments).None? ==> forall i :: 0 <= i < |index| ==> !Hit(index[i].1, segments)
    ensures Search(index, segments).Some? ==>
              exists i :: 0 <= i < |index| && index[i].1 == Search(index, segments).value
                          && Hit(index[i].1, segments) && forall j :: 0 <= j < i ==> !Hit(index[j].1, segments)
  {
    if Search(index, segments).None? {
      SearchMissesAll(index, segments);
    } else {
      var i := SearchHitsFirst(index, segments);
    }
  }

  lemma {:induction false} SearchMissesAll(index: Index, segments: seq<string>)
    requires |segments| >= 1 && Search(index, segments).None?
    ensures forall i :: 0 <= i < |index| ==> !Hit(index[i].1, segments)
    decreases |index|
  {
    if index != [] {
      var rest := index[1..];
      var first := Hit(index[0].1, segments);
      assert !first;
      assert Search(rest, segments).None?;
      SearchMissesAll(rest, segments);
      forall i | 1 <= i < |index|
        ensures !Hit(index[i].1, segments)
      {
        assert index[i] == rest[i - 1];
      }
    }
  }

  lemma {:induction false} SearchHitsFirst(index: Index, segments: seq<string>) returns (i: nat)
    requires |segments| >= 1 && Search(index, segments).Some?
    ensures i < |index| && index[i].1 == Search(index, segments).value && Hit(index[i].1, segments)
    ensures forall j :: 0 <= j < i ==> !Hit(index[j].1, segments)
    decreases |index|
  {
    if Hit(index[0].1, segments) {
      i := 0;
    } else {
      assert Search(index, segments) == Search(index[1..], segments);
      var k := SearchHitsFirst(index[1..], segments);
      MissesShift(index, segments, k);
      i := k + 1;
    }
  }

  /** Misses in the tail after a miss at the head are misses one place
      further on. */
  lemma MissesShift(index: Index, segments: seq<string>, k: nat)
    requires |segments| >= 1 && k < |index| - 1 && !Hit(index[0].1, segments)
    requires forall j :: 0 <= j < k ==> !Hit(index[1..][j].1, segments)
    ensures index[k + 1] == index[1..][k]
    ensures forall j :: 0 <= j < k + 1 ==> !Hit(index[j].1, segments)
  {
    forall j | 0 < j < k + 1
      ensures !Hit(index[j].1, segments)
    {
      assert index[j] == index[1..][j - 1];
    }
  }

  /** What `Search` finds is a file of the index. */
  lemma {:induction false} SearchFindsEntry(index: Index, segments: seq<string>)
    requires |segments| >= 1
    ensures Search(index, segments).Some? ==> exists e :: e in index && e.1 == Search(index, segments).value
    decreases |index|
  {
    if index != [] {
      assert index[0] in index;
      SearchFindsEntry(index[1..], segments);
      assert forall e :: e in index[1..] ==> e in index;
    }
  }

  /** The file name of `file` matches the pattern of a class with these
      segments. */
  predicate Hit(file: string, segments: seq<string>)
    requires |segments| >= 1
  {
    ClassPattern.Matches(Filename(file), segments)
  }

  /** `autoloadDir($class, $dir)`: `Ok(Some(file))` when `file` is
      included, `Ok(None)` for `false`, `Err` when it throws. */
  function DirLookup(vars: Vars, files: map<string, Index>, cls: string, dir: Value): (r: Result<Option<string>>)
    ensures DirKey(dir).None? || DirKey(dir).value !in files ==> r == Ok(None)
    ensures DirKey(dir).Some? && DirKey(dir).value in files
            && Find(files[DirKey(dir).value], ClassKey(cls)).Some?
            ==> r == Ok(Find(files[DirKey(dir).value], ClassKey(cls)))
    ensures r.Ok? && r.value.Some? ==> exists e :: e in files[DirKey(dir).value] && e.1 == r.value.value
    ensures r.Err? ==> r.error == KeyMissing(SearchEnableKey) && SearchEnableKey !in vars
    ensures SearchEnableKey in vars && !Truthy(vars[SearchEnableKey].value)
            && DirKey(dir).Some? && DirKey(dir).value in files
            ==> r == Ok(Find(files[DirKey(dir).value], ClassKey(cls)))
    ensures DirKey(dir).Some? && DirKey(dir).value in files
            && Find(files[DirKey(dir).value], ClassKey(cls)).None?
            && SearchEnableKey in vars && Truthy(vars[SearchEnableKey].value)
            ==> r == Ok(Search(files[DirKey(dir).value], ClassPattern.ClassSegments(cls)))
    ensures DirKey(dir).Some? && DirKey(dir).value in files
            && Find(files[DirKey(dir).value], ClassKey(cls)).None? && SearchEnableKey !in vars
            ==> r == Err(KeyMissing(SearchEnableKey))
  {
    var key := DirKey(dir);
    if key.None? || key.value !in files then Ok(None)
    else
      var index := files[key.value];
      var direct := Find(index, ClassKey(cls));
      if direct.Some? then Ok(direct)
      else
        var enabled := Lookup(vars, Some(SearchEnableKey));
        if enabled.Err? then Err(enabled.error)
        else if !Truthy(enabled.value) then Ok(None)
        else
          var found := Search(index, ClassPattern.ClassSegments(cls));
          SearchFindsEntry(index, ClassPattern.ClassSegments(cls));
          Ok(found)
  }

  /** The directories tried in order: the first one that includes a file
      or throws decides. */
  function FirstHit(vars: Vars, files: map<string, Index>, cls: string, dirs: seq<Value>): (r: Result<Option<string>>)
    ensures r != Ok(None) ==> exists i :: 0 <= i < |dirs| && r == DirLookup(vars, files, cls, dirs[i])
                                && forall j :: 0 <= j < i ==> DirLookup(vars, files, cls, dirs[j]) == Ok(None)
    ensures r == Ok(None) <==> forall i :: 0 <= i < |dirs| ==> DirLookup(vars, files, cls, dirs[i]) == Ok(None)
    decreases |dirs|
  {
    if dirs == [] then Ok(None)
    else
      var r := DirLookup(vars, files, cls, dirs[0]);
      if r != Ok(None) then r
      else
        var rest := FirstHit(vars, files, cls, dirs[1..]);
        assert forall i :: 0 <= i < |dirs[1..]| ==> dirs[1..][i] == dirs[i + 1];
        rest
  }

  /** The registry after the constructor: searching is disabled unless a
      setting already exists. */
  function WithSearchDefault(vars: Vars): (r: Vars)
    ensures SearchEnableKey in r
    ensures SearchEnableKey in vars ==> r == vars
    ensures SearchEnableKey !in vars ==> !Truthy(r[SearchEnableKey].value) && OthersUnchanged(vars, r, SearchEnableKey)
  {
    if HasKey(vars, Some(SearchEnableKey)) then vars
    else SetStep(vars, Some(SearchEnableKey), VBool(false), VBool(false)).vars
  }

  /** The direct lookup: class `A\B` is found under the key of a file
      named `A.B.php`; a name with a dot in place of the namespace
      separator keeps its dot and misses that key. */
  lemma DirectKeyExample()
    ensures ClassKey("A\\B") == FileKey("/A.B.php") == "a-b"
    ensures ClassKey("A.B") != FileKey("/A.B.php")
  {
    SampleFileKey();
    SampleClassKeys();
  }

  lemma SampleFileKey()
    ensures FileKey("/A.B.php") == "a-b"
  {
    SampleFilename();
    SampleLower();
    SampleDotReplaced();
  }

  lemma SampleLower()
    ensures LowerString("A.B") == "a.b"
  {
    assert LowerString("A.B") == [Lower('A'), Lower('.'), Lower('B')];
  }

  lemma SampleDotReplaced()
    ensures ReplaceChar("a.b", '.', "-") == "a-b"
  {
    var l := "a.b";
    assert l[1..] == ".b" && l[1..][1..] == "b" && "b"[1..] == [];
    assert ReplaceChar("b", '.', "-") == "b";
    assert ReplaceChar(".b", '.', "-") == "-b";
  }

  lemma SampleClassKeys()
    ensures ClassKey("A\\B") == "a-b" && ClassKey("A.B") == "a.b"
  {
    var l := "a.b";
    assert LowerString("A.B") == [Lower('A'), Lower('.'), Lower('B')] == l;
    assert l[1..] == ".b" && l[1..][1..] == "b" && "b"[1..] == [];
    assert ReplaceChar("b", '\\', "-") == "b" && ReplaceChar(".b", '\\', "-") == ".b";
    var m := "a\\b";
    assert LowerString("A\\B") == [Lower('A'), Lower('\\'), Lower('B')] == m;
    assert m[1..] == "\\b" && m[1..][1..] == "b";
    assert ReplaceChar("\\b", '\\', "-") == "-b";
  }

  lemma SampleFilename()
    ensures Filename("/A.B.php") == "A.B"
  {
    var p := "/A.B.php";
    forall k | 1 <= k <= 8
      ensures p[..k][..k - 1] == p[..k - 1]
    {
    }
    assert LastIndexOf(p[..1], '/') == 0;
    assert LastIndexOf(p[..2], '/') == 0;
    assert LastIndexOf(p[..3], '/') == 0;
    assert LastIndexOf(p[..4], '/') == 0;
    assert LastIndexOf(p[..5], '/') == 0;
    assert LastIndexOf(p[..6], '/') == 0;
    assert LastIndexOf(p[..7], '/') == 0;
    assert p[..8] == p;
    var b := "A.B.php";
    assert Basename(p) == b;
    forall k | 1 <= k <= 7
      ensures b[..k][..k - 1] == b[..k - 1]
    {
    }
    assert LastIndexOf(b[..4], '.') == 3;
    assert LastIndexOf(b[..5], '.') == 3;
    assert LastIndexOf(b[..6], '.') == 3;
    assert b[..7] == b;
  }

  /** `addDir` appends the normalised directory to the listed directories
      when the `autoload` binding is a list (or absent) and writable. */
  lemma AddedDirIsListed(vars: Vars, path: string)
    requires AutoloadKey !in vars || (!vars[AutoloadKey].readonly && vars[AutoloadKey].value.VList?)
    ensures AddStep(vars, Some(AutoloadKey), VStr(path), VBool(false)).outcome == Pass
    ensures Dirs(AddStep(vars, Some(AutoloadKey), VStr(path), VBool(false)).vars) == Dirs(vars) + [VStr(path)]
  {
  }

  class Autoloader {
    var directoryFiles: map<string, Index>
    const registry: Registry

    /** The singleton's constructor: disables searching unless the registry
        already has a setting. */
    constructor(registry: Registry)
      modifies registry
      ensures this.registry == registry
      ensures directoryFiles == map[]
      ensures registry.vars == WithSearchDefault(old(registry.vars))
    {
      this.registry := registry;
      directoryFiles := map[];
      new;
      var present := registry.IsKey(Some(SearchEnableKey));
      if !present {
        var _ := registry.Set(Some(SearchEnableKey), VBool(false), VBool(false));
      }
    }

    /** `listDirs` */
    method ListDirs() returns (dirs: Value)
      ensures ForeachValues(dirs) == Dirs(registry.vars)
      ensures AutoloadKey in registry.vars ==> dirs == registry.vars[AutoloadKey].value
      ensures AutoloadKey !in registry.vars ==> dirs == VList([])
    {
      var present := registry.IsKey(Some(AutoloadKey));
      if present {
        var got := registry.Get(Some(AutoloadKey));
        dirs := got.value;
      } else {
        dirs := VList([]);
      }
    }

    /** The normalisation loop of `accept`, on the filter as a PHP array:
        each position is read and overwritten, in place, by its
        `truepath`. */
    method FilterPaths(h: Host) returns (filter: Option<seq<Value>>)
      ensures filter == IgnorePaths(h, registry.vars)
    {
      var present := registry.IsKey(Some(PathIgnoreKey));
      if !present {
        return None;
      }
      var got := registry.Get(Some(PathIgnoreKey));
      var entries := Entries(Wrapped(got.value));
      ghost var start := entries;
      var count := |entries|;
      var i := 0;
      while i < count
        invariant i <= count
        invariant NormalizedFrom(h, entries, i, count) == NormalizedFrom(h, start, 0, count)
      {
        var key := NatToString(i);
        var path := Paths.Truepath(h.cwd, h.links, PathArg(ArrayGet(entries, key)));
        entries := ArraySet(entries, key, VStr(path));
        i := i + 1;
      }
      filter := Some(ForeachValues(VObj(entries)));
    }

    /** `RecursiveDirectoryFilter::accept` */
    method Accept(h: Host, entryDir: string) returns (accept: bool)
      ensures accept == Accepted(h, registry.vars, entryDir)
    {
      var filter := FilterPaths(h);
      if filter.None? {
        return true;
      }
      accept := !LooseIn(VStr(entryDir), filter.value);
    }

    /** `loadDir`: empties the directory's index, then refuses a path that
        is not a directory, then indexes every accepted PHP file. */
    method LoadDir(h: Host, directory: string) returns (outcome: Outcome)
      modifies this
      ensures (outcome, directoryFiles) == Loaded(h, registry.vars, old(directoryFiles), directory)
    {
      ghost var vars := registry.vars;
      var d := Paths.Truepath(h.cwd, h.links, directory);
      directoryFiles := directoryFiles[d := []];
      if d !in h.walks {
        return Fail(NotADirectory(d));
      }
      var filter := FilterPaths(h);
      var ignored := if filter.None? then [] else filter.value;
      assert ignored == Ignored(h, vars);
      IndexWalk(d, h.walks[d], ignored);
      assert LoadDirIndex(h, vars, directory) == (Pass, IndexOf(h.walks[d], d, ignored));
      assert directoryFiles == old(directoryFiles)[d := IndexOf(h.walks[d], d, ignored)];
      return Pass;
    }

    /** The loop of `loadDir`: each accepted PHP file of the walk is stored,
        in place, under its key in the (emptied) index of `d`. */
    method IndexWalk(d: string, walk: seq<string>, ignored: seq<Value>)
      requires d in directoryFiles && directoryFiles[d] == []
      modifies this
      ensures directoryFiles == old(directoryFiles)[d := IndexOf(walk, d, ignored)]
    {
      var index: Index := [];
      var i := 0;
      assert walk[..0] == [];
      while i < |walk|
        invariant 0 <= i <= |walk|
        invariant index == IndexOf(walk[..i], d, ignored)
        invariant directoryFiles == old(directoryFiles)[d := index]
      {
        var p := walk[i];
        IndexOfStep(walk, i, d, ignored);
        if Indexable(d, p, ignored) {
          index := Put(index, FileKey(p), p);
          directoryFiles := directoryFiles[d := index];
        }
        i := i + 1;
      }
      assert walk[..|walk|] == walk;
    }

    /** `rescanDirs` */
    method RescanDirs(h: Host) returns (outcome: Outcome)
      modifies this
      ensures (outcome, directoryFiles) == Rescan(h, registry.vars, old(directoryFiles), Dirs(registry.vars))
    {
      ghost var vars := registry.vars;
      var listed := ListDirs();
      var dirs := ForeachValues(listed);
      var i := 0;
      while i < |dirs|
        invariant i <= |dirs|
        invariant Rescan(h, vars, old(directoryFiles), dirs) == RescanFrom(h, vars, directoryFiles, dirs, i)
      {
        ghost var before := directoryFiles;
        outcome := LoadDir(h, PathArg(dirs[i]));
        RescanFromStep(h, vars, before, dirs, i, outcome, directoryFiles);
        if outcome.Fail? {
          return;
        }
        i := i + 1;
      }
      return Pass;
    }

    /** `autoloadDir` */
    method AutoloadDir(cls: string, dir: Value) returns (r: Result<Option<string>>)
      ensures r == DirLookup(registry.vars, directoryFiles, cls, dir)
    {
      var key := DirKey(dir);
      if key.None? || key.value !in directoryFiles {
        return Ok(None);
      }
      var files := directoryFiles[key.value];
      var fileKey := ClassKey(cls);
      var direct := Find(files, fileKey);
      if direct.Some? {
        return Ok(direct);
      }
      var enabled := registry.Get(Some(SearchEnableKey));
      if enabled.Err? {
        return Err(enabled.error);
      }
      if !Truthy(enabled.value) {
        return Ok(None);
      }
      var found := SearchFiles(files, ClassPattern.ClassSegments(cls));
      return Ok(found);
    }

    /** The loop of `autoloadDir` over the directory's files, in index
        order: the first file whose name matches the class pattern. */
    method SearchFiles(files: Index, segments: seq<string>) returns (found: Option<string>)
      requires |segments| >= 1
      ensures found == Search(files, segments)
    {
      var i := 0;
      while i < |files|
        invariant 0 <= i <= |files|
        invariant Search(files[i..], segments) == Search(files, segments)
      {
        assert files[i..][1..] == files[i + 1..];
        if Hit(files[i].1, segments) {
          return Some(files[i].1);
        }
        i := i + 1;
      }
      return None;
    }

    /** `autoload`: every listed directory in order, then, on a complete
        miss, one rescan and a second pass. */
    method Autoload(h: Host, cls: string) returns (r: Result<Option<string>>)
      modifies this
      ensures var dirs := Dirs(registry.vars);
              var first := FirstHit(registry.vars, old(directoryFiles), cls, dirs);
              if first != Ok(None) then r == first && directoryFiles == old(directoryFiles)
              else
                var (outcome, files) := Rescan(h, registry.vars, old(directoryFiles), dirs);
                directoryFiles == files
                && r == if outcome.Fail? then Err(outcome.error) else FirstHit(registry.vars, files, cls, dirs)
    {
      var listed := ListDirs();
      var dirs := ForeachValues(listed);
      r := TryDirs(cls, dirs);
      if r != Ok(None) {
        return;
      }
      var outcome := RescanDirs(h);
      if outcome.Fail? {
        return Err(outcome.error);
      }
      listed := ListDirs();
      dirs := ForeachValues(listed);
      r := TryDirs(cls, dirs);
    }

    /** One pass of `autoload` over the directories. */
    method TryDirs(cls: string, dirs: seq<Value>) returns (r: Result<Option<string>>)
      ensures r == FirstHit(registry.vars, directoryFiles, cls, dirs)
    {
      var i := 0;
      while i < |dirs|
        invariant 0 <= i <= |dirs|
        invariant FirstHit(registry.vars, directoryFiles, cls, dirs)
               == FirstHit(registry.vars, directoryFiles, cls, dirs[i..])
      {
        assert dirs[i..][1..] == dirs[i + 1..];
        r := AutoloadDir(cls, dirs[i]);
        if r != Ok(None) {
          return;
        }
        i := i + 1;
      }
      return Ok(None);
    }

    /** `addDir`: refuses a non-string or empty argument, appends the
        normalised path to the registry's `autoload` list, then indexes the
        directory (throwing if it is not one; the list entry stays). */
    method AddDir(h: Host, directory: Value) returns (outcome: Outcome)
      modifies this, registry
      ensures !directory.VStr? || !Truthy(directory) ==>
                outcome == Fail(InvalidType) && registry.vars == old(registry.vars)
                && directoryFiles == old(directoryFiles)
      ensures directory.VStr? && Truthy(directory) ==>
                var added := AddStep(old(registry.vars), Some(AutoloadKey),
                                     VStr(Paths.Resolved(h.cwd, h.links, directory.s)), VBool(false));
                registry.vars == added.vars
                && (added.outcome.Fail? ==> outcome == added.outcome && directoryFiles == old(directoryFiles))
                && (added.outcome.Pass? ==>
                      (outcome, directoryFiles) == Loaded(h, added.vars, old(directoryFiles), directory.s))
    {
      if !directory.VStr? || !Truthy(directory) {
        return Fail(InvalidType);
      }
      var path := Paths.Truepath(h.cwd, h.links, directory.s);
      outcome := registry.Add(Some(AutoloadKey), VStr(path), VBool(false));
      if outcome.Fail? {
        return;
      }
      outcome := LoadDir(h, directory.s);
    }
  }

}
