/**
 * The legacy `VictoryCMS\AutoLoader`. Its constructor fills two local
 * variables, not the fields, so both lists start out null. Directories and
 * file-name formats are appended one string at a time, nested arrays being
 * flattened. To find a class in a directory it tries each format in turn
 * (`directory . sprintf(format, class)`, with no separator added) and
 * includes the first file that exists; otherwise it reads the directory and
 * descends into every subdirectory entry. `autoload` does this for every
 * registered directory and does not stop once the class is found.
 *
 * The descent's guard `$entry != '.' || $entry != '..'` holds for every
 * entry, so as written the search descends into `.` for ever. The search
 * below uses the evidently intended guard, which skips `.` and `..`.
 *
 * The file system is given as data: the set of paths for which
 * `file_exists` holds, and for each registered directory the tree of
 * entries `dir()->read()` yields below it.
 */
module LegacyAutoloader {
  import opened Values

  /** A directory entry: a plain file, or a directory with its entries in
      the order `read()` yields them (after `.` and `..`). */
  datatype Node = File | Dir(entries: seq<(string, Node)>)

  datatype LegacyFs = LegacyFs(
    existing: set<string>,       // file_exists()
    trees: map<string, Node>)    // what dir() opens; a missing key or a file makes it fail

  /** The tree `dir($directory)` reads; `File` stands for a failing `dir()`. */
  function Opened(fs: LegacyFs, directory: string): Node {
    if directory in fs.trees then fs.trees[directory] else File
  }

  // ---------------------------------------------------------------------
  // Registration

  /** The strings `addDirectory` and `addFileNameFormat` append, in order:
      a string itself, the strings inside an array at any depth, and
      nothing for anything else. */
  function Flatten(v: Value): (r: seq<string>)
    decreases v, 1
  {
    match v
    case VStr(s) => [s]
    case VList(xs) => FlattenAll(xs)
    case _ => []
  }

  function FlattenAll(xs: seq<Value>): (r: seq<string>)
    decreases xs, 0
  {
    if xs == [] then [] else Flatten(xs[0]) + FlattenAll(xs[1..])
  }

  /** Appending to a field that may still be null: the first append makes
      it an array. */
  function Appended(field: Option<seq<string>>, more: seq<string>): Option<seq<string>> {
    if more == [] then field
    else if field.None? then Some(more)
    else Some(field.value + more)
  }

  /** The strings of the field; `foreach` over null visits nothing. */
  function Listed(field: Option<seq<string>>): seq<string> {
    if field.None? then [] else field.value
  }

  lemma AppendedLists(field: Option<seq<string>>, more: seq<string>)
    ensures Listed(Appended(field, more)) == Listed(field) + more
  {
  }

  lemma {:induction false} FlattenAllConcat(xs: seq<Value>, ys: seq<Value>)
    ensures FlattenAll(xs + ys) == FlattenAll(xs) + FlattenAll(ys)
    decreases |xs|
  {
    if xs == [] {
      assert xs + ys == ys;
    } else {
      assert (xs + ys)[0] == xs[0];
      assert (xs + ys)[1..] == xs[1..] + ys;
      FlattenAllConcat(xs[1..], ys);
    }
  }

  /** Every string the flattening yields is a string found in the value. */
  lemma {:induction false} FlattenFromValue(v: Value, s: string)
    ensures s in Flatten(v) ==> VStr(s) == v || (v.VList? && exists i :: 0 <= i < |v.items| && s in Flatten(v.items[i]))
    decreases v
  {
    if v.VList? && s in Flatten(v) {
      FlattenAllMember(v.items, s);
    }
  }

  lemma {:induction false} FlattenAllMember(xs: seq<Value>, s: string)
    requires s in FlattenAll(xs)
    ensures exists i :: 0 <= i < |xs| && s in Flatten(xs[i])
    decreases |xs|
  {
    if s !in Flatten(xs[0]) {
      FlattenAllMember(xs[1..], s);
      var i :| 0 <= i < |xs[1..]| && s in Flatten(xs[1..][i]);
      assert s in Flatten(xs[i + 1]);
    }
  }

  // ---------------------------------------------------------------------
  // The search

  /** `sprintf($format, $class)`, with `None` for the `false` it returns
      when the format asks for more arguments than the one given: `%%`
      gives `%`, the first `%s` gives the class name, and a second `%s`
      has no argument left. `arg` is the argument not yet consumed. */
  function Format(format: string, arg: Option<string>): Option<string>
    decreases |format|
  {
    if |format| < 2 then Some(format)
    else if format[0] == '%' && format[1] == '%' then Prefixed("%", Format(format[2..], arg))
    else if format[0] == '%' && format[1] == 's' then
      if arg.None? then None else Prefixed(arg.value, Format(format[2..], None))
    else Prefixed([format[0]], Format(format[1..], arg))
  }

  function Prefixed(prefix: string, rest: Option<string>): Option<string> {
    if rest.None? then None else Some(prefix + rest.value)
  }

  /** A string concatenated with the result of `sprintf`: `false` adds
      nothing. */
  function Text(formatted: Option<string>): string {
    if formatted.None? then "" else formatted.value
  }

  /** The path tried for one format. */
  function Candidate(directory: string, format: string, cls: string): string {
    directory + Text(Format(format, Some(cls)))
  }

  /** Text without `%` comes out as it stands. */
  lemma {:induction false} PlainFormat(text: string, arg: Option<string>)
    requires '%' !in text
    ensures Format(text, arg) == Some(text)
    decreases |text|
  {
    if |text| >= 2 {
      assert text[0] in text;
      assert forall c :: c in text[1..] ==> c in text;
      PlainFormat(text[1..], arg);
      assert [text[0]] + text[1..] == text;
    }
  }

  /** A format with one `%s` and no other `%` puts the class name in its
      place, as the default formats do. */
  lemma {:induction false} OneDirective(before: string, after: string, cls: string)
    requires '%' !in before && '%' !in after
    ensures Format(before + "%s" + after, Some(cls)) == Some(before + cls + after)
    decreases |before|
  {
    if before == [] {
      var format := before + "%s" + after;
      assert format == "%s" + after;
      assert format[0] == '%' && format[1] == 's' && format[2..] == after;
      PlainFormat(after, None);
      assert Format(format, Some(cls)) == Prefixed(cls, Format(after, None));
      assert before + cls + after == cls + after;
    } else {
      assert before[0] in before;
      assert forall c :: c in before[1..] ==> c in before;
      OneDirective(before[1..], after, cls);
      assert (before + "%s" + after)[1..] == before[1..] + "%s" + after;
      assert [before[0]] + (before[1..] + cls + after) == before + cls + after;
    }
  }

  /** The first default format names `<class>.php`. */
  lemma PhpFormat(cls: string)
    ensures Format("%s.php", Some(cls)) == Some(cls + ".php")
  {
    OneDirective("", ".php", cls);
    assert "" + "%s" + ".php" == "%s.php" && "" + cls + ".php" == cls + ".php";
  }

  /** `%%` is an escaped percent sign: `%%s.php` names the file `%s.php`
      whatever the class. */
  lemma EscapedPercent(cls: string)
    ensures Format("%%s.php", Some(cls)) == Some("%s.php")
  {
    PlainFormat("s.php", Some(cls));
    assert "%%s.php"[0] == '%' && "%%s.php"[1] == '%' && "%%s.php"[2..] == "s.php";
    assert "%" + "s.php" == "%s.php";
  }

  /** A format with two `%s` lacks an argument: `sprintf` returns false and
      the path tried is the directory itself. */
  lemma TwoDirectives(directory: string, cls: string)
    ensures Format("%s/%s.php", Some(cls)) == None
    ensures Candidate(directory, "%s/%s.php", cls) == directory
  {
    assert "%s/%s.php"[2..] == "/%s.php";
    assert "/%s.php"[1..] == "%s.php";
    assert Format("%s.php", None) == None;
    assert Format("/%s.php", None) == None;
  }

  /** The first format whose candidate exists, if any. */
  function FirstExisting(fs: LegacyFs, directory: string, formats: seq<string>, cls: string): (r: Option<string>)
    ensures r.Some? ==> r.value in fs.existing
    ensures r.Some? <==> exists i :: 0 <= i < |formats| && Candidate(directory, formats[i], cls) in fs.existing
  {
    if formats == [] then None
    else if Candidate(directory, formats[0], cls) in fs.existing then Some(Candidate(directory, formats[0], cls))
    else
      var r := FirstExisting(fs, directory, formats[1..], cls);
      assert forall i :: 1 <= i < |formats| ==> formats[i] == formats[1..][i - 1];
      r
  }

  /** The guard as written: true for every entry. */
  predicate GuardAsWritten(entry: string) {
    entry != "." || entry != ".."
  }

  /** The guard as intended: neither `.` nor `..`. */
  predicate Guard(entry: string) {
    entry != "." && entry != ".."
  }

  /** `include_once`: a path already included is not included again. */
  function IncludeOnce(included: seq<string>, path: string): seq<string> {
    if path in included then included else included + [path]
  }

  /** `autoloadRecursive($class, $directory)` with the intended guard, on
      the tree `node` that `dir($directory)` reads: the paths included so
      far, or the fatal error of reading a directory that `dir()` could
      not open. */
  function Search(fs: LegacyFs, formats: seq<string>, cls: string, directory: string,
                  node: Node, included: seq<string>): (r: Result<seq<string>>)
    decreases node, 1, 0
  {
    var hit := FirstExisting(fs, directory, formats, cls);
    if hit.Some? then Ok(IncludeOnce(included, hit.value))
    else if node.File? then Err(NotADirectory(directory))
    else SearchEntries(fs, formats, cls, directory, node, 0, included)
  }

  /** The `while ($entry = $d->read())` loop from entry `i` on: it stops at
      the end, or at an entry named `0`, which is false. */
  function SearchEntries(fs: LegacyFs, formats: seq<string>, cls: string, directory: string,
                         node: Node, i: nat, included: seq<string>): (r: Result<seq<string>>)
    requires node.Dir? && i <= |node.entries|
    decreases node, 0, |node.entries| - i
  {
    if i == |node.entries| || node.entries[i].0 == "0" then Ok(included)
    else
      var (name, child) := node.entries[i];
      if child.Dir? && Guard(name) then
        match Search(fs, formats, cls, directory + "/" + name, child, included)
        case Err(e) => Err(e)
        case Ok(included') => SearchEntries(fs, formats, cls, directory, node, i + 1, included')
      else SearchEntries(fs, formats, cls, directory, node, i + 1, included)
  }

  /** `autoloadRecursive($class, $directory)` as written, within a budget
      of `fuel` nested calls: `None` when the budget runs out. The listing
      starts with `.`, the directory itself, which the guard as written
      lets through like every other entry. */
  function SearchAsWritten(fs: LegacyFs, formats: seq<string>, cls: string, directory: string,
                           node: Node, included: seq<string>, fuel: nat): Option<Result<seq<string>>>
    decreases fuel, 0
  {
    if fuel == 0 then None
    else
      var hit := FirstExisting(fs, directory, formats, cls);
      if hit.Some? then Some(Ok(IncludeOnce(included, hit.value)))
      else if node.File? then Some(Err(NotADirectory(directory)))
      else EntriesAsWritten(fs, formats, cls, directory, [(".", node)] + node.entries, 0, included, fuel - 1)
  }

  function EntriesAsWritten(fs: LegacyFs, formats: seq<string>, cls: string, directory: string,
                            listing: seq<(string, Node)>, i: nat, included: seq<string>, fuel: nat)
    : Option<Result<seq<string>>>
    requires i <= |listing|
    decreases fuel, 1, |listing| - i
  {
    if i == |listing| || listing[i].0 == "0" then Some(Ok(included))
    else
      var (name, child) := listing[i];
      if child.Dir? && GuardAsWritten(name) then
        match SearchAsWritten(fs, formats, cls, directory + "/" + name, child, included, fuel)
        case None => None
        case Some(Err(e)) => Some(Err(e))
        case Some(Ok(included')) => EntriesAsWritten(fs, formats, cls, directory, listing, i + 1, included', fuel)
      else EntriesAsWritten(fs, formats, cls, directory, listing, i + 1, included, fuel)
  }

  /** `autoload($class)`: every registered directory in turn, whether or
      not an earlier one already included the class. */
  function AutoloadAll(fs: LegacyFs, formats: seq<string>, cls: string, dirs: seq<string>,
                       included: seq<string>): Result<seq<string>>
    decreases |dirs|
  {
    if dirs == [] then Ok(included)
    else match Search(fs, formats, cls, dirs[0], Opened(fs, dirs[0]), included)
      case Err(e) => Err(e)
      case Ok(included') => AutoloadAll(fs, formats, cls, dirs[1..], included')
  }

  class AutoLoader {
    var directories: Option<seq<string>>
    var fileNameFormats: Option<seq<string>>

    /** The constructor's two arrays are locals: both fields stay null. */
    constructor()
      ensures directories == None && fileNameFormats == None
    {
      var directories: seq<string> := [];
      var fileNameFormats := ["%s.php", "%s.class.php", "class.%s.php", "%s.inc.php"];
      this.directories := None;
      this.fileNameFormats := None;
    }

    /** `addDirectory($directory)` */
    method AddDirectory(directory: Value)
      modifies this
      ensures directories == Appended(old(directories), Flatten(directory))
      ensures fileNameFormats == old(fileNameFormats)
      decreases directory
    {
      if directory.VStr? {
        directories := Appended(directories, [directory.s]);
      } else if directory.VList? {
        var xs := directory.items;
        var i := 0;
        while i < |xs|
          invariant 0 <= i <= |xs|
          invariant directories == Appended(old(directories), FlattenAll(xs[..i]))
          invariant fileNameFormats == old(fileNameFormats)
        {
          AddDirectory(xs[i]);
          AppendedTwice(old(directories), FlattenAll(xs[..i]), Flatten(xs[i]));
          assert xs[..i + 1] == xs[..i] + [xs[i]];
          FlattenAllConcat(xs[..i], [xs[i]]);
          assert [xs[i]][1..] == [];
          assert FlattenAll([xs[i]]) == Flatten(xs[i]) + FlattenAll([]) == Flatten(xs[i]);
          assert FlattenAll(xs[..i + 1]) == FlattenAll(xs[..i]) + Flatten(xs[i]);
          i := i + 1;
        }
        assert xs[..|xs|] == xs;
      }
    }

    /** `addFileNameFormat($format)` */
    method AddFileNameFormat(format: Value)
      modifies this
      ensures fileNameFormats == Appended(old(fileNameFormats), Flatten(format))
      ensures directories == old(directories)
      decreases format
    {
      if format.VStr? {
        fileNameFormats := Appended(fileNameFormats, [format.s]);
      } else if format.VList? {
        var xs := format.items;
        var i := 0;
        while i < |xs|
          invariant 0 <= i <= |xs|
          invariant fileNameFormats == Appended(old(fileNameFormats), FlattenAll(xs[..i]))
          invariant directories == old(directories)
        {
          AddFileNameFormat(xs[i]);
          AppendedTwice(old(fileNameFormats), FlattenAll(xs[..i]), Flatten(xs[i]));
          assert xs[..i + 1] == xs[..i] + [xs[i]];
          FlattenAllConcat(xs[..i], [xs[i]]);
          assert [xs[i]][1..] == [];
          assert FlattenAll([xs[i]]) == Flatten(xs[i]) + FlattenAll([]) == Flatten(xs[i]);
          assert FlattenAll(xs[..i + 1]) == FlattenAll(xs[..i]) + Flatten(xs[i]);
          i := i + 1;
        }
        assert xs[..|xs|] == xs;
      }
    }

    /** `autoloadRecursive($class, $directory)` on the tree `node` read
        from `$directory`; `included` is what `include_once` has seen. */
    method AutoloadRecursive(fs: LegacyFs, cls: string, directory: string, node: Node, included: seq<string>)
      returns (r: Result<seq<string>>)
      ensures r == Search(fs, Listed(fileNameFormats), cls, directory, node, included)
      decreases node
    {
      var formats := Listed(fileNameFormats);
      var k := 0;
      while k < |formats|
        invariant 0 <= k <= |formats|
        invariant FirstExisting(fs, directory, formats, cls) == FirstExisting(fs, directory, formats[k..], cls)
      {
        var path := directory + Text(Format(formats[k], Some(cls)));
        if path in fs.existing {
          return Ok(IncludeOnce(included, path));
        }
        assert formats[k..][1..] == formats[k + 1..];
        k := k + 1;
      }
      if node.File? {
        return Err(NotADirectory(directory));
      }
      var acc := included;
      var i := 0;
      while i < |node.entries| && node.entries[i].0 != "0"
        invariant 0 <= i <= |node.entries|
        invariant SearchEntries(fs, formats, cls, directory, node, 0, included)
               == SearchEntries(fs, formats, cls, directory, node, i, acc)
        decreases |node.entries| - i
      {
        var (name, child) := node.entries[i];
        if child.Dir? && Guard(name) {
          var sub := AutoloadRecursive(fs, cls, directory + "/" + name, child, acc);
          if sub.Err? {
            return sub;
          }
          acc := sub.value;
        }
        i := i + 1;
      }
      return Ok(acc);
    }

    /** `autoload($class)`: searches every registered directory. */
    method Autoload(fs: LegacyFs, cls: string, included: seq<string>) returns (r: Result<seq<string>>)
      ensures r == AutoloadAll(fs, Listed(fileNameFormats), cls, Listed(directories), included)
    {
      var dirs := Listed(directories);
      ghost var goal := AutoloadAll(fs, Listed(fileNameFormats), cls, dirs, included);
      var acc := included;
      while dirs != []
        invariant goal == AutoloadAll(fs, Listed(fileNameFormats), cls, dirs, acc)
        decreases |dirs|
      {
        var d := dirs[0];
        var sub := AutoloadRecursive(fs, cls, d, Opened(fs, d), acc);
        if sub.Err? {
          return sub;
        }
        acc := sub.value;
        dirs := dirs[1..];
      }
      return Ok(acc);
    }
  }

  lemma AppendedTwice(field: Option<seq<string>>, a: seq<string>, b: seq<string>)
    ensures Appended(Appended(field, a), b) == Appended(field, a + b)
  {
    if a == [] {
      assert a + b == b;
    } else if b == [] {
      assert a + b == a;
    } else if field.Some? {
      assert field.value + a + b == field.value + (a + b);
    }
  }

  // ---------------------------------------------------------------------
  // Properties of the search

  /** The guard as written lets every entry through, `.` and `..`
      included, so a directory without a matching file is entered again
      through its own `.` entry. */
  lemma GuardAsWrittenAlwaysHolds(entry: string)
    ensures GuardAsWritten(entry)
    ensures GuardAsWritten(".") && GuardAsWritten("..") && !Guard(".") && !Guard("..")
  {
  }

  /** As written, a directory below which no candidate file exists is
      searched without end: whatever the budget, it runs out, because the
      search enters `directory/.`, then `directory/./.`, and so on. */
  lemma {:induction false} AsWrittenDiverges(fs: LegacyFs, formats: seq<string>, cls: string, directory: string,
                                             node: Node, included: seq<string>, fuel: nat)
    requires node.Dir?
    requires forall p :: p in fs.existing ==> !(directory <= p)
    ensures SearchAsWritten(fs, formats, cls, directory, node, included, fuel) == None
    decreases fuel
  {
    if fuel > 0 {
      forall i | 0 <= i < |formats|
        ensures Candidate(directory, formats[i], cls) !in fs.existing
      {
        assert directory <= Candidate(directory, formats[i], cls);
      }
      var here := directory + "/.";
      forall p | p in fs.existing
        ensures !(here <= p)
      {
        assert directory <= here;
      }
      AsWrittenDiverges(fs, formats, cls, here, node, included, fuel - 1);
      assert directory + "/" + "." == here;
      var listing := [(".", node)] + node.entries;
      assert listing[0] == (".", node);
    }
  }

  /** A fresh autoloader searches nothing and includes nothing. */
  lemma FreshLoaderFindsNothing(fs: LegacyFs, cls: string, included: seq<string>)
    ensures AutoloadAll(fs, Listed(None), cls, Listed(None), included) == Ok(included)
  {
  }

  /** When a format matches in a directory, the search includes that file
      and does not look below: not even a failing `dir()` is reached. */
  lemma FirstFormatWins(fs: LegacyFs, formats: seq<string>, cls: string, directory: string,
                        node: Node, included: seq<string>, k: nat)
    requires k < |formats| && Candidate(directory, formats[k], cls) in fs.existing
    requires forall j :: 0 <= j < k ==> Candidate(directory, formats[j], cls) !in fs.existing
    ensures Search(fs, formats, cls, directory, node, included)
         == Ok(IncludeOnce(included, Candidate(directory, formats[k], cls)))
  {
    FirstExistingIsFirst(fs, directory, formats, cls, k);
  }

  lemma {:induction false} FirstExistingIsFirst(fs: LegacyFs, directory: string, formats: seq<string>, cls: string, k: nat)
    requires k < |formats| && Candidate(directory, formats[k], cls) in fs.existing
    requires forall j :: 0 <= j < k ==> Candidate(directory, formats[j], cls) !in fs.existing
    ensures FirstExisting(fs, directory, formats, cls) == Some(Candidate(directory, formats[k], cls))
  {
    if k > 0 {
      FirstExistingIsFirst(fs, directory, formats[1..], cls, k - 1);
    }
  }

  /** What the search includes only grows, keeps its order, holds no path
      twice, and every new path names an existing file. */
  predicate Grows(fs: LegacyFs, included: seq<string>, after: seq<string>) {
    included <= after
    && (forall j :: |included| <= j < |after| ==> after[j] in fs.existing)
    && ((forall x, y :: 0 <= x < y < |included| ==> included[x] != included[y])
        ==> (forall x, y :: 0 <= x < y < |after| ==> after[x] != after[y]))
  }

  lemma GrowsTrans(fs: LegacyFs, a: seq<string>, b: seq<string>, c: seq<string>)
    requires Grows(fs, a, b) && Grows(fs, b, c)
    ensures Grows(fs, a, c)
  {
    forall j | |a| <= j < |c|
      ensures c[j] in fs.existing
    {
      if j < |b| {
        assert c[j] == b[j];
      }
    }
  }

  lemma IncludeOnceGrows(fs: LegacyFs, included: seq<string>, path: string)
    requires path in fs.existing
    ensures Grows(fs, included, IncludeOnce(included, path))
  {
  }

  lemma {:induction false} SearchGrows(fs: LegacyFs, formats: seq<string>, cls: string, directory: string,
                                       node: Node, included: seq<string>)
    ensures var r := Search(fs, formats, cls, directory, node, included);
            r.Ok? ==> Grows(fs, included, r.value)
    decreases node, 1
  {
    var hit := FirstExisting(fs, directory, formats, cls);
    if hit.Some? {
      IncludeOnceGrows(fs, included, hit.value);
    } else if node.Dir? {
      SearchEntriesGrows(fs, formats, cls, directory, node, 0, included);
    }
  }

  lemma {:induction false} SearchEntriesGrows(fs: LegacyFs, formats: seq<string>, cls: string, directory: string,
                                              node: Node, i: nat, included: seq<string>)
    requires node.Dir? && i <= |node.entries|
    ensures var r := SearchEntries(fs, formats, cls, directory, node, i, included);
            r.Ok? ==> Grows(fs, included, r.value)
    decreases node, 0, |node.entries| - i
  {
    if i < |node.entries| && node.entries[i].0 != "0" {
      var (name, child) := node.entries[i];
      if child.Dir? && Guard(name) {
        var sub := Search(fs, formats, cls, directory + "/" + name, child, included);
        SearchGrows(fs, formats, cls, directory + "/" + name, child, included);
        if sub.Ok? {
          SearchEntriesGrows(fs, formats, cls, directory, node, i + 1, sub.value);
          var r := SearchEntries(fs, formats, cls, directory, node, i + 1, sub.value);
          if r.Ok? {
            GrowsTrans(fs, included, sub.value, r.value);
          }
        }
      } else {
        SearchEntriesGrows(fs, formats, cls, directory, node, i + 1, included);
      }
    }
  }

  /** Over all registered directories: what is included only grows, with
      no duplicates, and only existing files are added. */
  lemma {:induction false} AutoloadGrows(fs: LegacyFs, formats: seq<string>, cls: string, dirs: seq<string>,
                                         included: seq<string>)
    ensures var r := AutoloadAll(fs, formats, cls, dirs, included);
            r.Ok? ==> Grows(fs, included, r.value)
    decreases |dirs|
  {
    if dirs != [] {
      var sub := Search(fs, formats, cls, dirs[0], Opened(fs, dirs[0]), included);
      SearchGrows(fs, formats, cls, dirs[0], Opened(fs, dirs[0]), included);
      if sub.Ok? {
        AutoloadGrows(fs, formats, cls, dirs[1..], sub.value);
        var r := AutoloadAll(fs, formats, cls, dirs[1..], sub.value);
        if r.Ok? {
          GrowsTrans(fs, included, sub.value, r.value);
        }
      }
    }
  }

  /** The search does not stop at the first hit: a class file found in
      the first directory and another in the second are both included. */
  lemma SearchGoesOn(fs: LegacyFs, cls: string, d1: string, d2: string)
    requires d1 + cls + ".php" in fs.existing && d2 + cls + ".php" in fs.existing
    requires d1 + cls + ".php" != d2 + cls + ".php"
    ensures AutoloadAll(fs, ["%s.php"], cls, [d1, d2], [])
         == Ok([d1 + cls + ".php", d2 + cls + ".php"])
  {
    var p1 := d1 + cls + ".php";
    var p2 := d2 + cls + ".php";
    PhpFormat(cls);
    assert Candidate(d1, "%s.php", cls) == p1 && Candidate(d2, "%s.php", cls) == p2;
    assert FirstExisting(fs, d1, ["%s.php"], cls) == Some(p1);
    assert FirstExisting(fs, d2, ["%s.php"], cls) == Some(p2);
    assert [] + [p1] == [p1] && [p1] + [p2] == [p1, p2] && p2 !in [p1];
    assert Search(fs, ["%s.php"], cls, d1, Opened(fs, d1), []) == Ok([p1]);
    assert Search(fs, ["%s.php"], cls, d2, Opened(fs, d2), [p1]) == Ok([p1, p2]);
    assert [d1, d2][1..] == [d2];
    assert AutoloadAll(fs, ["%s.php"], cls, [d2], [p1]) == Ok([p1, p2]);
  }

  /** An entry named `0` ends the listing: nothing after it is searched. */
  lemma ZeroEndsListing(fs: LegacyFs, formats: seq<string>, cls: string, directory: string,
                        before: seq<(string, Node)>, after: seq<(string, Node)>, included: seq<string>)
    requires forall j :: 0 <= j < |before| ==> before[j].1.File?
    ensures SearchEntries(fs, formats, cls, directory, Dir(before + [("0", File)] + after), 0, included)
         == Ok(included)
  {
    var node := Dir(before + [("0", File)] + after);
    assert node.entries[|before|].0 == "0";
    var i := |before|;
    while i > 0
      invariant 0 <= i <= |before|
      invariant SearchEntries(fs, formats, cls, directory, node, i, included) == Ok(included)
    {
      assert node.entries[i - 1] == before[i - 1];
      i := i - 1;
    }
  }
}
