/**
 * `LoadManager::load`: reads a JSON configuration file and writes it into
 * the registry. Every entry under a `load` key names a further file. The
 * entry is appended to the registry's `load` list, then loaded in turn,
 * unless a snapshot of that list, taken when the key was reached, already
 * holds it. A failure anywhere throws. Nothing written before the failure
 * is undone, and the user-facing message is set only by the four file
 * checks.
 *
 * Two lines of the loader do not do what they evidently mean to do, and
 * `Variant` selects between the code as written and the evident intent:
 *  - a scalar `load` value adds the loop variable `$item` in place of the
 *    value. That variable is null, or left over from an earlier `load`
 *    array of the same file;
 *  - every other key is tested with object-property syntax on the
 *    associative array the decoder returned. That test never holds, so
 *    those keys are skipped. The intended reading adds the key's `value`
 *    field with its `readonly` field, which defaults to false.
 *
 * The loader is specified by the mutually recursive functions `LoadFile`,
 * `LoadMembers`, `LoadItems` and `LoadOne`. They terminate because each
 * recursive load first adds a path that was not in the `load` list, and
 * the paths come from the finitely many decoded documents. The class
 * `LoadManager` holds the error message, and its `Load` method is proved
 * to follow `LoadFile`.
 */
module VcmsLoadManager {
  import opened Values
  import opened Environment
  import opened VcmsRegistry

  const LoadKey: string := "load"

  /** The code as written, or as its comments and the rest of the system
      evidently intend. */
  datatype Variant = AsWritten | Intended

  /** The registry map, the user error message and the outcome after a
      call. */
  datatype Loaded = Loaded(vars: Vars, message: string, outcome: Outcome)

  const JsonRequired: string := "JSON PHP extension is required.\n"

  /** The path in this message is `realpath`'s `false`, which prints as
      nothing. */
  const PathMissingMessage: string := "Cannot find path for configuration file: .\n"

  function UnreadableMessage(path: string): string {
    "Cannot read file configuration file: " + path + ".\n"
  }

  /** The texts the loader's message table has for `json_last_error()`; a
      code outside the table reads as the empty string. */
  function JsonErrorText(code: JsonError): string {
    match code
    case JsonErrorNone => "No error has occurred"
    case JsonErrorDepth => "The maximum stack depth has been exceeded"
    case JsonErrorCtrlChar => "Control character error, possibly incorrectly encoded"
    case JsonErrorSyntax => "Syntax error"
    case _ => ""
  }

  /** `getJsonErrorMessage($filePath)`: plain text on the command line,
      HTML markup otherwise. */
  function JsonErrorMessage(path: string, cli: bool, code: JsonError): string {
    "Could not decode configuration file "
      + (if cli then path else "<em>" + path + "</em>")
      + (if cli then ": " else ":&nbsp;<strong>")
      + JsonErrorText(code)
      + (if cli then ".\n" else "</strong>")
  }

  /** The errors raised by the loader's own file checks. */
  predicate IsFileError(e: Error) {
    e.JsonUnavailable? || e.PathNotFound? || e.Unreadable? || e.Undecodable?
  }

  /** A key that PHP's loose `==` finds equal to `'load'`: the string
      itself, or the integer 0 to which the key "0" (and the first position
      of a list) is converted. */
  predicate IsLoadKey(key: string) {
    key == LoadKey || key == "0"
  }

  /** The keys and values `foreach` visits in a decoded document; a scalar
      document is not iterable. */
  function DocEntries(doc: Value): seq<(string, Value)> {
    if IsArray(doc) then Entries(doc) else []
  }

  /** `$item` after a `foreach` over `items`: the last item, or the earlier
      binding when there was none. */
  function LastOr(items: seq<Value>, item: Value): Value {
    if items == [] then item else items[|items| - 1]
  }

  /** The registry's `load` list as `in_array` searches it. */
  function LoadedList(vars: Vars): seq<Value> {
    if LoadKey in vars then ForeachValues(vars[LoadKey].value) else []
  }

  ghost function LoadedSet(vars: Vars): set<Value> {
    set x | x in LoadedList(vars)
  }

  /** The `load` binding is absent or an array, as the loader itself leaves
      it. On any other value `array_merge` yields null, the list never
      grows, and a file that loads itself recurses forever. */
  predicate LoadListOk(vars: Vars) {
    LoadKey !in vars || IsArray(vars[LoadKey].value)
  }

  // ---------------------------------------------------------------------
  // Termination measure

  /** A value and every value nested in it. */
  ghost function SubValues(v: Value): set<Value>
    decreases v
  {
    match v
    case VList(xs) => {v} + set i, x | 0 <= i < |xs| && x in SubValues(xs[i]) :: x
    case VObj(es) => {v} + set i, x | 0 <= i < |es| && x in SubValues(es[i].1) :: x
    case _ => {v}
  }

  /** Every value in every decoded document: the paths a `load` entry can
      name. */
  ghost function Universe(h: Host): set<Value> {
    set f, x | f in h.files && h.files[f].decoded.Decoded? && x in SubValues(h.files[f].decoded.json) :: x
  }

  /** The paths that could still be loaded. */
  ghost function Measure(h: Host, vars: Vars): nat {
    |Universe(h) - LoadedSet(vars)|
  }

  lemma SubsetCard<T>(a: set<T>, b: set<T>)
    requires a <= b
    ensures |a| <= |b|
    decreases a
  {
    if a != {} {
      var x :| x in a;
      SubsetCard(a - {x}, b - {x});
    }
  }

  /** Adding one path from `u` that was not seen before to a superset of
      the seen paths leaves fewer unseen ones. */
  lemma UnseenShrinks(u: set<Value>, base: set<Value>, seen: set<Value>, x: Value)
    requires base <= seen && x in seen && x in u && x !in base
    ensures |u - seen| < |u - base|
  {
    SubsetCard(u - seen, (u - base) - {x});
  }

  lemma EntriesInUniverse(h: Host, f: string)
    requires f in h.files && h.files[f].decoded.Decoded?
    ensures var es := DocEntries(h.files[f].decoded.json);
            forall i :: 0 <= i < |es| ==> SubValues(es[i].1) <= Universe(h)
  {
    var doc := h.files[f].decoded.json;
    var es := DocEntries(doc);
    forall i, x | 0 <= i < |es| && x in SubValues(es[i].1)
      ensures x in Universe(h)
    {
      if doc.VList? {
        assert es[i].1 == doc.items[i];
      }
      assert x in SubValues(doc);
    }
  }

  lemma ItemsInUniverse(h: Host, v: Value)
    requires SubValues(v) <= Universe(h)
    ensures forall i :: 0 <= i < |ForeachValues(v)| ==> ForeachValues(v)[i] in Universe(h)
  {
    var xs := ForeachValues(v);
    forall i | 0 <= i < |xs|
      ensures xs[i] in Universe(h)
    {
      assert xs[i] in SubValues(xs[i]);
      if v.VObj? {
        assert xs[i] == v.entries[i].1;
      }
    }
  }

  /** `Registry::add('load', $x, false)` on a list the loader keeps in
      shape appends `$x` and nothing else, or changes nothing. */
  lemma AddToLoadList(vars: Vars, x: Value)
    requires LoadListOk(vars) && !IsArray(x)
    ensures var t := AddStep(vars, Some(LoadKey), x, VBool(false));
            LoadListOk(t.vars)
            && (t.outcome.Pass? ==> LoadedList(t.vars) == LoadedList(vars) + [x] && !t.vars[LoadKey].readonly)
            && (t.outcome.Fail? ==> t.vars == vars)
  {
    var t := AddStep(vars, Some(LoadKey), x, VBool(false));
    if t.outcome.Pass? && LoadKey in vars {
      var cur := vars[LoadKey].value;
      if cur.VObj? {
        var merged := Entries(cur) + Entries(VList([x]));
        assert t.vars[LoadKey].value == VObj(merged);
        assert Entries(VList([x]))[0].1 == x;
        assert ForeachValues(VObj(merged)) == ForeachValues(cur) + [x];
      }
    }
  }

  /** `in_array` finds at least every exact occurrence. */
  lemma LooseInHolds(x: Value, xs: seq<Value>)
    requires !LooseIn(x, xs)
    ensures x !in xs
  {
    forall i | 0 <= i < |xs|
      ensures xs[i] != x
    {
      LooseEqReflexive(x);
    }
  }

  /** A call that leaves the `load` list a prefix of the new one only adds
      to the seen set. */
  lemma PrefixSeen(before: Vars, after: Vars)
    requires LoadedList(before) <= LoadedList(after)
    ensures LoadedSet(before) <= LoadedSet(after)
  {
    forall x | x in LoadedSet(before)
      ensures x in LoadedSet(after)
    {
      var i :| 0 <= i < |LoadedList(before)| && LoadedList(before)[i] == x;
      assert LoadedList(after)[i] == x;
    }
  }

  // ---------------------------------------------------------------------
  // The loader

  /** What every load keeps, whether it passes or throws: the `load` list
      stays an array and only grows at its end; no read-only entry changes
      (nothing is rolled back either); as written, no key but `load` is
      touched; the message changes only on a failure, and a failure of the
      loader's own file checks leaves a message. */
  ghost predicate Follows(variant: Variant, vars: Vars, message: string, r: Loaded) {
    LoadListOk(r.vars)
    && LoadedList(vars) <= LoadedList(r.vars)
    && Protects(vars, r.vars)
    && (variant == AsWritten ==> OthersUnchanged(vars, r.vars, LoadKey))
    && (r.outcome.Pass? ==> r.message == message)
    && (r.outcome.Fail? && IsFileError(r.outcome.error) ==> r.message != "")
  }

  lemma FollowsTrans(variant: Variant, vars: Vars, message: string, r1: Loaded, r2: Loaded)
    requires Follows(variant, vars, message, r1) && r1.outcome.Pass?
    requires Follows(variant, r1.vars, r1.message, r2)
    ensures Follows(variant, vars, message, r2)
  {
    ProtectsTransitive(vars, r1.vars, r2.vars);
  }

  /** `load($path)` on the registry map `vars`, with `message` the user
      error message before the call. */
  function LoadFile(h: Host, variant: Variant, vars: Vars, message: string, path: string): (r: Loaded)
    requires LoadListOk(vars)
    ensures Follows(variant, vars, message, r)
    decreases Measure(h, vars), 4, 0
  {
    if !h.jsonAvailable then Loaded(vars, JsonRequired, Fail(JsonUnavailable))
    else if path !in h.realpaths then Loaded(vars, PathMissingMessage, Fail(PathNotFound))
    else
      var resolved := h.realpaths[path];
      if resolved !in h.files then Loaded(vars, UnreadableMessage(resolved), Fail(Unreadable(resolved)))
      else match h.files[resolved].decoded
        case DecodeFailed(code) => Loaded(vars, JsonErrorMessage(resolved, h.cli, code), Fail(Undecodable))
        case Decoded(json) =>
          if json.VNull? then Loaded(vars, JsonErrorMessage(resolved, h.cli, JsonErrorNone), Fail(Undecodable))
          else
            EntriesInUniverse(h, resolved);
            LoadMembers(h, variant, vars, message, DocEntries(json), VNull, LoadedSet(vars))
  }

  /** The loop over a document's keys from `members` on; `item` is the
      current binding of `$item` and `base` the seen set when the file's
      load began. */
  function LoadMembers(h: Host, variant: Variant, vars: Vars, message: string,
                       members: seq<(string, Value)>, item: Value, ghost base: set<Value>): (r: Loaded)
    requires LoadListOk(vars) && base <= LoadedSet(vars)
    requires forall i :: 0 <= i < |members| ==> SubValues(members[i].1) <= Universe(h)
    requires !IsArray(item) && (item == VNull || item in Universe(h))
    ensures Follows(variant, vars, message, r)
    decreases |Universe(h) - base|, 3, |members|
  {
    if members == [] then Loaded(vars, message, Pass)
    else
      var (r, item') := LoadMember(h, variant, vars, message, members[0].0, members[0].1, item, base);
      if r.outcome.Fail? then r
      else
        PrefixSeen(vars, r.vars);
        var r' := LoadMembers(h, variant, r.vars, r.message, members[1..], item', base);
        FollowsTrans(variant, vars, message, r, r');
        r'
  }

  /** One key of a document, and `$item` afterwards. */
  function LoadMember(h: Host, variant: Variant, vars: Vars, message: string,
                      key: string, value: Value, item: Value, ghost base: set<Value>): (r: (Loaded, Value))
    requires LoadListOk(vars) && base <= LoadedSet(vars)
    requires SubValues(value) <= Universe(h)
    requires !IsArray(item) && (item == VNull || item in Universe(h))
    ensures Follows(variant, vars, message, r.0)
    ensures r.0.outcome.Pass? ==> !IsArray(r.1) && (r.1 == VNull || r.1 in Universe(h))
    decreases |Universe(h) - base|, 2, 0
  {
    assert value in SubValues(value);
    if IsLoadKey(key) then
      var snapshot := LoadedList(vars);
      if IsArray(value) then
        var items := ForeachValues(value);
        ItemsInUniverse(h, value);
        (LoadItems(h, variant, vars, message, items, snapshot, base), LastOr(items, item))
      else
        (LoadOne(h, variant, vars, message, if variant == AsWritten then item else value, snapshot, base), item)
    else if variant == Intended && Field(value, "value").Some? then
      var readonly := Field(value, "readonly");
      var t := AddStep(vars, Some(key), Field(value, "value").value,
                       if readonly.Some? then readonly.value else VBool(false));
      assert LoadedList(t.vars) == LoadedList(vars) && LoadListOk(t.vars) by {
        assert OthersUnchanged(vars, t.vars, key);
      }
      (Loaded(t.vars, message, t.outcome), item)
    else (Loaded(vars, message, Pass), item)
  }

  /** The loop over the items of a `load` array, all checked against the
      same `snapshot`. */
  function LoadItems(h: Host, variant: Variant, vars: Vars, message: string,
                     items: seq<Value>, snapshot: seq<Value>, ghost base: set<Value>): (r: Loaded)
    requires LoadListOk(vars) && base <= LoadedSet(vars)
    requires forall x :: x in base ==> x in snapshot
    requires forall i :: 0 <= i < |items| ==> items[i] in Universe(h)
    ensures Follows(variant, vars, message, r)
    ensures r.outcome.Pass? ==> forall i :: 0 <= i < |items| ==> !IsArray(items[i])
    decreases |Universe(h) - base|, 1, |items|
  {
    if items == [] then Loaded(vars, message, Pass)
    else if IsArray(items[0]) then Loaded(vars, message, Fail(MultiDimensional))
    else
      var r := LoadOne(h, variant, vars, message, items[0], snapshot, base);
      if r.outcome.Fail? then r
      else
        PrefixSeen(vars, r.vars);
        var r' := LoadItems(h, variant, r.vars, r.message, items[1..], snapshot, base);
        FollowsTrans(variant, vars, message, r, r');
        r'
  }

  /** One `load` entry: unless it is loosely in the snapshot, append it to
      the `load` list (not read-only), then load it. */
  function LoadOne(h: Host, variant: Variant, vars: Vars, message: string,
                   x: Value, snapshot: seq<Value>, ghost base: set<Value>): (r: Loaded)
    requires LoadListOk(vars) && base <= LoadedSet(vars)
    requires forall y :: y in base ==> y in snapshot
    requires !IsArray(x) && (x == VNull || x in Universe(h))
    ensures Follows(variant, vars, message, r)
    decreases |Universe(h) - base|, 0, 0
  {
    if LooseIn(x, snapshot) then Loaded(vars, message, Pass)
    else
      var t := AddStep(vars, Some(LoadKey), x, VBool(false));
      AddShrinks(h, variant, vars, message, x, snapshot, base);
      if t.outcome.Fail? then Loaded(t.vars, message, t.outcome)
      else
        var r := LoadFile(h, variant, t.vars, message, ToPhpString(x));
        FollowsTrans(variant, vars, message, Loaded(t.vars, message, Pass), r);
        r
  }

  /** One turn of the loop over a document's keys; the seen set only
      grows. */
  lemma MembersStep(h: Host, variant: Variant, vars: Vars, message: string,
                    members: seq<(string, Value)>, item: Value, base: set<Value>)
    requires LoadListOk(vars) && base <= LoadedSet(vars)
    requires forall i :: 0 <= i < |members| ==> SubValues(members[i].1) <= Universe(h)
    requires !IsArray(item) && (item == VNull || item in Universe(h))
    requires members != []
    ensures var m := LoadMember(h, variant, vars, message, members[0].0, members[0].1, item, base);
            (m.0.outcome.Fail? ==> LoadMembers(h, variant, vars, message, members, item, base) == m.0)
            && (m.0.outcome.Pass? ==>
                  base <= LoadedSet(m.0.vars)
                  && LoadMembers(h, variant, vars, message, members, item, base)
                     == LoadMembers(h, variant, m.0.vars, m.0.message, members[1..], m.1, base))
  {
    var m := LoadMember(h, variant, vars, message, members[0].0, members[0].1, item, base);
    PrefixSeen(vars, m.0.vars);
  }

  /** One turn of the loop over a `load` array. */
  lemma ItemsStep(h: Host, variant: Variant, vars: Vars, message: string,
                  items: seq<Value>, snapshot: seq<Value>, base: set<Value>)
    requires LoadListOk(vars) && base <= LoadedSet(vars)
    requires forall x :: x in base ==> x in snapshot
    requires forall i :: 0 <= i < |items| ==> items[i] in Universe(h)
    requires items != [] && !IsArray(items[0])
    ensures var r := LoadOne(h, variant, vars, message, items[0], snapshot, base);
            (r.outcome.Fail? ==> LoadItems(h, variant, vars, message, items, snapshot, base) == r)
            && (r.outcome.Pass? ==>
                  LoadItems(h, variant, vars, message, items, snapshot, base)
                  == LoadItems(h, variant, r.vars, r.message, items[1..], snapshot, base))
  {
  }

  /** Entries already (loosely) in the snapshot are skipped: an array of
      them loads nothing and changes neither the registry nor the
      message. */
  lemma {:induction false} SeenItemsSkipped(h: Host, variant: Variant, vars: Vars, message: string,
                                            items: seq<Value>, snapshot: seq<Value>, base: set<Value>)
    requires LoadListOk(vars) && base <= LoadedSet(vars)
    requires forall x :: x in base ==> x in snapshot
    requires forall i :: 0 <= i < |items| ==> items[i] in Universe(h)
    requires forall i :: 0 <= i < |items| ==> !IsArray(items[i]) && LooseIn(items[i], snapshot)
    ensures LoadItems(h, variant, vars, message, items, snapshot, base) == Loaded(vars, message, Pass)
    decreases |items|
  {
    if items != [] {
      ItemsStep(h, variant, vars, message, items, snapshot, base);
      SeenItemsSkipped(h, variant, vars, message, items[1..], snapshot, base);
    }
  }

  /** A file whose document is `{"load": [...]}` listing only paths that
      are already in the `load` list loads nothing and changes nothing. */
  lemma LoadedPathsSkipped(h: Host, variant: Variant, vars: Vars, message: string,
                           path: string, items: seq<Value>)
    requires LoadListOk(vars)
    requires h.jsonAvailable && path in h.realpaths && h.realpaths[path] in h.files
    requires h.files[h.realpaths[path]].decoded == Decoded(VObj([(LoadKey, VList(items))]))
    requires forall i :: 0 <= i < |items| ==> !IsArray(items[i]) && LooseIn(items[i], LoadedList(vars))
    ensures LoadFile(h, variant, vars, message, path) == Loaded(vars, message, Pass)
  {
    var resolved := h.realpaths[path];
    var doc := VObj([(LoadKey, VList(items))]);
    EntriesInUniverse(h, resolved);
    assert DocEntries(doc) == [(LoadKey, VList(items))];
    assert SubValues(DocEntries(doc)[0].1) <= Universe(h);
    ItemsInUniverse(h, VList(items));
    assert ForeachValues(VList(items)) == items;
    assert forall i :: 0 <= i < |items| ==> items[i] in Universe(h);
    assert forall x :: x in LoadedSet(vars) ==> x in LoadedList(vars);
    SeenItemsSkipped(h, variant, vars, message, items, LoadedList(vars), LoadedSet(vars));
    MembersStep(h, variant, vars, message, DocEntries(doc), VNull, LoadedSet(vars));
  }

  /** A file that decodes to an empty object loads nothing and passes. */
  lemma EmptyDocLoads(h: Host, variant: Variant, vars: Vars, message: string, path: string)
    requires LoadListOk(vars)
    requires h.jsonAvailable && path in h.realpaths && h.realpaths[path] in h.files
    requires h.files[h.realpaths[path]].decoded == Decoded(VObj([]))
    ensures LoadFile(h, variant, vars, message, path) == Loaded(vars, message, Pass)
  {
    assert DocEntries(VObj([])) == [];
  }

  /** The branch of `LoadOne` that appends and recurses: the recursive
      load starts with fewer unseen paths than the caller's file did. */
  lemma LoadOneAdds(h: Host, variant: Variant, vars: Vars, message: string,
                    x: Value, snapshot: seq<Value>, base: set<Value>)
    requires LoadListOk(vars) && base <= LoadedSet(vars)
    requires forall y :: y in base ==> y in snapshot
    requires !IsArray(x) && (x == VNull || x in Universe(h))
    requires !LooseIn(x, snapshot) && AddStep(vars, Some(LoadKey), x, VBool(false)).outcome.Pass?
    ensures var t := AddStep(vars, Some(LoadKey), x, VBool(false));
            LoadListOk(t.vars)
            && Measure(h, t.vars) < |Universe(h) - base|
            && LoadOne(h, variant, vars, message, x, snapshot, base)
               == LoadFile(h, variant, t.vars, message, ToPhpString(x))
  {
    AddShrinks(h, variant, vars, message, x, snapshot, base);
  }

  /** Appending an entry not in the snapshot keeps the loader's invariant
      and takes one unseen path out of the measure. */
  lemma AddShrinks(h: Host, variant: Variant, vars: Vars, message: string,
                   x: Value, snapshot: seq<Value>, base: set<Value>)
    requires LoadListOk(vars) && base <= LoadedSet(vars)
    requires forall y :: y in base ==> y in snapshot
    requires !IsArray(x) && (x == VNull || x in Universe(h))
    requires !LooseIn(x, snapshot)
    ensures var t := AddStep(vars, Some(LoadKey), x, VBool(false));
            (t.outcome.Fail? ==> t.vars == vars)
            && (t.outcome.Pass? ==>
                  LoadListOk(t.vars) && base <= LoadedSet(t.vars)
                  && Measure(h, t.vars) < |Universe(h) - base|
                  && Follows(variant, vars, message, Loaded(t.vars, message, Pass)))
  {
    var t := AddStep(vars, Some(LoadKey), x, VBool(false));
    AddToLoadList(vars, x);
    if t.outcome.Pass? {
      LooseInHolds(x, snapshot);
      PrefixSeen(vars, t.vars);
      assert x in LoadedSet(t.vars) by {
        assert LoadedList(t.vars)[|LoadedList(t.vars)| - 1] == x;
      }
      UnseenShrinks(Universe(h), base, LoadedSet(t.vars), x);
    }
  }

  // ---------------------------------------------------------------------
  // Properties of the loader

  /** The four file checks, in order: each failure leaves the registry as
      it was, throws, and leaves a message saying what went wrong. */
  lemma FileCheckFailures(h: Host, variant: Variant, vars: Vars, message: string, path: string)
    requires LoadListOk(vars)
    ensures var r := LoadFile(h, variant, vars, message, path);
            (!h.jsonAvailable ==> r == Loaded(vars, JsonRequired, Fail(JsonUnavailable)))
            && (h.jsonAvailable && path !in h.realpaths ==> r == Loaded(vars, PathMissingMessage, Fail(PathNotFound)))
            && (h.jsonAvailable && path in h.realpaths && h.realpaths[path] !in h.files
                ==> r == Loaded(vars, UnreadableMessage(h.realpaths[path]), Fail(Unreadable(h.realpaths[path]))))
    ensures var r := LoadFile(h, variant, vars, message, path);
            h.jsonAvailable && path in h.realpaths && h.realpaths[path] in h.files
            && h.files[h.realpaths[path]].decoded.DecodeFailed?
            ==> r == Loaded(vars, JsonErrorMessage(h.realpaths[path], h.cli, h.files[h.realpaths[path]].decoded.code), Fail(Undecodable))
    ensures var r := LoadFile(h, variant, vars, message, path);
            h.jsonAvailable && path in h.realpaths && h.realpaths[path] in h.files
            && h.files[h.realpaths[path]].decoded == Decoded(VNull)
            ==> r == Loaded(vars, JsonErrorMessage(h.realpaths[path], h.cli, JsonErrorNone), Fail(Undecodable))
  {
  }

  /** An entry not (loosely) in the snapshot is appended to the `load`
      list, not read-only, and then loaded; the load starts with fewer
      unseen paths than the file that names it, which bounds the depth of
      the recursion by the number of distinct paths. */
  lemma AppendsThenLoads(h: Host, variant: Variant, vars: Vars, message: string,
                         x: Value, snapshot: seq<Value>, base: set<Value>)
    requires LoadListOk(vars) && base <= LoadedSet(vars)
    requires forall y :: y in base ==> y in snapshot
    requires !IsArray(x) && !x.VNull? && x in Universe(h)
    requires !LooseIn(x, snapshot) && (LoadKey !in vars || !vars[LoadKey].readonly)
    ensures var t := AddStep(vars, Some(LoadKey), x, VBool(false));
            t.outcome.Pass?
            && LoadedList(t.vars) == LoadedList(vars) + [x] && !t.vars[LoadKey].readonly
            && Measure(h, t.vars) < |Universe(h) - base|
            && LoadOne(h, variant, vars, message, x, snapshot, base)
               == LoadFile(h, variant, t.vars, message, ToPhpString(x))
  {
    AddToLoadList(vars, x);
    LoadOneAdds(h, variant, vars, message, x, snapshot, base);
  }

  /** The snapshot is taken once per `load` key, so a path listed twice in
      one array is appended and loaded twice. */
  lemma DuplicateLoadedTwice(h: Host, variant: Variant, vars: Vars, message: string,
                             p: string, snapshot: seq<Value>, base: set<Value>)
    requires LoadListOk(vars) && base <= LoadedSet(vars)
    requires forall y :: y in base ==> y in snapshot
    requires VStr(p) in Universe(h) && !LooseIn(VStr(p), snapshot)
    requires LoadKey !in vars || !vars[LoadKey].readonly
    requires h.jsonAvailable && p in h.realpaths && h.realpaths[p] in h.files
    requires h.files[h.realpaths[p]].decoded == Decoded(VObj([]))
    ensures var r := LoadItems(h, variant, vars, message, [VStr(p), VStr(p)], snapshot, base);
            r.outcome == Pass && LoadedList(r.vars) == LoadedList(vars) + [VStr(p)] + [VStr(p)]
  {
    var x := VStr(p);
    var t1 := AddStep(vars, Some(LoadKey), x, VBool(false));
    AppendEmptyDoc(h, variant, vars, message, p, [x], snapshot, base);
    assert [x] + [x] == [x, x];
    SingleEmptyDoc(h, variant, t1.vars, message, p, snapshot, base);
  }

  /** An entry naming a file with an empty document is appended, and the
      loop goes on with the rest of the array. */
  lemma AppendEmptyDoc(h: Host, variant: Variant, vars: Vars, message: string,
                       p: string, rest: seq<Value>, snapshot: seq<Value>, base: set<Value>)
    requires LoadListOk(vars) && base <= LoadedSet(vars)
    requires forall y :: y in base ==> y in snapshot
    requires VStr(p) in Universe(h) && !LooseIn(VStr(p), snapshot)
    requires forall i :: 0 <= i < |rest| ==> rest[i] in Universe(h)
    requires LoadKey !in vars || !vars[LoadKey].readonly
    requires h.jsonAvailable && p in h.realpaths && h.realpaths[p] in h.files
    requires h.files[h.realpaths[p]].decoded == Decoded(VObj([]))
    ensures var t := AddStep(vars, Some(LoadKey), VStr(p), VBool(false));
            LoadListOk(t.vars) && base <= LoadedSet(t.vars)
            && LoadedList(t.vars) == LoadedList(vars) + [VStr(p)] && !t.vars[LoadKey].readonly
            && LoadItems(h, variant, vars, message, [VStr(p)] + rest, snapshot, base)
               == LoadItems(h, variant, t.vars, message, rest, snapshot, base)
  {
    var x := VStr(p);
    var t := AddStep(vars, Some(LoadKey), x, VBool(false));
    assert LoadOne(h, variant, vars, message, x, snapshot, base) == Loaded(t.vars, message, Pass) by {
      assert ToPhpString(x) == p;
      LoadOneAdds(h, variant, vars, message, x, snapshot, base);
      EmptyDocLoads(h, variant, t.vars, message, p);
    }
    assert LoadListOk(t.vars) && base <= LoadedSet(t.vars)
           && LoadedList(t.vars) == LoadedList(vars) + [x] && !t.vars[LoadKey].readonly by {
      AddToLoadList(vars, x);
      PrefixSeen(vars, t.vars);
    }
    ItemsStep(h, variant, vars, message, [x] + rest, snapshot, base);
    assert ([x] + rest)[1..] == rest;
  }

  /** An array holding one entry that names a file with an empty document
      appends that entry and passes. */
  lemma SingleEmptyDoc(h: Host, variant: Variant, vars: Vars, message: string,
                       p: string, snapshot: seq<Value>, base: set<Value>)
    requires LoadListOk(vars) && base <= LoadedSet(vars)
    requires forall y :: y in base ==> y in snapshot
    requires VStr(p) in Universe(h) && !LooseIn(VStr(p), snapshot)
    requires LoadKey !in vars || !vars[LoadKey].readonly
    requires h.jsonAvailable && p in h.realpaths && h.realpaths[p] in h.files
    requires h.files[h.realpaths[p]].decoded == Decoded(VObj([]))
    ensures var r := LoadItems(h, variant, vars, message, [VStr(p)], snapshot, base);
            r.outcome == Pass && LoadedList(r.vars) == LoadedList(vars) + [VStr(p)]
  {
    AppendEmptyDoc(h, variant, vars, message, p, [], snapshot, base);
    assert [VStr(p)] + [] == [VStr(p)];
  }

  /** Nothing is rolled back: an entry appended and loaded before a nested
      array is reached stays in the `load` list after the exception. */
  lemma NoRollback(h: Host, variant: Variant, vars: Vars, message: string,
                   p: string, nested: seq<Value>, snapshot: seq<Value>, base: set<Value>)
    requires LoadListOk(vars) && base <= LoadedSet(vars)
    requires forall y :: y in base ==> y in snapshot
    requires VStr(p) in Universe(h) && VList(nested) in Universe(h)
    requires !LooseIn(VStr(p), snapshot) && (LoadKey !in vars || !vars[LoadKey].readonly)
    requires LoadFile(h, variant, AddStep(vars, Some(LoadKey), VStr(p), VBool(false)).vars, message, p).outcome.Pass?
    ensures var r := LoadItems(h, variant, vars, message, [VStr(p), VList(nested)], snapshot, base);
            r.outcome == Fail(MultiDimensional)
            && |LoadedList(vars)| < |LoadedList(r.vars)| && LoadedList(r.vars)[|LoadedList(vars)|] == VStr(p)
  {
    var x := VStr(p);
    var t := AddStep(vars, Some(LoadKey), x, VBool(false));
    var r1 := LoadFile(h, variant, t.vars, message, p);
    assert LoadOne(h, variant, vars, message, x, snapshot, base) == r1
           && LoadedList(t.vars) == LoadedList(vars) + [x] by {
      assert ToPhpString(x) == p;
      AppendsThenLoads(h, variant, vars, message, x, snapshot, base);
    }
    PassThenNested(h, variant, vars, message, x, nested, snapshot, base);
    assert LoadedList(t.vars) <= LoadedList(r1.vars);
  }

  /** An item that loads is kept when the next item is an array. */
  lemma PassThenNested(h: Host, variant: Variant, vars: Vars, message: string,
                       x: Value, nested: seq<Value>, snapshot: seq<Value>, base: set<Value>)
    requires LoadListOk(vars) && base <= LoadedSet(vars)
    requires forall y :: y in base ==> y in snapshot
    requires x in Universe(h) && VList(nested) in Universe(h) && !IsArray(x)
    ensures var r1 := LoadOne(h, variant, vars, message, x, snapshot, base);
            r1.outcome.Pass? ==>
              LoadItems(h, variant, vars, message, [x, VList(nested)], snapshot, base)
              == Loaded(r1.vars, r1.message, Fail(MultiDimensional))
  {
    ItemsStep(h, variant, vars, message, [x, VList(nested)], snapshot, base);
    assert [x, VList(nested)][1..] == [VList(nested)];
  }

  /** As written, a scalar `load` value at the first `load` key of a file
      adds the unbound `$item`, null: `Registry::add` throws, and nothing is
      loaded or written. */
  lemma ScalarLoadThrows(h: Host, vars: Vars, message: string,
                         value: Value, rest: seq<(string, Value)>, base: set<Value>)
    requires LoadListOk(vars) && base <= LoadedSet(vars)
    requires SubValues(value) <= Universe(h)
    requires forall i :: 0 <= i < |rest| ==> SubValues(rest[i].1) <= Universe(h)
    requires !IsArray(value) && !LooseIn(VNull, LoadedList(vars))
    ensures LoadMembers(h, AsWritten, vars, message, [(LoadKey, value)] + rest, VNull, base)
         == Loaded(vars, message, Fail(DataException))
  {
    var members := [(LoadKey, value)] + rest;
    assert members[0] == (LoadKey, value);
    assert LoadOne(h, AsWritten, vars, message, VNull, LoadedList(vars), base)
        == Loaded(vars, message, Fail(DataException));
  }

  /** The intended reading: a scalar `load` value is one path, appended to
      the `load` list and then loaded. */
  lemma ScalarLoadLoads(h: Host, vars: Vars, message: string,
                        p: string, item: Value, base: set<Value>)
    requires LoadListOk(vars) && base <= LoadedSet(vars)
    requires VStr(p) in Universe(h)
    requires !IsArray(item) && (item == VNull || item in Universe(h))
    requires !LooseIn(VStr(p), LoadedList(vars)) && (LoadKey !in vars || !vars[LoadKey].readonly)
    ensures var t := AddStep(vars, Some(LoadKey), VStr(p), VBool(false));
            LoadedList(t.vars) == LoadedList(vars) + [VStr(p)]
            && LoadMember(h, Intended, vars, message, LoadKey, VStr(p), item, base)
               == (LoadFile(h, Intended, t.vars, message, p), item)
  {
    assert SubValues(VStr(p)) == {VStr(p)};
    assert ToPhpString(VStr(p)) == p;
    AppendsThenLoads(h, Intended, vars, message, VStr(p), LoadedList(vars), base);
  }

  /** As written, every key but `load` is tested with property syntax on
      an array and skipped, whatever its value. */
  lemma OtherKeysSkipped(h: Host, vars: Vars, message: string, key: string, value: Value,
                         rest: seq<(string, Value)>, item: Value, base: set<Value>)
    requires LoadListOk(vars) && base <= LoadedSet(vars)
    requires SubValues(value) <= Universe(h)
    requires forall i :: 0 <= i < |rest| ==> SubValues(rest[i].1) <= Universe(h)
    requires !IsArray(item) && (item == VNull || item in Universe(h))
    requires !IsLoadKey(key)
    ensures LoadMembers(h, AsWritten, vars, message, [(key, value)] + rest, item, base)
         == LoadMembers(h, AsWritten, vars, message, rest, item, base)
  {
    var members := [(key, value)] + rest;
    assert members[0] == (key, value) && members[1..] == rest;
  }

  /** The intended reading: a key whose value has a `value` field is added
      to the registry with that value, read-only exactly when its
      `readonly` field is true, before the next key is read. */
  lemma OtherKeysAdded(h: Host, vars: Vars, message: string, key: string, value: Value, v: Value,
                       rest: seq<(string, Value)>, item: Value, base: set<Value>)
    requires LoadListOk(vars) && base <= LoadedSet(vars)
    requires SubValues(value) <= Universe(h)
    requires forall i :: 0 <= i < |rest| ==> SubValues(rest[i].1) <= Universe(h)
    requires !IsArray(item) && (item == VNull || item in Universe(h))
    requires !IsLoadKey(key) && (key !in vars || !vars[key].readonly)
    requires Field(value, "value") == Some(v)
    requires Field(value, "readonly").None? || Field(value, "readonly").value.VBool?
    ensures var t := AddStep(vars, Some(key), v, VBool(Field(value, "readonly") == Some(VBool(true))));
            t.outcome.Pass? && key in t.vars
            && t.vars[key].readonly == (Field(value, "readonly") == Some(VBool(true)))
            && LoadMembers(h, Intended, vars, message, [(key, value)] + rest, item, base)
               == LoadMembers(h, Intended, t.vars, message, rest, item, base)
  {
    var members := [(key, value)] + rest;
    assert members[0] == (key, value) && members[1..] == rest;
    var t := AddStep(vars, Some(key), v, VBool(Field(value, "readonly") == Some(VBool(true))));
    assert LoadedList(t.vars) == LoadedList(vars) by {
      assert OthersUnchanged(vars, t.vars, key);
    }
    PrefixSeen(vars, t.vars);
  }

  // ---------------------------------------------------------------------
  // The singleton

  class LoadManager {
    /** The user-friendly message of the last failure. */
    var errorMessage: string
    const registry: Registry

    /** `getInstance()` on first use: the message starts empty. */
    constructor(registry: Registry)
      ensures errorMessage == "" && this.registry == registry
    {
      errorMessage := "";
      this.registry := registry;
    }

    method GetUserErrorMessage() returns (m: string)
      ensures m == errorMessage
    {
      m := errorMessage;
    }

    /** `load($path)` */
    method Load(h: Host, variant: Variant, path: string) returns (outcome: Outcome)
      requires LoadListOk(registry.vars)
      modifies this, registry
      ensures var r := LoadFile(h, variant, old(registry.vars), old(errorMessage), path);
              registry.vars == r.vars && errorMessage == r.message && outcome == r.outcome
      decreases Measure(h, registry.vars), 4
    {
      if !h.jsonAvailable {
        errorMessage := JsonRequired;
        return Fail(JsonUnavailable);
      }
      if path !in h.realpaths {
        errorMessage := PathMissingMessage;
        return Fail(PathNotFound);
      }
      var resolved := h.realpaths[path];
      if resolved !in h.files {
        errorMessage := UnreadableMessage(resolved);
        return Fail(Unreadable(resolved));
      }
      var decoded := h.files[resolved].decoded;
      if decoded.DecodeFailed? {
        errorMessage := JsonErrorMessage(resolved, h.cli, decoded.code);
        return Fail(Undecodable);
      }
      if decoded.json.VNull? {
        errorMessage := JsonErrorMessage(resolved, h.cli, JsonErrorNone);
        return Fail(Undecodable);
      }
      var members := DocEntries(decoded.json);
      EntriesInUniverse(h, resolved);
      outcome := ProcessMembers(h, variant, members, LoadedSet(registry.vars));
    }

    /** The loop over a document's keys; `base` is the seen set when the
        file's load began. */
    method ProcessMembers(h: Host, variant: Variant, members: seq<(string, Value)>, ghost base: set<Value>)
      returns (outcome: Outcome)
      requires LoadListOk(registry.vars) && base <= LoadedSet(registry.vars)
      requires forall i :: 0 <= i < |members| ==> SubValues(members[i].1) <= Universe(h)
      modifies this, registry
      ensures var r := LoadMembers(h, variant, old(registry.vars), old(errorMessage), members, VNull, base);
              registry.vars == r.vars && errorMessage == r.message && outcome == r.outcome
      decreases |Universe(h) - base|, 3
    {
      ghost var goal := LoadMembers(h, variant, registry.vars, errorMessage, members, VNull, base);
      var item := VNull;
      var rest := members;
      while rest != []
        invariant forall j :: 0 <= j < |rest| ==> SubValues(rest[j].1) <= Universe(h)
        invariant LoadListOk(registry.vars) && base <= LoadedSet(registry.vars)
        invariant !IsArray(item) && (item == VNull || item in Universe(h))
        invariant goal == LoadMembers(h, variant, registry.vars, errorMessage, rest, item, base)
        decreases |rest|
      {
        MembersStep(h, variant, registry.vars, errorMessage, rest, item, base);
        outcome, item := ProcessMember(h, variant, rest[0].0, rest[0].1, item, base);
        if outcome.Fail? {
          return;
        }
        rest := rest[1..];
      }
      return Pass;
    }

    /** The body of the loop over a document's keys; `item` is `$item`
        before and after it. */
    method ProcessMember(h: Host, variant: Variant, key: string, value: Value, item: Value, ghost base: set<Value>)
      returns (outcome: Outcome, item': Value)
      requires LoadListOk(registry.vars) && base <= LoadedSet(registry.vars)
      requires SubValues(value) <= Universe(h)
      requires !IsArray(item) && (item == VNull || item in Universe(h))
      modifies this, registry
      ensures var m := LoadMember(h, variant, old(registry.vars), old(errorMessage), key, value, item, base);
              registry.vars == m.0.vars && errorMessage == m.0.message && outcome == m.0.outcome
              && (outcome.Pass? ==> item' == m.1)
      decreases |Universe(h) - base|, 2
    {
      assert value in SubValues(value);
      item' := item;
      if IsLoadKey(key) {
        var locations := VList([]);
        var isKey := registry.IsKey(Some(LoadKey));
        if isKey {
          var got := registry.Get(Some(LoadKey));
          locations := got.value;
        }
        var snapshot := ForeachValues(locations);
        if IsArray(value) {
          var items := ForeachValues(value);
          ItemsInUniverse(h, value);
          outcome, item' := ProcessItems(h, variant, items, item, snapshot, base);
          return;
        } else {
          outcome := LoadEntry(h, variant, if variant == AsWritten then item else value, snapshot, base);
          return;
        }
      } else if variant == Intended && Field(value, "value").Some? {
        var readonly := Field(value, "readonly");
        outcome := registry.Add(Some(key), Field(value, "value").value,
                                if readonly.Some? then readonly.value else VBool(false));
      } else {
        outcome := Pass;
      }
    }

    /** The loop over the items of a `load` array; `item'` is `$item`
        afterwards. */
    method ProcessItems(h: Host, variant: Variant, items: seq<Value>, item: Value,
                        snapshot: seq<Value>, ghost base: set<Value>)
      returns (outcome: Outcome, item': Value)
      requires LoadListOk(registry.vars) && base <= LoadedSet(registry.vars)
      requires forall y :: y in base ==> y in snapshot
      requires forall i :: 0 <= i < |items| ==> items[i] in Universe(h)
      modifies this, registry
      ensures var r := LoadItems(h, variant, old(registry.vars), old(errorMessage), items, snapshot, base);
              registry.vars == r.vars && errorMessage == r.message && outcome == r.outcome
              && (outcome.Pass? ==> item' == LastOr(items, item))
      decreases |Universe(h) - base|, 1
    {
      item' := item;
      var j := 0;
      while j < |items|
        invariant 0 <= j <= |items|
        invariant LoadListOk(registry.vars) && base <= LoadedSet(registry.vars)
        invariant item' == LastOr(items[..j], item)
        invariant LoadItems(h, variant, old(registry.vars), old(errorMessage), items, snapshot, base)
               == LoadItems(h, variant, registry.vars, errorMessage, items[j..], snapshot, base)
      {
        assert items[j..][0] == items[j] && items[j..][1..] == items[j + 1..];
        item' := items[j];
        if IsArray(item') {
          return Fail(MultiDimensional), item';
        }
        ghost var stepVars := registry.vars;
        outcome := LoadEntry(h, variant, item', snapshot, base);
        if outcome.Fail? {
          return;
        }
        PrefixSeen(stepVars, registry.vars);
        j := j + 1;
      }
      assert items[..j] == items;
      return Pass, item';
    }

    /** One `load` entry (the same four lines appear for an array and for a
        scalar `load` value): unless it is loosely in the snapshot, append
        it to the registry's `load` list, then load it. */
    method LoadEntry(h: Host, variant: Variant, x: Value, snapshot: seq<Value>, ghost base: set<Value>)
      returns (outcome: Outcome)
      requires LoadListOk(registry.vars) && base <= LoadedSet(registry.vars)
      requires forall y :: y in base ==> y in snapshot
      requires !IsArray(x) && (x == VNull || x in Universe(h))
      modifies this, registry
      ensures var r := LoadOne(h, variant, old(registry.vars), old(errorMessage), x, snapshot, base);
              registry.vars == r.vars && errorMessage == r.message && outcome == r.outcome
      decreases |Universe(h) - base|, 0
    {
      if LooseIn(x, snapshot) {
        return Pass;
      }
      ghost var vars := registry.vars;
      AddToLoadList(vars, x);
      outcome := registry.Add(Some(LoadKey), x, VBool(false));
      if outcome.Fail? {
        return;
      }
      LoadOneAdds(h, variant, vars, errorMessage, x, snapshot, base);
      outcome := Load(h, variant, ToPhpString(x));
    }
  }
}
