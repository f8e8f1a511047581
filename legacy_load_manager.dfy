/**
 * The legacy `VictoryCMS\LoadManager::Load`. It reads a file, decodes it
 * into plain objects, and for every key whose value has a `value` property
 * adds that value to the legacy registry. For the key `load` it reads the
 * `load` binding but then iterates the key itself, a string, so no file is
 * ever loaded from it; the only effect of a `load` key is the exception
 * `get('load')` raises when that binding is missing or empty.
 *
 * The file contents and their decoding come from the host; a missing file
 * is `false`.
 */
module LegacyLoadManager {
  import opened Values
  import opened Environment
  import opened LegacyRegistry

  /** How a call ends: an early `return false`, falling off the end (null),
      or an exception. */
  datatype Return = ReturnedFalse | ReturnedNull | Threw(error: Error)

  /** One key of the decoded document: whether it compares equal to
      `'load'`, the key's text, and `$json->$key->value` if that is set. */
  datatype Member = Member(isLoad: bool, key: string, property: Option<Value>)

  /** `$json == null` when objects are plain objects: an object is never
      null, an empty list is. */
  predicate IsNullish(json: Value) {
    !json.VObj? && LooseEq(json, VNull)
  }

  /** The keys `foreach ($json as $key => $value)` visits. Object keys are
      strings, and only `"load"` equals `'load'`; list keys are integers,
      and `0 == 'load'` holds, while property access on a list is null. A
      scalar is not iterable. */
  function Members(json: Value): (r: seq<Member>)
    ensures json.VObj? ==> |r| == |json.entries|
    ensures json.VList? ==> |r| == |json.items|
    ensures !IsArray(json) ==> r == []
  {
    match json
    case VObj(es) =>
      seq(|es|, i requires 0 <= i < |es| => Member(es[i].0 == "load", es[i].0, Field(es[i].1, "value")))
    case VList(xs) =>
      seq(|xs|, i requires 0 <= i < |xs| => Member(i == 0, IntToString(i), None))
    case _ => []
  }

  /** The loop over the members from the bindings `vars` on. */
  function Process(vars: Bindings, members: seq<Member>): (r: (Bindings, Return))
    ensures r.1 != ReturnedFalse
    ensures r.1 == ReturnedNull || r.1 == Threw(LegacyKeyMissing) || r.1 == Threw(ObjectToString)
    decreases |members|
  {
    if members == [] then (vars, ReturnedNull)
    else
      var m := members[0];
      if m.isLoad then
        if GetBinding(vars, "load").Err? then (vars, Threw(LegacyKeyMissing))
        else Process(vars, members[1..])
      else if m.property.Some? then
        match AddBinding(vars, m.key, m.property.value)
        case Err(e) => (vars, Threw(e))
        case Ok(vars') => Process(vars', members[1..])
      else Process(vars, members[1..])
  }

  /** `Load($path)` on the bindings `vars`: the new bindings and how the
      call ends. */
  function LoadSpec(h: Host, vars: Bindings, path: string): (Bindings, Return)
  {
    if !h.jsonAvailable || path !in h.files || LooseEq(VStr(h.files[path].text), VBool(false)) then
      (vars, ReturnedFalse)
    else match h.files[path].decoded
      case DecodeFailed(_) => (vars, ReturnedFalse)
      case Decoded(json) =>
        if IsNullish(json) then (vars, ReturnedFalse) else Process(vars, Members(json))
  }

  /** `LoadManager::Load($path)` against the registry. */
  method Load(h: Host, registry: Registry, path: string) returns (ret: Return)
    modifies registry
    ensures (registry.vars, ret) == LoadSpec(h, old(registry.vars), path)
  {
    if !h.jsonAvailable || path !in h.files || LooseEq(VStr(h.files[path].text), VBool(false)) {
      return ReturnedFalse;
    }
    if h.files[path].decoded.DecodeFailed? {
      return ReturnedFalse;
    }
    var json := h.files[path].decoded.json;
    if IsNullish(json) {
      return ReturnedFalse;
    }
    ghost var goal := Process(registry.vars, Members(json));
    var rest := Members(json);
    while rest != []
      invariant goal == Process(registry.vars, rest)
      decreases |rest|
    {
      var m := rest[0];
      if m.isLoad {
        var locations := registry.Get("load");
        if locations.Err? {
          return Threw(locations.error);
        }
        // `foreach ($key as $item)`: the key is a string or an integer,
        // never an array, so the loop body never runs.
      } else if m.property.Some? {
        var outcome := registry.Add(m.key, m.property.value);
        if outcome.Fail? {
          return Threw(outcome.error);
        }
      }
      rest := rest[1..];
    }
    return ReturnedNull;
  }

  // ---------------------------------------------------------------------
  // Properties

  /** Keys that are not in the document keep their bindings. */
  lemma {:induction false} ProcessTouchesOnlyMemberKeys(vars: Bindings, members: seq<Member>, k: string)
    requires forall i :: 0 <= i < |members| ==> members[i].key != k
    ensures var r := Process(vars, members);
            (k in r.0 <==> k in vars) && (k in vars ==> r.0[k] == vars[k])
    decreases |members|
  {
    if members != [] {
      var m := members[0];
      if !m.isLoad && m.property.Some? {
        match AddBinding(vars, m.key, m.property.value)
        case Err(_) =>
        case Ok(vars') =>
          ProcessTouchesOnlyMemberKeys(vars', members[1..], k);
      } else {
        ProcessTouchesOnlyMemberKeys(vars, members[1..], k);
      }
    }
  }

  /** No document changes the `load` binding: a `load` key only reads it,
      and an object's only key equal to `'load'` is `"load"` itself. */
  lemma LoadBindingUnchanged(h: Host, vars: Bindings, path: string)
    ensures var r := LoadSpec(h, vars, path);
            ("load" in r.0 <==> "load" in vars) && ("load" in vars ==> r.0["load"] == vars["load"])
  {
    if h.jsonAvailable && path in h.files && h.files[path].decoded.Decoded? {
      var json := h.files[path].decoded.json;
      var ms := Members(json);
      forall i | 0 <= i < |ms| && ms[i].key == "load"
        ensures ms[i].isLoad || ms[i].property.None?
      {
      }
      LoadKeysOnlyRead(vars, ms);
    }
  }

  /** Members that are `load` keys or carry no property change nothing. */
  lemma {:induction false} LoadKeysOnlyRead(vars: Bindings, members: seq<Member>)
    requires forall i :: 0 <= i < |members| && members[i].key == "load" ==> members[i].isLoad || members[i].property.None?
    ensures var r := Process(vars, members);
            ("load" in r.0 <==> "load" in vars) && ("load" in vars ==> r.0["load"] == vars["load"])
    decreases |members|
  {
    if members != [] {
      var m := members[0];
      if !m.isLoad && m.property.Some? {
        match AddBinding(vars, m.key, m.property.value)
        case Err(_) =>
        case Ok(vars') =>
          LoadKeysOnlyRead(vars', members[1..]);
      } else {
        LoadKeysOnlyRead(vars, members[1..]);
      }
    }
  }

  /** The early `return false` cases change nothing: json missing, an
      unreadable file or one whose text is loosely false (empty or `"0"`),
      a failed decoding, or a document loosely equal to null. */
  lemma FalseChangesNothing(h: Host, vars: Bindings, path: string)
    ensures LoadSpec(h, vars, path).1 == ReturnedFalse ==> LoadSpec(h, vars, path).0 == vars
    ensures LoadSpec(h, vars, path).1 == ReturnedFalse <==>
              !h.jsonAvailable || path !in h.files || !Truthy(VStr(h.files[path].text))
              || h.files[path].decoded.DecodeFailed? || IsNullish(h.files[path].decoded.json)
  {
  }

  /** A document that lists files under `load` loads none of them: with a
      non-empty `load` binding, `{"load": [...]}` passes and changes
      nothing. */
  lemma LoadListIgnored(vars: Bindings, files: Value)
    requires GetBinding(vars, "load").Ok?
    ensures Process(vars, Members(VObj([("load", files)]))) == (vars, ReturnedNull)
  {
    var ms := Members(VObj([("load", files)]));
    assert ms[0].isLoad && ms[1..] == [];
  }

  /** With no `load` binding, the first `load` key throws, after keys
      before it that add nothing. */
  lemma LoadKeyWithoutBindingThrows(vars: Bindings, before: seq<Member>, after: seq<Member>)
    requires forall i :: 0 <= i < |before| ==> !before[i].isLoad && before[i].property.None?
    requires GetBinding(vars, "load").Err?
    ensures Process(vars, before + [Member(true, "load", None)] + after) == (vars, Threw(LegacyKeyMissing))
    decreases |before|
  {
    if before != [] {
      assert (before + [Member(true, "load", None)] + after)[1..] == before[1..] + [Member(true, "load", None)] + after;
      LoadKeyWithoutBindingThrows(vars, before[1..], after);
    }
  }

  /** A key whose object has a `value` property adds it, whatever its
      `readonly` property says. */
  lemma ValueAdded(vars: Bindings, key: string, v: Value, readonly: Value)
    requires key != "load" && key !in vars && !v.VNull? && !v.VObj?
    ensures Process(vars, Members(VObj([(key, VObj([("value", v), ("readonly", readonly)]))])))
         == (vars[key := VStr(ToPhpString(v))], ReturnedNull)
  {
    var ms := Members(VObj([(key, VObj([("value", v), ("readonly", readonly)]))]));
    assert ms[0] == Member(false, key, Some(v));
    assert ms[1..] == [];
    AddToMissing(vars, key, v);
  }
}
