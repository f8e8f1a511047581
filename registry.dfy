/**
 * The registry: one map from keys to nodes, each node a value with a
 * read-only flag. `add` merges into a list, `set` replaces, `attach` binds a
 * value, `clear` removes. Whatever the operation, a read-only entry is never
 * changed or removed, and every attempt to do so fails.
 *
 * Each operation is specified by a function from the old map to a
 * `Transition` (the new map and the outcome); the `Registry` class holds the
 * map and its methods are proved to follow those functions.
 */
module VcmsRegistry {
  import opened Values

  /** A node: the bound value and its read-only flag; `attached` marks a
      binding made by `attach`. */
  datatype Entry = Entry(value: Value, readonly: bool, attached: bool)

  type Vars = map<string, Entry>

  /** The map after an operation, and whether the operation threw. */
  datatype Transition = Transition(vars: Vars, outcome: Outcome)

  /** Every read-only entry of `before` is still in `after`, unchanged. */
  ghost predicate Protects(before: Vars, after: Vars) {
    forall k :: k in before && before[k].readonly ==> k in after && after[k] == before[k]
  }

  /** Only the entry under `k` may differ between the two maps. */
  ghost predicate OthersUnchanged(before: Vars, after: Vars, k: string) {
    (forall k' :: k' in before && k' != k ==> k' in after && after[k'] == before[k'])
    && (forall k' :: k' in after && k' != k ==> k' in before)
  }

  /** The argument checks shared by `add`, `attach` and `set`: a null key or
      value, or a non-boolean `readonly`, is refused. */
  function ArgumentError(key: Option<string>, value: Value, readonly: Value): (r: Option<Error>)
    ensures r.None? <==> key.Some? && !value.VNull? && readonly.VBool?
    ensures r.Some? ==> r.value == DataException
  {
    if key.None? || value.VNull? then Some(DataException)
    else if !readonly.VBool? then Some(DataException)
    else None
  }

  /** `is_array($value) ? $value : array($value)` */
  function Wrapped(v: Value): Value {
    if IsArray(v) then v else VList([v])
  }

  /** The entries of an array, list items keyed by their position. */
  function Entries(v: Value): seq<(string, Value)>
    requires IsArray(v)
  {
    if v.VList? then seq(|v.items|, i requires 0 <= i < |v.items| => (NatToString(i), v.items[i]))
    else v.entries
  }

  /** `array_merge($current, $addition)`. On a current value that is not an
      array the call yields null. */
  function Merge(current: Value, addition: Value): Value
    requires IsArray(addition)
  {
    if !IsArray(current) then VNull
    else if current.VList? && addition.VList? then VList(current.items + addition.items)
    else VObj(Entries(current) + Entries(addition))
  }

  /** `Registry::add` */
  function AddStep(vars: Vars, key: Option<string>, value: Value, readonly: Value): (r: Transition)
    ensures ArgumentError(key, value, readonly).Some? ==> r == Transition(vars, Fail(DataException))
    ensures ArgumentError(key, value, readonly).None? && key.value in vars && vars[key.value].readonly
            ==> r == Transition(vars, Fail(Overwrite(VStr(key.value))))
    ensures r.outcome.Pass? <==>
            ArgumentError(key, value, readonly).None? && (key.value !in vars || !vars[key.value].readonly)
    ensures r.outcome.Pass? ==>
            var k := key.value;
            k in r.vars && OthersUnchanged(vars, r.vars, k)
            && r.vars[k].readonly == readonly.b && !r.vars[k].attached
            && r.vars[k].value == if k in vars then Merge(vars[k].value, Wrapped(value)) else Wrapped(value)
    ensures Protects(vars, r.vars)
  {
    if ArgumentError(key, value, readonly).Some? then Transition(vars, Fail(DataException))
    else
      var k := key.value;
      if k in vars && vars[k].readonly then Transition(vars, Fail(Overwrite(VStr(k))))
      else
        var valueArray := if k in vars then Merge(vars[k].value, Wrapped(value)) else Wrapped(value);
        Transition(vars[k := Entry(valueArray, readonly.b, false)], Pass)
  }

  /** `Registry::attach`. The node is built without the caller's flag, so an
      attached binding is never read-only; the refusal names the value. */
  function AttachStep(vars: Vars, key: Option<string>, value: Value, readonly: Value): (r: Transition)
    ensures ArgumentError(key, value, readonly).Some? ==> r == Transition(vars, Fail(DataException))
    ensures ArgumentError(key, value, readonly).None? && key.value in vars && vars[key.value].readonly
            ==> r == Transition(vars, Fail(Overwrite(value)))
    ensures r.outcome.Pass? <==>
            ArgumentError(key, value, readonly).None? && (key.value !in vars || !vars[key.value].readonly)
    ensures r.outcome.Pass? ==>
            var k := key.value;
            k in r.vars && OthersUnchanged(vars, r.vars, k)
            && r.vars[k] == Entry(value, false, true)
    ensures Protects(vars, r.vars)
  {
    if ArgumentError(key, value, readonly).Some? then Transition(vars, Fail(DataException))
    else
      var k := key.value;
      if k !in vars || !vars[k].readonly then Transition(vars[k := Entry(value, false, true)], Pass)
      else Transition(vars, Fail(Overwrite(value)))
  }

  /** `Registry::set` */
  function SetStep(vars: Vars, key: Option<string>, value: Value, readonly: Value): (r: Transition)
    ensures ArgumentError(key, value, readonly).Some? ==> r == Transition(vars, Fail(DataException))
    ensures ArgumentError(key, value, readonly).None? && key.value in vars && vars[key.value].readonly
            ==> r == Transition(vars, Fail(Overwrite(VStr(key.value))))
    ensures r.outcome.Pass? <==>
            ArgumentError(key, value, readonly).None? && (key.value !in vars || !vars[key.value].readonly)
    ensures r.outcome.Pass? ==>
            var k := key.value;
            k in r.vars && OthersUnchanged(vars, r.vars, k)
            && r.vars[k] == Entry(value, readonly.b, false)
    ensures Protects(vars, r.vars)
  {
    if ArgumentError(key, value, readonly).Some? then Transition(vars, Fail(DataException))
    else
      var k := key.value;
      if k !in vars || !vars[k].readonly then Transition(vars[k := Entry(value, readonly.b, false)], Pass)
      else Transition(vars, Fail(Overwrite(VStr(k))))
  }

  /** A null key is looked up as the empty string. */
  function KeyName(key: Option<string>): string {
    if key.None? then "" else key.value
  }

  /** `Registry::clear` */
  function ClearStep(vars: Vars, key: Option<string>): (r: Transition)
    ensures KeyName(key) !in vars ==> r == Transition(vars, Fail(KeyMissing(KeyName(key))))
    ensures KeyName(key) in vars && vars[KeyName(key)].readonly
            ==> r == Transition(vars, Fail(Overwrite(VStr(KeyName(key)))))
    ensures r.outcome.Pass? <==> KeyName(key) in vars && !vars[KeyName(key)].readonly
    ensures r.outcome.Pass? ==> KeyName(key) !in r.vars && OthersUnchanged(vars, r.vars, KeyName(key))
    ensures Protects(vars, r.vars)
  {
    var k := KeyName(key);
    if k !in vars then Transition(vars, Fail(KeyMissing(k)))
    else if vars[k].readonly then Transition(vars, Fail(Overwrite(VStr(k))))
    else Transition(vars - {k}, Pass)
  }

  /** `Registry::get` */
  function Lookup(vars: Vars, key: Option<string>): (r: Result<Value>)
    ensures r.Ok? <==> KeyName(key) in vars
    ensures r.Ok? ==> r.value == vars[KeyName(key)].value
    ensures r.Err? ==> r.error == KeyMissing(KeyName(key))
  {
    var k := KeyName(key);
    if k in vars then Ok(vars[k].value) else Err(KeyMissing(k))
  }

  /** `Registry::isReadOnly` */
  function ReadOnlyFlag(vars: Vars, key: Option<string>): (r: Result<bool>)
    ensures key.None? ==> r == Err(DataException)
    ensures key.Some? && key.value !in vars ==> r == Err(KeyMissing(key.value))
    ensures r.Ok? <==> key.Some? && key.value in vars
    ensures r.Ok? ==> r.value == vars[key.value].readonly
  {
    if key.None? then Err(DataException)
    else if key.value !in vars then Err(KeyMissing(key.value))
    else Ok(vars[key.value].readonly)
  }

  /** `Registry::isKey`: a null or empty key is never a key. */
  predicate HasKey(vars: Vars, key: Option<string>) {
    key.Some? && key.value != "" && key.value in vars
  }

  /** Any of the four mutating calls. */
  datatype Op =
    | AddOp(key: Option<string>, value: Value, readonly: Value)
    | AttachOp(key: Option<string>, value: Value, readonly: Value)
    | SetOp(key: Option<string>, value: Value, readonly: Value)
    | ClearOp(key: Option<string>)

  function Apply(vars: Vars, op: Op): Transition {
    match op
    case AddOp(k, v, ro) => AddStep(vars, k, v, ro)
    case AttachOp(k, v, ro) => AttachStep(vars, k, v, ro)
    case SetOp(k, v, ro) => SetStep(vars, k, v, ro)
    case ClearOp(k) => ClearStep(vars, k)
  }

  /** The map after a sequence of calls, each failed call caught by the
      caller and the next one made. */
  function Run(vars: Vars, ops: seq<Op>): Vars
    decreases ops
  {
    if ops == [] then vars else Run(Apply(vars, ops[0]).vars, ops[1..])
  }

  lemma ProtectsTransitive(a: Vars, b: Vars, c: Vars)
    requires Protects(a, b) && Protects(b, c)
    ensures Protects(a, c)
  {
  }

  /** No sequence of calls changes, removes or demotes a read-only entry. */
  lemma {:induction false} ReadOnlyEntriesSurvive(vars: Vars, ops: seq<Op>)
    ensures Protects(vars, Run(vars, ops))
    decreases ops
  {
    if ops != [] {
      var next := Apply(vars, ops[0]).vars;
      assert Protects(vars, next);
      ReadOnlyEntriesSurvive(next, ops[1..]);
      ProtectsTransitive(vars, next, Run(next, ops[1..]));
    }
  }

  /** Every call that would touch a read-only entry throws. */
  lemma TouchingReadOnlyThrows(vars: Vars, op: Op)
    requires op.ClearOp? ==> KeyName(op.key) in vars && vars[KeyName(op.key)].readonly
    requires !op.ClearOp? ==> op.key.Some? && op.key.value in vars && vars[op.key.value].readonly
    ensures Apply(vars, op).outcome.Fail?
    ensures Apply(vars, op).vars == vars
  {
  }

  /** `set` followed by `get` returns exactly the value set. */
  lemma SetThenGet(vars: Vars, k: string, v: Value, readonly: bool)
    requires k !in vars || !vars[k].readonly
    requires !v.VNull?
    ensures SetStep(vars, Some(k), v, VBool(readonly)).outcome == Pass
    ensures Lookup(SetStep(vars, Some(k), v, VBool(readonly)).vars, Some(k)) == Ok(v)
  {
  }

  /** `add` on a fresh key stores the value as a list of one, or the list
      itself. */
  lemma AddFresh(vars: Vars, k: string, v: Value, readonly: bool)
    requires k !in vars && !v.VNull? && !v.VObj?
    ensures Lookup(AddStep(vars, Some(k), v, VBool(readonly)).vars, Some(k))
         == Ok(VList(if v.VList? then v.items else [v]))
  {
  }

  /** `add` onto a list appends the new items after the old ones. */
  lemma AddAppends(vars: Vars, k: string, items: seq<Value>, v: Value, readonly: bool)
    requires k in vars && !vars[k].readonly && vars[k].value == VList(items)
    requires !v.VNull? && !v.VObj?
    ensures AddStep(vars, Some(k), v, VBool(readonly)).vars[k]
         == Entry(VList(items + if v.VList? then v.items else [v]), readonly, false)
  {
  }

  /** `set` and `add` can make a writable key read-only. */
  lemma Promotion(vars: Vars, k: string, v: Value)
    requires k in vars && !vars[k].readonly && !v.VNull?
    ensures AddStep(vars, Some(k), v, VBool(true)).vars[k].readonly
    ensures SetStep(vars, Some(k), v, VBool(true)).vars[k].readonly
  {
  }

  /** For a key that is not bound, `get` and `isReadOnly` throw, and
      `isKey` answers false, as it does for a null or empty key. */
  lemma AbsentKey(vars: Vars, k: string)
    requires k !in vars
    ensures Lookup(vars, Some(k)) == Err(KeyMissing(k))
    ensures ReadOnlyFlag(vars, Some(k)) == Err(KeyMissing(k))
    ensures !HasKey(vars, Some(k)) && !HasKey(vars, None) && !HasKey(vars, Some(""))
  {
  }

  /** After a successful `clear` the key is gone and `get` throws. */
  lemma ClearThenGet(vars: Vars, k: string)
    requires ClearStep(vars, Some(k)).outcome.Pass?
    ensures !HasKey(ClearStep(vars, Some(k)).vars, Some(k))
    ensures Lookup(ClearStep(vars, Some(k)).vars, Some(k)) == Err(KeyMissing(k))
  {
  }

  class Registry {
    var vars: Vars

    constructor()
      ensures vars == map[]
    {
      vars := map[];
    }

    method Add(key: Option<string>, value: Value, readonly: Value) returns (outcome: Outcome)
      modifies this
      ensures Transition(vars, outcome) == AddStep(old(vars), key, value, readonly)
    {
      if key.None? || value.VNull? {
        return Fail(DataException);
      }
      if !readonly.VBool? {
        return Fail(DataException);
      }
      var k := key.value;
      var valueArray;
      if k in vars {
        if vars[k].readonly {
          return Fail(Overwrite(VStr(k)));
        }
        valueArray := Merge(vars[k].value, Wrapped(value));
      } else {
        valueArray := Wrapped(value);
      }
      vars := vars[k := Entry(valueArray, readonly.b, false)];
      return Pass;
    }

    method Attach(key: Option<string>, value: Value, readonly: Value) returns (outcome: Outcome)
      modifies this
      ensures Transition(vars, outcome) == AttachStep(old(vars), key, value, readonly)
    {
      if key.None? || value.VNull? {
        return Fail(DataException);
      }
      if !readonly.VBool? {
        return Fail(DataException);
      }
      var k := key.value;
      if k !in vars || !vars[k].readonly {
        vars := vars[k := Entry(value, false, true)];
        return Pass;
      }
      return Fail(Overwrite(value));
    }

    method Set(key: Option<string>, value: Value, readonly: Value) returns (outcome: Outcome)
      modifies this
      ensures Transition(vars, outcome) == SetStep(old(vars), key, value, readonly)
    {
      if key.None? || value.VNull? {
        return Fail(DataException);
      }
      if !readonly.VBool? {
        return Fail(DataException);
      }
      var k := key.value;
      if k !in vars || !vars[k].readonly {
        vars := vars[k := Entry(value, readonly.b, false)];
        return Pass;
      }
      return Fail(Overwrite(VStr(k)));
    }

    method Get(key: Option<string>) returns (r: Result<Value>)
      ensures r == Lookup(vars, key)
    {
      var k := KeyName(key);
      if k !in vars {
        return Err(KeyMissing(k));
      }
      return Ok(vars[k].value);
    }

    method IsReadOnly(key: Option<string>) returns (r: Result<bool>)
      ensures r == ReadOnlyFlag(vars, key)
    {
      if key.None? {
        return Err(DataException);
      }
      if key.value !in vars {
        return Err(KeyMissing(key.value));
      }
      return Ok(vars[key.value].readonly);
    }

    method IsKey(key: Option<string>) returns (r: bool)
      ensures r == HasKey(vars, key)
    {
      if key.None? || key.value == "" {
        return false;
      } else if key.value !in vars {
        return false;
      } else {
        return true;
      }
    }

    method Clear(key: Option<string>) returns (outcome: Outcome)
      modifies this
      ensures Transition(vars, outcome) == ClearStep(old(vars), key)
    {
      var k := KeyName(key);
      if k !in vars {
        return Fail(KeyMissing(k));
      }
      if vars[k].readonly {
        return Fail(Overwrite(VStr(k)));
      }
      vars := vars - {k};
      return Pass;
    }
  }
}
