/**
 * The legacy `VictoryCMS\Registry`: a plain map from binding names to
 * values, with no read-only flags. `get` treats a binding holding an empty
 * value (in PHP's sense) as missing, and `attach` asks `get` first, so it
 * throws on every key; `add` appends to a list once, and on anything else
 * concatenates strings.
 *
 * Values decoded from JSON objects are plain objects here, not arrays: a
 * `VObj` is always non-empty, `is_array` is false for it, and converting it
 * to a string is a fatal error.
 */
module LegacyRegistry {
  import opened Values

  type Bindings = map<string, Value>

  /** `!empty($v)` when objects are plain objects: every object is true. */
  predicate NonEmpty(v: Value) {
    v.VObj? || Truthy(v)
  }

  /** `get($bind)` */
  function GetBinding(vars: Bindings, bind: string): (r: Result<Value>)
    ensures r.Ok? <==> bind in vars && NonEmpty(vars[bind])
    ensures r.Ok? ==> r.value == vars[bind]
    ensures r.Err? ==> r.error == LegacyKeyMissing
  {
    if bind in vars && NonEmpty(vars[bind]) then Ok(vars[bind]) else Err(LegacyKeyMissing)
  }

  /** The exception `attach($bind, $var)` throws: the one from `get` when
      the binding is missing or empty, and otherwise an overwrite error. */
  function AttachError(vars: Bindings, bind: string): Error {
    if GetBinding(vars, bind).Ok? then Overwrite(VStr(bind)) else LegacyKeyMissing
  }

  /** `add($bind, $value)` on the bindings, or the fatal error it raises. */
  function AddBinding(vars: Bindings, bind: string, value: Value): (r: Result<Bindings>)
  {
    var cur := if bind in vars then vars[bind] else VNull;
    if cur.VList? then
      if LooseIn(value, cur.items) then Ok(vars) else Ok(vars[bind := VList(cur.items + [value])])
    else if cur.VObj? || value.VObj? then Err(ObjectToString)
    else Ok(vars[bind := VStr(ToPhpString(cur) + ToPhpString(value))])
  }

  class Registry {
    var vars: Bindings

    constructor()
      ensures vars == map[]
    {
      vars := map[];
    }

    /** `attach($bind, &$var)`: throws in every case, and binds nothing. */
    method Attach(bind: string, value: Value) returns (outcome: Outcome)
      ensures outcome == Fail(AttachError(vars, bind))
    {
      var existing := Get(bind);
      if existing.Err? {
        return Fail(existing.error);
      }
      // `get` has already refused an empty value, so the emptiness test
      // always throws and the store after it is never reached.
      assert NonEmpty(existing.value);
      // The unqualified `OverwriteException` names a class in the legacy
      // namespace that no file declares (lib/exceptions/OverwriteException.php
      // declares it in `Vcms\Exception`), so PHP most likely stops here with
      // a fatal class-not-found error; the model records the exception the
      // code means to throw.
      return Fail(Overwrite(VStr(bind)));
    }

    /** `set($bind, $value)`: stores the value whatever was there. */
    method Set(bind: string, value: Value)
      modifies this
      ensures vars == old(vars)[bind := value]
    {
      vars := vars[bind := value];
    }

    method Get(bind: string) returns (r: Result<Value>)
      ensures r == GetBinding(vars, bind)
    {
      if bind !in vars || !NonEmpty(vars[bind]) {
        return Err(LegacyKeyMissing);
      }
      return Ok(vars[bind]);
    }

    /** `add($bind, $value)`; nothing changes when it fails. */
    method Add(bind: string, value: Value) returns (outcome: Outcome)
      modifies this
      ensures var r := AddBinding(old(vars), bind, value);
              (r.Ok? ==> outcome == Pass && vars == r.value)
              && (r.Err? ==> outcome == Fail(r.error) && vars == old(vars))
    {
      var cur := if bind in vars then vars[bind] else VNull;
      if cur.VList? {
        if !LooseIn(value, cur.items) {
          vars := vars[bind := VList(cur.items + [value])];
        }
        return Pass;
      }
      if cur.VObj? || value.VObj? {
        return Fail(ObjectToString);
      }
      vars := vars[bind := VStr(ToPhpString(cur) + ToPhpString(value))];
      return Pass;
    }

    /** `clear($bind)`: never throws, even for a missing binding. */
    method Clear(bind: string)
      modifies this
      ensures vars == old(vars) - {bind}
    {
      vars := vars - {bind};
    }
  }

  // ---------------------------------------------------------------------
  // Properties

  /** Which exception `attach` raises, told by what `get` answers. That
      `attach` binds nothing is stated by `Registry.Attach`, which has no
      `modifies` clause. */
  lemma AttachNeverBinds(vars: Bindings, bind: string)
    ensures AttachError(vars, bind) == LegacyKeyMissing <==> GetBinding(vars, bind).Err?
    ensures AttachError(vars, bind) == Overwrite(VStr(bind)) <==> GetBinding(vars, bind).Ok?
  {
  }

  /** What `set` stores, `get` returns, unless it is empty. */
  lemma SetThenGet(vars: Bindings, bind: string, value: Value, other: string)
    ensures GetBinding(vars[bind := value], bind) == if NonEmpty(value) then Ok(value) else Err(LegacyKeyMissing)
    ensures other != bind ==> GetBinding(vars[bind := value], other) == GetBinding(vars, other)
  {
  }

  /** After `clear`, `get` throws for that key, and other keys are as
      before. */
  lemma ClearThenGet(vars: Bindings, bind: string, other: string)
    ensures GetBinding(vars - {bind}, bind) == Err(LegacyKeyMissing)
    ensures other != bind ==> GetBinding(vars - {bind}, other) == GetBinding(vars, other)
  {
  }

  /** Adding to a list: afterwards the value is loosely in the list, the
      old items are kept in front, and at most one item was appended. */
  lemma AddToList(vars: Bindings, bind: string, value: Value)
    requires bind in vars && vars[bind].VList?
    ensures var r := AddBinding(vars, bind, value);
            r.Ok? && r.value[bind].VList?
            && LooseIn(value, r.value[bind].items)
            && vars[bind].items <= r.value[bind].items
            && |r.value[bind].items| <= |vars[bind].items| + 1
            && r.value - {bind} == vars - {bind}
  {
    var xs := vars[bind].items;
    if !LooseIn(value, xs) {
      LooseEqReflexive(value);
      assert (xs + [value])[|xs|] == value;
    }
  }

  /** Adding the same value to a list twice is adding it once. */
  lemma AddToListIdempotent(vars: Bindings, bind: string, value: Value)
    requires bind in vars && vars[bind].VList?
    ensures AddBinding(vars, bind, value).Ok?
    ensures AddBinding(AddBinding(vars, bind, value).value, bind, value) == AddBinding(vars, bind, value)
  {
    AddToList(vars, bind, value);
  }

  /** Adding to anything that is not a list concatenates the two string
      forms, a missing binding counting as the empty string; an object on
      either side is fatal. */
  lemma AddConcatenates(vars: Bindings, bind: string, value: Value)
    requires bind !in vars || !vars[bind].VList?
    ensures var cur := if bind in vars then vars[bind] else VNull;
            var r := AddBinding(vars, bind, value);
            (r.Err? <==> cur.VObj? || value.VObj?)
            && (r.Ok? ==> r.value == vars[bind := VStr(ToPhpString(cur) + ToPhpString(value))])
  {
  }

  /** A fresh binding added to becomes the value's string form. */
  lemma AddToMissing(vars: Bindings, bind: string, value: Value)
    requires bind !in vars && !value.VObj?
    ensures AddBinding(vars, bind, value) == Ok(vars[bind := VStr(ToPhpString(value))])
  {
    assert ToPhpString(VNull) + ToPhpString(value) == ToPhpString(value);
  }
}
