/**
 * PHP values as the bootstrap layer handles them, the errors it raises, and
 * the small pieces of PHP's loose semantics (truthiness, `==`, string
 * conversion) that its code relies on.
 */
module Values {

  /** A PHP value. `VObj` is a decoded JSON object: an associative array in
      the current code (decoded with `json_decode($s, true)`), a plain object
      in the legacy code. Floats are not modelled. */
  datatype Value =
    | VNull
    | VBool(b: bool)
    | VInt(i: int)
    | VStr(s: string)
    | VList(items: seq<Value>)
    | VObj(entries: seq<(string, Value)>)

  datatype Option<T> = None | Some(value: T)

  /** The exceptions thrown by the core, one constructor per kind. */
  datatype Error =
    | DataException                // Vcms\Exception\DataException: null key or value, non-bool readonly
    | Overwrite(subject: Value)    // OverwriteException('Binding', subject)
    | KeyMissing(key: string)      // \Exception "Key '<key>' does not exist!"
    | LegacyKeyMissing             // legacy \Exception "Key does not exist!"
    | InvalidType                  // Vcms\Exception\InvalidType
    | JsonUnavailable              // json_decode is not defined
    | PathNotFound                 // realpath() failed
    | Unreadable(path: string)     // file_get_contents() failed
    | Undecodable                  // json_decode() produced null
    | MultiDimensional             // a nested array inside a `load` list
    | NotADirectory(dir: string)   // is_dir() failed (or dir() returned false)
    | NotAString                   // FileUtils: path or extension is not a string
    | NotABool                     // FileUtils: caseSensitive is not a bool
    | EmptyExtension               // FileUtils: empty($extension)
    | ObjectToString               // fatal error converting an object to a string

  /** The outcome of an operation that returns nothing useful or throws. */
  datatype Outcome = Pass | Fail(error: Error)

  datatype Result<T> = Ok(value: T) | Err(error: Error)

  /** PHP's `is_array`. */
  predicate IsArray(v: Value) {
    v.VList? || v.VObj?
  }

  /** The values `foreach` visits, in order; a scalar is not iterable. */
  function ForeachValues(v: Value): (r: seq<Value>)
    ensures v.VList? ==> r == v.items
    ensures !IsArray(v) ==> r == []
    ensures v.VObj? ==> |r| == |v.entries| && forall i :: 0 <= i < |r| ==> r[i] == v.entries[i].1
  {
    match v
    case VList(xs) => xs
    case VObj(es) => seq(|es|, i requires 0 <= i < |es| => es[i].1)
    case _ => []
  }

  /** Conversion to bool (an associative array is true when non-empty). */
  predicate Truthy(v: Value) {
    match v
    case VNull => false
    case VBool(b) => b
    case VInt(i) => i != 0
    case VStr(s) => s != "" && s != "0"
    case VList(xs) => |xs| > 0
    case VObj(es) => |es| > 0
  }

  /** PHP's loose `==`: null and booleans compare through bool conversion,
      except that null against a string compares with "". Every other pair
      is compared strictly. */
  predicate LooseEq(a: Value, b: Value) {
    if a.VBool? then a.b == Truthy(b)
    else if b.VBool? then Truthy(a) == b.b
    else if a.VNull? && b.VStr? then b.s == ""
    else if a.VStr? && b.VNull? then a.s == ""
    else if a.VNull? then !Truthy(b)
    else if b.VNull? then !Truthy(a)
    else a == b
  }

  /** PHP's `in_array($x, $xs)` with loose comparison. */
  predicate LooseIn(x: Value, xs: seq<Value>) {
    exists i :: 0 <= i < |xs| && LooseEq(x, xs[i])
  }

  lemma LooseEqReflexive(v: Value)
    ensures LooseEq(v, v)
  {
  }

  function DigitChar(d: nat): char
    requires d < 10
  {
    "0123456789"[d]
  }

  function NatToString(n: nat): (r: string)
    ensures |r| > 0
  {
    if n < 10 then [DigitChar(n)] else NatToString(n / 10) + [DigitChar(n % 10)]
  }

  function IntToString(i: int): string {
    if i < 0 then "-" + NatToString(-i) else NatToString(i)
  }

  /** Conversion to string where PHP allows it; an array becomes "Array". */
  function ToPhpString(v: Value): string {
    match v
    case VNull => ""
    case VBool(b) => if b then "1" else ""
    case VInt(i) => IntToString(i)
    case VStr(s) => s
    case VList(_) => "Array"
    case VObj(_) => "Array"
  }

  /** ASCII lower-casing, as `strtolower` does in the C locale. */
  function Lower(c: char): char {
    if 'A' <= c <= 'Z' then (c as int + 32) as char else c
  }

  function LowerString(s: string): (r: string)
  {
    seq(|s|, i requires 0 <= i < |s| => Lower(s[i]))
  }

  /** `str_replace` of one character by a string. */
  function ReplaceChar(s: string, from: char, to: string): string {
    if s == [] then []
    else (if s[0] == from then to else [s[0]]) + ReplaceChar(s[1..], from, to)
  }

  /** The value stored under a field of a decoded object, if the field is
      present and not null (PHP's `isset`). */
  function Field(v: Value, name: string): (r: Option<Value>)
    ensures r.Some? ==> v.VObj? && !r.value.VNull?
  {
    if !v.VObj? then None
    else FieldIn(v.entries, name)
  }

  function FieldIn(es: seq<(string, Value)>, name: string): (r: Option<Value>)
    ensures r.Some? ==> !r.value.VNull?
  {
    if es == [] then None
    else if es[0].0 == name then (if es[0].1.VNull? then None else Some(es[0].1))
    else FieldIn(es[1..], name)
  }
  // ---------------------------------------------------------------------
  // Arrays by key

  /** No key occurs twice, as in every PHP array. */
  predicate DistinctKeys(es: seq<(string, Value)>) {
    forall i, j :: 0 <= i < j < |es| ==> es[i].0 != es[j].0
  }

  /** Reading `$a[$k]`: the value under `k`, or null (with a notice) when
      the array has no such key. */
  function ArrayGet(es: seq<(string, Value)>, k: string): Value {
    if es == [] then VNull
    else if es[0].0 == k then es[0].1
    else ArrayGet(es[1..], k)
  }

  /** `$a[$k] = $v`: the entry under `k` takes the new value in its place;
      a new key goes at the end. */
  function ArraySet(es: seq<(string, Value)>, k: string, v: Value): seq<(string, Value)> {
    if es == [] then [(k, v)]
    else if es[0].0 == k then [(k, v)] + es[1..]
    else [es[0]] + ArraySet(es[1..], k, v)
  }

  /** Under a key the array holds, reading gives the entry's value and
      writing replaces that entry and nothing else. */
  lemma {:induction false} ArrayAtKey(es: seq<(string, Value)>, k: string, m: nat, v: Value)
    requires m < |es| && es[m].0 == k
    requires forall j :: 0 <= j < m ==> es[j].0 != k
    ensures ArrayGet(es, k) == es[m].1
    ensures ArraySet(es, k, v) == es[m := (k, v)]
  {
    if m > 0 {
      ArrayAtKey(es[1..], k, m - 1, v);
      assert [es[0]] + es[1..][m - 1 := (k, v)] == es[m := (k, v)];
    }
  }

  /** Under a key the array does not hold, reading gives null and writing
      appends. */
  lemma {:induction false} ArrayWithoutKey(es: seq<(string, Value)>, k: string, v: Value)
    requires forall j :: 0 <= j < |es| ==> es[j].0 != k
    ensures ArrayGet(es, k) == VNull
    ensures ArraySet(es, k, v) == es + [(k, v)]
  {
    if es != [] {
      ArrayWithoutKey(es[1..], k, v);
      assert [es[0]] + (es[1..] + [(k, v)]) == es + [(k, v)];
    }
  }

  /** Distinct numbers are spelt differently, so the integer keys of an
      array never collide. */
  lemma {:induction false} NatToStringInjective(a: nat, b: nat)
    requires NatToString(a) == NatToString(b)
    ensures a == b
    decreases a
  {
    var s := NatToString(a);
    if a >= 10 && b >= 10 {
      assert s[..|s| - 1] == NatToString(a / 10);
      assert s[..|s| - 1] == NatToString(b / 10);
      NatToStringInjective(a / 10, b / 10);
      DigitCharInjective(a % 10, b % 10);
    } else if a < 10 && b < 10 {
      DigitCharInjective(a, b);
    }
  }

  lemma DigitCharInjective(a: nat, b: nat)
    requires a < 10 && b < 10 && DigitChar(a) == DigitChar(b)
    ensures a == b
  {
  }
}
