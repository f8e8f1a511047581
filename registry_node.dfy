/**
 * `RegistryNode`: one registry binding, a value with a read-only flag. The
 * flag can be raised but no method lowers it, and a read-only node refuses
 * new values.
 */
module RegistryNodes {
  import opened Values

  class RegistryNode {
    var value: Value
    var readonly: bool

    /** The flag is set exactly when the argument is loosely equal to true. */
    constructor(value: Value, readonly: Value)
      ensures this.value == value
      ensures this.readonly == LooseEq(readonly, VBool(true))
      ensures this.readonly <==> Truthy(readonly)
    {
      this.value := value;
      if LooseEq(readonly, VBool(true)) {
        this.readonly := true;
      } else {
        this.readonly := false;
      }
    }

    /** The value most recently stored by the constructor or `SetValue`. */
    method GetValue() returns (v: Value)
      ensures v == value
    {
      v := value;
    }

    /** Replaces the value and answers true, unless the node is read-only,
        in which case nothing changes and the answer is false. */
    method SetValue(v: Value) returns (stored: bool)
      modifies this
      ensures stored <==> !old(readonly)
      ensures value == if stored then v else old(value)
      ensures readonly == old(readonly)
    {
      if readonly == false {
        value := v;
        return true;
      }
      return false;
    }

    /** Raises the flag; the value is untouched. */
    method SetReadOnly()
      modifies this
      ensures readonly
      ensures value == old(value)
    {
      readonly := true;
    }

    method IsReadOnly() returns (r: bool)
      ensures r == readonly
    {
      r := readonly;
    }
  }
}
