/** The opaque value carrier `ObjectAsStr` and the coercion rule
    `maybe_coerce_with` (lib/improver/cli/__init__.py). A carrier is a `str`
    whose text is a synthetic display name and which keeps the wrapped object,
    so that a command result can pass through clize's string-only parser. */
module Carrier {
  import opened Values

  /** The process-local identity of an object: `hash(obj)` when the object is
      hashable, `id(obj)` otherwise. Neither is observable in the model, so it
      is a parameter. */
  type Identity = PyValue -> int

  /** `ObjectAsStr.object2name(obj, cls)`: `<module.Type@id>`. */
  function ObjectToName(obj: PyValue, identity: Identity, cls: Option<PyClass>): (r: string)
    ensures 5 <= |r| && r[0] == '<' && r[|r| - 1] == '>'
    ensures var c := if cls.Some? then cls.value else ClassOf(obj);
            IsBareToken(c.moduleName + c.name) ==> IsBareToken(r)
  {
    var c := if cls.Some? then cls.value else ClassOf(obj);
    var digits := Decimal(identity(obj));
    BareParts(c.moduleName, c.name, digits);
    "<" + c.moduleName + "." + c.name + "@" + digits + ">"
  }

  lemma BareParts(moduleName: string, name: string, digits: string)
    requires forall k :: 0 <= k < |digits| ==> digits[k] == '-' || '0' <= digits[k] <= '9'
    ensures IsBareToken(moduleName + name) ==>
              IsBareToken("<" + moduleName + "." + name + "@" + digits + ">")
  {
    if IsBareToken(moduleName + name) {
      assert forall k :: 0 <= k < |moduleName| ==> moduleName[k] == (moduleName + name)[k];
      assert forall k :: 0 <= k < |name| ==> name[k] == (moduleName + name)[|moduleName| + k];
    }
  }

  /** `ObjectAsStr(obj, name)`: wraps `obj`, except that a carrier is passed
      through as it is, so that no object is ever wrapped twice. */
  function ObjectAsStr(obj: PyValue, name: Option<string>, identity: Identity): (r: PyValue)
    ensures r.Carrier?
    ensures obj.Carrier? ==> r == obj
    ensures !obj.Carrier? ==> r.original == obj
    ensures !obj.Carrier? && name.Some? ==> r.name == name.value
    ensures !obj.Carrier? && name.None? ==> 0 < |r.name| && r.name[0] == '<'
    ensures SingleWrapped(obj) ==> SingleWrapped(r)
  {
    if obj.Carrier? then obj
    else Carrier(if name.Some? then name.value else ObjectToName(obj, identity, None), obj)
  }

  /** A carrier never holds another carrier. */
  predicate SingleWrapped(v: PyValue) {
    v.Carrier? ==> !v.original.Carrier?
  }

  /** `maybe_coerce_with(convert, obj)`: take the carried object out of a
      carrier, and apply `convert` to it only if it is text. */
  function MaybeCoerceWith(convert: PyValue -> PyValue, obj: PyValue): (r: PyValue)
    ensures obj.Str? ==> r == convert(obj)
    ensures obj.Carrier? && IsStr(obj.original) ==> r == convert(obj.original)
    ensures obj.Carrier? && !IsStr(obj.original) ==> r == obj.original
    ensures !IsStr(obj) ==> r == obj
  {
    var unwrapped := if obj.Carrier? then obj.original else obj;
    if IsStr(unwrapped) then convert(unwrapped) else unwrapped
  }

  /** Wrapping is invisible to coercion: a wrapped object is coerced exactly
      as the object itself would be. In particular, the result of a nested
      command reaches the receiving command untouched. */
  lemma CoercionSeesThroughCarrier(convert: PyValue -> PyValue, obj: PyValue, name: Option<string>, identity: Identity)
    ensures MaybeCoerceWith(convert, ObjectAsStr(obj, name, identity)) == MaybeCoerceWith(convert, obj)
    ensures !IsStr(obj) ==> MaybeCoerceWith(convert, ObjectAsStr(obj, name, identity)) == obj
  {
  }

  /** A carrier made without a name is named by `object2name`, so its text is
      one bare token whenever the object's class and module names are. */
  lemma DefaultCarrierName(obj: PyValue, identity: Identity)
    requires !obj.Carrier?
    ensures ObjectAsStr(obj, None, identity).name == ObjectToName(obj, identity, None)
    ensures IsBareToken(ClassOf(obj).moduleName + ClassOf(obj).name) ==>
              IsBareToken(Text(ObjectAsStr(obj, None, identity)))
  {
  }

  /** A carrier named by `object2name` can never be taken for a bracket or for
      an `--output` option. */
  lemma DefaultNameIsNotSyntax(obj: PyValue, identity: Identity)
    requires !obj.Carrier?
    ensures var r := ObjectAsStr(obj, None, identity);
            Text(r) != "[" && Text(r) != "]" && !("--output" <= Text(r))
  {
    var r := ObjectAsStr(obj, None, identity);
    assert Text(r)[0] == '<';
  }
}
