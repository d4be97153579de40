/** Keys as the tree's public operations receive them: Go values of any type.
    The model keeps the value of a key of type int and only the reflect kind of
    any other key, which is all that mustBeValidKey looks at. */
module KeyValidation {
  import opened RBTypes

  /** reflect.Kind: the kind of a Go value's dynamic type. */
  datatype Kind =
    | Bool | Int | Int8 | Int16 | Int32 | Int64
    | Uint | Uint8 | Uint16 | Uint32 | Uint64 | Uintptr
    | Float32 | Float64 | Complex64 | Complex128
    | Array | Chan | Func | Interface | Map | Ptr | Slice | String | Struct | UnsafePointer

  /** A key: the nil literal, a value of type int, or a value of any other type
      (a named integer type such as `type Age int` has kind Int but is not an int). */
  datatype Key = NilKey | IntKey(value: int) | OtherKey(kind: Kind)

  datatype KeyError = ErrKeyIsNil | ErrKeyDisallowed

  function ErrorString(e: KeyError): (s: string)
    ensures e == ErrKeyIsNil <==> s == "The literal nil not allowed as keys"
    ensures e == ErrKeyDisallowed <==> s == "Disallowed key type"
  {
    match e
    case ErrKeyIsNil => "The literal nil not allowed as keys"
    case ErrKeyDisallowed => "Disallowed key type"
  }

  function KindOf(key: Key): Kind
    requires !key.NilKey?
  {
    if key.IntKey? then Int else key.kind
  }

  /** The kinds whose values may not serve as keys: references and containers. */
  predicate DisallowedKind(k: Kind)
  {
    match k
    case Chan | Func | Interface | Map | Ptr | Slice => true
    case _ => false
  }

  /** mustBeValidKey: nil is refused first, then the six disallowed kinds; any
      other key passes. */
  function MustBeValidKey(key: Key): (err: Option<KeyError>)
    ensures err == Some(ErrKeyIsNil) <==> key.NilKey?
    ensures err == Some(ErrKeyDisallowed) <==> !key.NilKey? && DisallowedKind(KindOf(key))
    ensures err.None? <==> !key.NilKey? && !DisallowedKind(KindOf(key))
  {
    if key.NilKey? then Some(ErrKeyIsNil)
    else match KindOf(key)
      case Chan | Func | Interface | Map | Ptr | Slice => Some(ErrKeyDisallowed)
      case _ => None
  }

  /** Every int key passes the check, and the keys that pass it are exactly the
      non-nil keys of the twenty kinds that are not references or containers. */
  lemma IntKeysValid(i: int)
    ensures MustBeValidKey(IntKey(i)) == None
    ensures forall k: Kind :: MustBeValidKey(OtherKey(k)).None? <==>
      k !in {Chan, Func, Interface, Map, Ptr, Slice}
  {
  }

  /** A key the operations accept without panicking: IntComparator type-asserts
      both keys to int, so a key that passes mustBeValidKey must be an int. */
  predicate Admissible(key: Key)
  {
    key.IntKey? || MustBeValidKey(key).Some?
  }
}
