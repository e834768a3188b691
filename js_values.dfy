/** The JavaScript values an iteration callback can hand back to `eachr`.
    Only the strict comparison of that value with `false` matters to the
    iteration, so the model keeps just enough of the value space to tell
    `false` apart from every other falsy value. */
module JsValues {

  /** A JavaScript value. Finite numbers are reals (so that `-0` and `+0`
      are one value, as they are under `===`), with the two infinities and
      NaN kept apart; bigints are integers; objects, functions and symbols
      are opaque references. */
  datatype JsValue =
    | Undefined
    | Null
    | Bool(b: bool)
    | Number(n: real)
    | Infinity(positive: bool)
    | NaN
    | BigInt(i: int)
    | Str(s: string)
    | Ref(id: nat)

  /** JavaScript's ToBoolean: the values an `if` treats as false. */
  predicate Falsy(v: JsValue) {
    match v
    case Undefined => true
    case Null => true
    case Bool(b) => !b
    case Number(n) => n == 0.0
    case Infinity(_) => false
    case NaN => true
    case BigInt(i) => i == 0
    case Str(s) => s == ""
    case Ref(_) => false
  }

  /** JavaScript's strict equality `a === b`: no type coercion, and NaN
      equals nothing, not even itself. */
  predicate StrictEquals(a: JsValue, b: JsValue) {
    match (a, b)
    case (Undefined, Undefined) => true
    case (Null, Null) => true
    case (Bool(x), Bool(y)) => x == y
    case (Number(x), Number(y)) => x == y
    case (Infinity(x), Infinity(y)) => x == y
    case (BigInt(x), BigInt(y)) => x == y
    case (Str(x), Str(y)) => x == y
    case (Ref(x), Ref(y)) => x == y
    case _ => false
  }

  /** The test `reply === false` that ends an iteration. */
  predicate IsStrictFalse(v: JsValue) {
    StrictEquals(v, Bool(false))
  }

  /** Exactly one JavaScript value passes `=== false`: the boolean false. */
  lemma StrictFalseIsOnlyFalse(v: JsValue)
    ensures IsStrictFalse(v) <==> v == Bool(false)
  {
  }

  /** Every other falsy value -- undefined (a callback with no `return`),
      null, 0, NaN, 0n and the empty string -- fails `=== false`, and those
      are the only falsy values besides false itself. */
  lemma OtherFalsyValuesContinue(v: JsValue)
    ensures Falsy(v) && !IsStrictFalse(v) <==>
      v == Undefined || v == Null || v == Number(0.0) || v == NaN || v == BigInt(0) || v == Str("")
  {
  }
}
