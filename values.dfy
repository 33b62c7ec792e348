/**
 The dynamic values that the caches store. Go's `interface{}` (and the type
 parameter `V` instantiated with `any`) holds a value of some dynamic type; the
 code only ever asks whether that type is `string` or `int`, so every other
 dynamic type is an opaque token.
 */
module Values {

  datatype Value =
    | Nil                  // the zero value of `interface{}`
    | Str(s: string)       // dynamic type `string`
    | Int(n: int)          // dynamic type `int`
    | Opaque(id: int)      // any other dynamic type

  /** The `case string:` arm of a type switch that rejects `len(s) == 0`. */
  predicate IsEmptyString(v: Value)
  {
    v.Str? && |v.s| == 0
  }
}
