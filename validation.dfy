/**
 * The rules of the beego `validation` package that the core calls, stated
 * as assumptions about that library (its code is not part of this model):
 * each failed rule appends one error, in call order, and `.Message(...)`
 * gives it its text; `SetError` appends an error unconditionally.
 */
module Validation {
  import opened Coercion

  /** One entry of `Validation.Errors`: the field it is about and its message. */
  datatype FieldError = FieldError(field: string, message: string)

  /** Go's `unicode.IsSpace`: ASCII white space, U+0085, U+00A0 and the Unicode space separators. */
  predicate IsSpace(c: char) {
    c == ' ' || ('\t' <= c <= '\r') || c == '\U{0085}' || c == '\U{00A0}' || c == '\U{1680}'
    || ('\U{2000}' <= c <= '\U{200A}') || c == '\U{2028}' || c == '\U{2029}'
    || c == '\U{202F}' || c == '\U{205F}' || c == '\U{3000}'
  }

  /** `strings.TrimSpace(s) == ""`. */
  predicate IsBlank(s: string) {
    forall i :: 0 <= i < |s| ==> IsSpace(s[i])
  }

  /**
   * `Required`: nil fails, a string must hold a non-space character, an int
   * must be non-zero, an array must be non-empty; a bool, a float and an
   * object always pass.
   */
  predicate Required(v: Value) {
    match v
    case NullV => false
    case StrV(s) => !IsBlank(s)
    case IntV(i) => i != 0
    case ListV(n) => n > 0
    case _ => true
  }

  /**
   * `MaxSize(max)`: a string may hold at most `max` characters (runes), an
   * array at most `max` elements; any other value, nil included, fails.
   */
  predicate MaxSize(v: Value, max: int) {
    match v
    case StrV(s) => |s| <= max
    case ListV(n) => n <= max
    case _ => false
  }

  /** `Min(min)` on an int. */
  predicate Min(n: int, min: int) {
    n >= min
  }

  /** `Range(lo, hi)` on an int. */
  predicate Range(n: int, lo: int, hi: int) {
    lo <= n <= hi
  }
}
