/** Shared vocabulary of the model: optional values, bytes and resource locations. */
module Common {

  datatype Option<+T> = None | Some(value: T)

  /** One byte of a media resource. */
  type Byte = bv8

  /** A resource location; two different locations never share cached bytes. */
  type Url = string

  function Max(a: int, b: int): int { if a >= b then a else b }

  function Min(a: int, b: int): int { if a <= b then a else b }

  /** No element occurs twice. */
  ghost predicate Distinct<T>(s: seq<T>)
  {
    forall a, b :: 0 <= a < b < |s| ==> s[a] != s[b]
  }
}
