/** Small types and facts that several models share. */
module Wrappers {

  datatype Option<T> = None | Some(value: T)

  datatype Result<T> = Success(value: T) | Failure(message: string)

  lemma Associate<T>(x: seq<T>, y: seq<T>, z: seq<T>)
    ensures (x + y) + z == x + (y + z)
  {
  }

  lemma MulMonotone(a: int, b: int, c: int)
    requires a <= b && 0 <= c
    ensures a * c <= b * c
  {
  }

  lemma MulSucc(a: int, c: int)
    ensures (a + 1) * c == a * c + c
  {
  }
}
