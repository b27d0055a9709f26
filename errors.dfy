/** The ways a call fails. In the Go program each of these is a panic that
    ends the codec call that raised it and the request that made that call. */
module Errors {

  datatype Result<+T> = Success(value: T) | Failure(error: Error)

  datatype Outcome = Pass | Fail(error: Error)

  datatype Error =
      /** A tag names a wire type that is not in the catalogue. */
    | UnknownWireType(name: string)
      /** The buffer holds fewer bytes than the record's fixed size. */
    | BufferTooSmall(required: nat, available: nat)
      /** The sizing option of a byte-pointer field names no field of the record. */
    | FieldNotFound(name: string)
      /** The sizing option names a field that holds no integer. */
    | NotAnInteger(name: string)
      /** A reflective read or write of a property that is absent or of another kind. */
    | BadProperty(name: string)
      /** A dereference of an address outside the native memory. */
    | MemoryFault(address: nat)
      /** A slice index at or past the slice's length. */
    | IndexOutOfRange(index: nat, length: nat)
      /** A slice expression whose upper bound exceeds the slice's capacity. */
    | SliceOutOfRange(high: nat, capacity: nat)
      /** The driver reports no camera properties at all. */
    | NoProperties

  function OutcomeOf<T>(r: Result<T>): Outcome
  {
    if r.Success? then Pass else Fail(r.error)
  }
}
