/** The few Go runtime values the response envelope handles: bytes, the
    64-bit integers of `io.Writer.Write` and `WriteTo`, and `error` values. */
module Go {

  datatype Option<T> = None | Some(value: T)

  /** A value or the `error` that stopped it being produced. */
  datatype Result<T> = Success(value: T) | Failure(error: Error)

  /** Go's `byte`. */
  newtype byte = b: int | 0 <= b < 0x100

  /** Go's `int`, which is 64 bits wide on every platform Dgraph is built for. */
  newtype Int = x: int | -0x8000_0000_0000_0000 <= x < 0x8000_0000_0000_0000

  /** Go's `int64`. */
  newtype Int64 = x: int | -0x8000_0000_0000_0000 <= x < 0x8000_0000_0000_0000

  /** The `error` values that reach a caller of WriteTo. */
  datatype Error =
    | ShortWrite                              // io.ErrShortWrite
    | DeviceError(reason: string)             // any other failure a writer reports
    | MarshalerError(typeName: string)        // encoding/json refusing a Marshaler's output
    | Wrapped(context: string, cause: Error)  // errors.Wrap(cause, context)
}
