/** Types shared by the client and server models: boost's error codes, the
    C++ unsigned integer widths used for request ids, and an Option. */
module AsioTypes {

  datatype Option<T> = None | Some(value: T)

  /** A boost::system::error_code as the core inspects it: zero (no error),
      asio::error::operation_aborted (what a cancelled socket operation
      completes with), or any other transport error, carried opaquely. */
  datatype ErrorCode = NoError | OperationAborted | TransportError(code: int)
  {
    /** `ec != 0` in the source. */
    predicate IsError() { !NoError? }
  }

  /** `unsigned int` (the parameter type of cancelRequest). */
  newtype u32 = x: int | 0 <= x < 0x1_0000_0000

  /** `unsigned long` on the 64-bit targets the project builds for (the
      type of request ids and of the millisecond timestamp). */
  newtype u64 = x: int | 0 <= x < 0x1_0000_0000_0000_0000
}
