/** The error taxonomy of the engine (src/error/mod.rs), with the Rust panics that the
    engine and its legacy copy can raise made explicit as an error value. Messages are
    dropped: only the variant matters to the model. */
module Errors {

  /** Why a Rust panic happened. */
  datatype PanicCause =
    | ArithmeticOverflow   // an unsigned subtraction below zero (debug-build overflow check)
    | DivisionByZero       // `x % 0` on a zero image width
    | IndexOutOfBounds     // `get_pixel` outside the image, or a slice index past the end
    | Explicit             // `panic!` or `expect` in the legacy code

  datatype Error =
    | EmbedError
    | ExtractError
    | EncryptionError
    | DecryptionError
    | Panic(cause: PanicCause)

  datatype Result<T> = Ok(value: T) | Err(error: Error)

  datatype Option<T> = None | Some(value: T)
}
