/** What an operation of the log store can end in: a value, one of the errors the
    package defines, io.EOF from Go's library, or one of the Go runtime panics its
    code can reach. */
module Errors {

  datatype Error =
    | ErrNoPartition        // the requested partition doesn't exist
    | ErrShortPayload       // UnMarshal was given fewer than 13 bytes
    | EOF                   // io.EOF: a read found no bytes at the file offset
    | PanicIndexOutOfRange  // index past the end of the partition slice
    | PanicSliceBounds      // slice expression past the capacity or length
    | PanicDivideByZero     // integer modulus by zero

  datatype Result<T> = Ok(value: T) | Fail(error: Error)
}
