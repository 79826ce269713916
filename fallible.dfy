/** Failure-compatible result types shared by every decoder.

    The original code returns `failure::Fallible<T>` from every read and
    panics in a few places (`assert_eq!`, `unwrap`, arithmetic overflow, an
    endless loop).  Each of those panics is given its own error variant here,
    so that a decode that the original aborts is a decode that fails.
 */
module Fallible {

  datatype Error =
    /** A read of `width` bytes at `offset` ran past the end of its view. */
    | UnexpectedEof(offset: nat, width: nat)
    /** `2^(10 + log)` does not fit in 64 bits (the original panics in `pow`). */
    | BlockSizeOverflow(log: nat)
    /** The extent header magic is not 0xF30A (the original fails an `assert_eq!`). */
    | BadExtentMagic(magic: nat)
    /** The single extent does not have length 1 (the original fails an `assert_eq!`). */
    | ExtentLengthNotOne(len: nat)
    /** `mode & 0xF000` is not a known file type (the original `unwrap`s a failed conversion). */
    | UnknownFileType(code: nat)
    /** A directory record with `rec_len == 0` (the original loops forever). */
    | ZeroRecordLength(cursor: nat)

  datatype Result<+T> = Ok(value: T) | Err(error: Error) {
    predicate IsFailure() { Err? }

    function PropagateFailure<U>(): Result<U>
      requires Err?
    {
      Err(error)
    }

    function Extract(): T
      requires Ok?
    {
      value
    }
  }

  datatype Option<+T> = None | Some(value: T)
}
