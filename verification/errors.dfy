/** Optional values, results, and the error kinds the store reports.
    Where the Rust code panics (`unwrap`, `assert!`, an out-of-range slice) the
    model returns a distinct error variant instead, so that the panicking path
    is visible in contracts rather than excluded by a precondition. */
module Errors {

  datatype Option<+T> = None | Some(value: T)

  datatype Error =
    /** An insert found the key already stored (the index is insert-only). */
    | KeyAlreadyExists
    /** A value-log record does not start with the log's magic number. */
    | LogMagicMismatch
    /** A value-log record's payload does not match its stored CRC-32. */
    | LogCrcMismatch
    /** Panic: a value-log locator shorter than the 8-byte record header. */
    | LogRecordTooShort
    /** Panic (`assert_eq!`): a page frame's payload does not match its CRC-32. */
    | PageCrcMismatch
    /** Panic: a page frame declares a payload longer than the frame holds. */
    | PageLengthOutOfRange
    /** Panic (`assert!`): an encoded page is larger than a frame's payload area. */
    | PageTooLarge
    /** Panic (`assert!(i > 2)`): calibration found fewer than two entries fit a page. */
    | CapacityTooSmall

  datatype Result<+T> = Ok(value: T) | Err(error: Error)

  /** The `Result<()>` of an operation that returns nothing on success. */
  datatype Outcome = Done | Failed(error: Error)
}
