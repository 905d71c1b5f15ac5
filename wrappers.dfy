/** Optional values and exception-carrying results shared by every module. */
module Wrappers {

  /** A value that may be absent; stands for a Java reference that may be null. */
  datatype Option<+T> = None | Some(value: T)

  /** The unchecked Java exceptions the scraper can raise on malformed pages. */
  datatype Error =
    | NumberFormat      // Integer.parseInt on a string that is not a 32-bit decimal
    | IndexOutOfBounds  // List.get(i) with i outside the list
    | NullPointer       // a method called on a document that failed to load

  /** Either a result or the exception that aborted the computation. */
  datatype Result<+T> = Ok(value: T) | Err(error: Error)
}
