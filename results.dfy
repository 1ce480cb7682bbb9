/** Outcomes of the codec's operations.
    The Rust code either returns `Err(String)` or panics (an `unwrap` on `None`
    or `Err`, an out-of-range slice index).  Both are modelled as values here:
    the errors the source returns have their own constructor, and every panic
    becomes `Panic(cause)` so that callers of the model can see which guard fired. */
module Results {

  datatype Option<+T> = None | Some(value: T)

  /** Why the source would panic. */
  datatype Cause =
    | UnknownTypeName      // ObjectTypes::from_string on an unknown name
    | MalformedHeaders     // header line without a space, or no blank line ends the headers
    | BadLengthField       // the envelope's length field does not parse as a usize
    | ShortMode            // a tree entry mode shorter than 2 bytes after padding
    | ShortHash            // an object hash shorter than 2 characters
    | MissingRefFile       // a ref file that does not exist
    | NoTrailingNewline    // a ref file whose content does not end in a newline

  datatype Error =
    | UnknownMode          // a tree entry mode with an unknown 2-byte prefix
    | LengthMismatch       // the envelope's declared length differs from the body length
    | NotFound             // the object file does not exist
    | RefDepthExceeded     // the model's bound on the length of a symbolic ref chain
    | Panic(cause: Cause)

  datatype Result<+T> = Ok(value: T) | Err(error: Error)
}
