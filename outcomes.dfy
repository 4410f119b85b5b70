/** Results of the book model's fallible operations and the errors the source raises. */
module Outcomes {

  /** The ways an operation of the book model can fail. */
  datatype Error =
    | DuplicatePath       // a dest_path already present in that kind of item
    | DuplicateGuideType  // a guide_type already present in the guide
    | AlreadySet          // a second cover, title page or table-of-contents page
    | ItemNotFound        // a spine item whose dest_path is not a registered html item
    | OrphanNode          // a table-of-contents node deeper than 1 without a parent
    | EmptySpine          // a default spine order computed over an empty spine
    | UnknownImageType    // a cover read from a stream whose image type is not recognised
    | MissingMimeType     // an item whose mime type could not be guessed, met while writing

  datatype Option<T> = None | Some(value: T)

  datatype Result<T> = Ok(value: T) | Err(error: Error)
}
