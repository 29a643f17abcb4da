/** Result values shared by both controllers: a handler either succeeds with a
    value or answers "not found" (the 404 responses), naming what was missing. */
module Outcome {

  datatype Option<+T> = None | Some(value: T)

  /** What a 404 response says could not be found. */
  datatype Missing =
    | TopicMissing          // "Topic not found"
    | ParentCommentMissing  // "Parent comment not found"
    | ReplyMissing          // "Reply not found"
    | ResourceMissing       // "Resource not found"
    | ResourceFileMissing   // "Resource file not found"
    | FileUrlMissing        // "File URL not found"

  datatype Result<+T> = Ok(value: T) | NotFound(what: Missing)
}
