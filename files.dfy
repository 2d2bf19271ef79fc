/** What opening and reading a file gives, as the scripts see it. */
module Files {
  /** The text read, a missing file, or another error with its message. */
  datatype FileRead = Contents(text: string) | NotFound | ReadError(detail: string)
}
