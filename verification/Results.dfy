/** The error outcomes of the script and the wrappers that carry them. */
module Results {

  /** The two ValueErrors the script raises before it touches the database. */
  datatype Error =
    | InvalidSubjectCode   // "Invalid subject code. Only letters, numbers and underscore allowed."
    | UnsupportedFileType  // "Unsupported file type. Use .txt or .xlsx"

  datatype Result<T> = Ok(value: T) | Err(error: Error)

  /** A spreadsheet cell: a value, or an empty cell (Python's None). */
  datatype Option<T> = None | Some(value: T)
}
