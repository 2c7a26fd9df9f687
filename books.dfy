/** The values the hash table stores, Java's nullable String, and the
    exceptions the table throws, as datatypes. */
module Books {

  /** A Java reference that may be null: None stands for null. */
  datatype Option<+T> = None | Some(value: T)

  /** The checked exceptions of the table's interface. */
  datatype Error = IllegalNullKey | DuplicateKey | KeyNotFound

  /** Result of an operation that returns a value or throws. */
  datatype Result<+T> = Success(value: T) | Failure(error: Error)

  /** Result of an operation that returns nothing or throws. */
  datatype Outcome = Pass | Fail(error: Error)

  /** A book record. The table only ever asks a book for its own key
      (getKey(), which may be null); the other columns are opaque. */
  datatype Book = Book(key: Option<string>, fields: seq<string>)
}
