/**
 * The exceptions the TrueType parser can raise, as values, and the step that
 * turns a failed primitive read into one.
 */
module ParseErrors {
  import opened Wrappers

  datatype ParseError =
    | EndOfStream                 // a read ran past the end of the input
    | IndexOutOfRange             // an array index outside the array
    | EmptySequence               // Last() of an empty sequence
    | MissingTable(tag: string)   // First() found no directory entry with this tag
    | MissingNameRecord(nameId: int)
    | DuplicateKey(key: int)      // Dictionary.Add of a key already present

  /** A primitive read that returned nothing is an end-of-stream exception. */
  function Need<T>(o: Option<T>): (r: Result<T, ParseError>)
    ensures r.Ok? <==> o.Some?
    ensures r.Ok? ==> r.value == o.value
    ensures r.Err? ==> r.error == EndOfStream
  {
    match o
    case Some(v) => Ok(v)
    case None => Err(EndOfStream)
  }
}
