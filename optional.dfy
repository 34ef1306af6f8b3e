/** A value that may be missing: a NULL column, a row that `fetchone()` did not find,
    a form field that was not submitted. */
module Optional {

  datatype Option<+T> = None | Some(value: T)

}
