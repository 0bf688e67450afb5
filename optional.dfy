/** Absence as a value: JavaScript's `null` results and missing entries. */
module Optional {

  datatype Option<+T> = None | Some(value: T)
}
