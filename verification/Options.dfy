/** Absent values, for the places where the program returns null or undefined. */
module Options {
  datatype Option<+T> = None | Some(value: T)
}
