/** Values that may be absent. */
module OptionalValues {
  datatype Option<+T> = None | Some(value: T)
}
