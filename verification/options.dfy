/** The optional value Swift writes as `T?`: `nil` or a wrapped value. */
module Options {

  datatype Option<+T> = None | Some(value: T)
}
