/** An optional value, for the places where the component may or may not
    produce something. */
module Options {

  datatype Option<+T> = None | Some(value: T)
}
