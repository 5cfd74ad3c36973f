/** The optional value the component keeps where JavaScript uses `null`. */
module Options {

  datatype Option<T> = None | Some(value: T)
}
