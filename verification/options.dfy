/** The optional value used where Ruby code passes or returns `nil`. */
module Options {

  datatype Option<+T> = None | Some(value: T)
}
