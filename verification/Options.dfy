/** The optional value shared by all modules (a NULL pointer, an absent row, an impossible step). */
module Options {
  datatype Option<+T> = None | Some(value: T)
}
