/** The `None`-or-value results of the move selectors. */
module Options {

  datatype Option<+T> = None | Some(value: T)
}
