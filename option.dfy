/** An optional value: what a search or a parse gives back when it may find nothing. */
module Options {

  datatype Option<T> = None | Some(value: T)
}
