/** The optional value shared by the puzzle models: Rust's `Option`. */
module Options {

  datatype Option<T> = None | Some(value: T)
}
