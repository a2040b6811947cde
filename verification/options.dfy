/** The optional value the repository's operations return in place of Rust's `Option`. */
module Options {
  datatype Option<T> = None | Some(value: T)
}
