/** The optional value used wherever the source has a nullable column or a
    query that may find no row. */
module Options {
  datatype Option<+T> = None | Some(value: T)
}
