/** Names that several parts of the model share. */
module Common {
  const PAGE_SIZE: nat := 4096

  datatype Option<T> = None | Some(value: T)
}
