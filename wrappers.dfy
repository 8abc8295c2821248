/** The optional value shared by the generator, the DTOs and the services. */
module Wrappers {
  datatype Option<T> = None | Some(value: T)
}
