/** The optional value used for the ids and the cached title of the editor. */
module Options {

  datatype Option<T> = None | Some(value: T)

}
