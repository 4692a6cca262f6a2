/** The optional value used for "no edge" matrix cells and for "no cycle found" results. */
module Options {

  datatype Option<T> = None | Some(value: T)
}
