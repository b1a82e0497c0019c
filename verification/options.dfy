/** Optional values, as returned by the iterators and the scene queries. */
module Options {

  datatype Option<+T> = None | Some(value: T)
}
