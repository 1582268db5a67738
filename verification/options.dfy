/** Optional values: Python's `Optional[...]` and "no match" results. */
module Options {

  datatype Option<+T> = None | Some(value: T)
}
