/** JavaScript's `undefined`, made explicit: a property or result that may be absent. */
module Options {

  datatype Option<+T> = None | Some(value: T)
}
