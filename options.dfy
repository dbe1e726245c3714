/** An optional value: `None` where the source produces nothing (a failed lookup, a refused step). */
module Options {
  datatype Option<T> = None | Some(value: T)
}
