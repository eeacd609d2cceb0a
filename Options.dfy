/** An optional value: `None` stands for JavaScript's `undefined`/`null` or
    for "nothing found". */
module Options {
  datatype Option<T> = None | Some(value: T)
}
