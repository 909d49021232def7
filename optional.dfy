/** An optional value: `None` stands for JavaScript's `undefined` / `null`. */
module Optional {
  datatype Option<+T> = None | Some(value: T)
}
