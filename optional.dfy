/** A value that may be absent: JavaScript's `undefined`, `null` and `false`
    placeholders in the modelled code all become `None`. */
module Optional {
  datatype Option<+T> = None | Some(value: T)
}
