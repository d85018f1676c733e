/** An optional value: JavaScript's `null` result of `RegExp.prototype.exec`, or a missing field. */
module Maybe {
  datatype Option<T> = None | Some(value: T)
}
