/** An optional value: Java's nullable `String` is `None` when the reference is null. */
module Options {

  datatype Option<+T> = None | Some(value: T)
}
