/** Kotlin's nullable values (`T?`) as an Option. */
module Optional {

  datatype Option<+T> = None | Some(value: T)
}
