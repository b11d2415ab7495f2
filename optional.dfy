/** The "value or nothing" wrapper used for nullable refs and for parsers that can fail. */
module Optional {

  datatype Option<+T> = None | Some(value: T)
}
