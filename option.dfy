/** An optional value, for absent filenames and lookups that find nothing. */
module Optional {
  datatype Option<T> = None | Some(value: T)
}
