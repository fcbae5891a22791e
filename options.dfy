/** An optional value, used where the source stores '' or undefined for "absent". */
module Options {

  datatype Option<T> = None | Some(value: T)

}
