/** An optional value, used wherever the bridge may or may not produce a result. */
module Options {

  datatype Option<+T> = None | Some(value: T)

}
