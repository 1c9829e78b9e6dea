/** The optional value used wherever the source returns `null` or leaves a
    map entry `undefined`. */
module Options {

  datatype Option<+T> = None | Some(value: T)
}
