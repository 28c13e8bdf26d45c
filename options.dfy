/** An optional value: the error returns of the store and of the policy agent. */
module Options {

  datatype Option<+T> = None | Some(value: T)
}
