/** The conventional optional value, used for the results of the operating-system oracles. */
module Optional {

  datatype Option<T> = None | Some(value: T)
}
