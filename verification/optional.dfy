/**
 * A value that may be missing. It stands for an argument left `undefined`
 * and for a remote call that answered with an error.
 */
module Optional {

  datatype Option<T> = None | Some(value: T)
}
