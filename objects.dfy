/** Small value shapes shared by the cluster modules. */
module Objects {

  /** The argument of a Java `equals(Object)`: either an instance of the
      class being compared, or an object of some other class. */
  datatype Obj<T> = Instance(value: T) | OtherClass

  /** The conventional Some/None datatype. */
  datatype Option<T> = None | Some(value: T)
}
