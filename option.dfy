/** The conventional optional value, used where the Java code tests a map with containsKey. */
module Optional {

  datatype Option<+T> = None | Some(value: T)

}
