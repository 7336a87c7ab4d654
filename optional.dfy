/** A value that may be absent: the source's null in a connection slot, and
    its undefined when a list is read past its end. */
module Optional {
  datatype Option<T> = None | Some(value: T)
}
