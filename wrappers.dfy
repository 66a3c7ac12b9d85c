/** The optional result returned by the containers' Get, Pop, Peek and dequeue operations. */
module Wrappers {
  datatype Option<T> = None | Some(value: T)
}
