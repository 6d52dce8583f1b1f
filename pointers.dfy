/** A Go pointer `*T`: one mutable storage location that several flag-set
    entries, a flag's destination and the caller may share. */
module Pointers {

  class Ref<T> {
    var val: T

    constructor (v: T)
      ensures val == v
    {
      val := v;
    }
  }
}
