/** The optional value used wherever the script gets "nothing": a `find` with
    no hit, a cancelled prompt, a missing stored value. */
module Wrappers {

  datatype Option<+T> = None | Some(value: T)
}
