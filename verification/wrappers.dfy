/** The optional value used wherever the modelled Java code either produces
    something or throws (an index that is not found, a number that does not
    parse, a sort that cannot compute its keys). */
module Wrappers {

  datatype Option<+T> = None | Some(value: T)

}
