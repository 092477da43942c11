/** The optional value used for absent data: a restaurant not yet loaded, a missing
    session entry, an index that `indexOf` reports as -1. */
module Options {

  datatype Option<+T> = None | Some(value: T)

}
