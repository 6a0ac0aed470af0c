/** The usual Some/None datatype, used by the parsers that serve as
    inverses of the formatting functions. */
module Options {

  datatype Option<+T> = None | Some(value: T)

}
