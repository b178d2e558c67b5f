/** Values that may be missing: a JavaScript `null`/`undefined`, or a
    number that came out as `NaN`. */
module Base {

  datatype Option<+T> = None | Some(value: T)

}
