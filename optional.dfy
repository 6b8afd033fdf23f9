/** The absent-or-present value used wherever the script can fail: a
    missing dictionary key, a regular expression that finds nothing. */
module Optional {

  datatype Option<+T> = None | Some(value: T)
}
