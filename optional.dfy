/** The conventional Some/None datatype: a lookup that finds nothing, or a
    report for a student who has no marks, is `None`. */
module Optional {

  datatype Option<+T> = None | Some(value: T)
}
