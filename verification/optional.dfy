/** The `None`-or-value wrapper used wherever the scripts return or accept Python's `None`. */
module Optional {

  datatype Option<+T> = None | Some(value: T)
}
