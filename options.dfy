/** Python's `None`-or-value results, as used by `get_repo_url`. */
module Options {

  datatype Option<+T> = None | Some(value: T)
}
