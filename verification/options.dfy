/** The optional-value type shared by the other modules: `None` stands for
    JavaScript's `NaN`/`undefined` where the page code produces one. */
module Options {

  datatype Option<+T> = None | Some(value: T)
}
