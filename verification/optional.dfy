/** The absence-or-value type used wherever the widget returns `null`/`undefined`. */
module Optional {

  datatype Option<+T> = None | Some(value: T)
}
