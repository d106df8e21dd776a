/** Optional values. A failing operation of the model returns `None`: the reasons
    the program reports are texts, which are not modelled. */
module Options {
  datatype Option<+T> = None | Some(value: T)
}
