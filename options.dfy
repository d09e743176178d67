/** The optional value used where the slides get `undefined` back (d3.max or
    d3.extent of an empty array). */
module Options {
  datatype Option<+T> = None | Some(value: T)
}
