/** The optional value the ray tracer returns from its hit and bounding-box queries. */
module Options {
  datatype Option<+T> = None | Some(value: T)
}
