/** The optional value used throughout the model: a nullable column, an
    absent argument, or a lookup that found nothing. */
module Options {
  datatype Option<+T> = None | Some(value: T)
}
