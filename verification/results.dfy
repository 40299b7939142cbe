/** The errors the table engine raises and the wrappers that carry them. */
module Results {
  import opened Values

  datatype Error =
      /** ValidationError 'Invalid amount of field': wrong number of values. */
    | InvalidAmount
      /** ValidationError 'Invalid type of field': the header it names, the
          type given and the type declared for the failing column. */
    | InvalidType(field: string, given: TypeTag, expected: TypeTag)
      /** IndexError: a row index past the end of a shorter column. */
    | IndexOutOfRange
      /** AttributeError: sort asked the rows for an attribute they lack. */
    | MissingAttribute
      /** TypeError: sort had to compare a number with a string. */
    | Incomparable

  datatype Result<T> = Ok(value: T) | Err(error: Error)

  datatype Option<T> = None | Some(value: T)
}
