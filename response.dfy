/** The error a token parser returns when a response does not have the shape it
    needs (`ParseError` of the client's response module). */
module Response {
  import opened Wrappers

  datatype ParseError =
    /** The response as a whole is not of the named JSON type. */
    | ExpectedType(kind: string)
    /** A field is missing or its value is not of the named JSON type. */
    | ExpectedFieldType(field: string, kind: string)
    /** A field has the right type but not the value required. */
    | ExpectedFieldValue(field: string, expected: string)
    /** A field is present that this kind of token must not carry. */
    | UnexpectedField(field: string)

  type ParseResult<T> = Result<T, ParseError>
}
