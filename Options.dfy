/** A value that may be absent: a JSON field left out of a request body, a
    file that could not be opened, a failed request on the client. */
module Options {

  datatype Option<+T> = None | Some(value: T)

}
