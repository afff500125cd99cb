/** What a route handler sends back: a success status with a JSON body, or an
    error status with the `{ error }` message. */
module Http {

  datatype Response<T> =
    | Success(code: nat, body: T)
    | Failure(code: nat, error: string)
}
