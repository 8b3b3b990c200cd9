/** The uniform `{error, data}` envelope and the ways a request can fail. */
module Response {
  import opened Wrappers

  /** `ApiResponse`: both `error` and `data` default to `None`. */
  datatype ApiResponse<D> = ApiResponse(error: Option<string>, data: Option<D>)

  /** `ApiResponse(data=d)`: the envelope of a successful endpoint. */
  function WithData<D>(d: D): ApiResponse<D>
  {
    ApiResponse(None, Some(d))
  }

  /**
   * How a request fails: an `HTTPException` raised by the endpoint, a request
   * body refused by a field validator (answered 422 by the framework), or an
   * exception nothing catches (answered 500 by the framework).
   */
  datatype Failure =
    | HttpException(status: int, detail: string)
    | ValidationError(detail: string)
    | UnhandledError(cause: string)
}
