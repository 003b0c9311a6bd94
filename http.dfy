/** The JSON responses and the cookie the authentication routes produce. */
module Http {

  import opened Wrappers

  /** The JSON bodies of the auth routes: `{error: message}` or `{ok: true}`. */
  datatype Body = ErrorJson(error: string) | OkJson

  /** `res.cookies.set(name, value, {httpOnly, secure, sameSite, path, maxAge})`. */
  datatype Cookie = Cookie(name: string, value: string, httpOnly: bool, secure: bool,
                           sameSite: string, path: string, maxAge: int)

  /** `NextResponse.json(body, {status})`, with the cookie it sets, if any. */
  datatype Response = Response(status: int, body: Body, cookie: Option<Cookie>)

  const StatusOk: int := 200
  const StatusBadRequest: int := 400
  const StatusUnauthorized: int := 401
  const StatusConflict: int := 409
  const StatusServerError: int := 500

  /** A JSON error reply carrying no cookie. */
  function Error(status: int, message: string): Response {
    Response(status, ErrorJson(message), None)
  }

  /** `(field || "").toString()` for a string field that may be absent: absent reads as "". */
  function FieldText(field: Option<string>): string {
    field.GetOr("")
  }
}
