/**
 * The central error handler: it answers a thrown error with a status code and the body
 * {error: name, message: message}; and the fallback for routes that match nothing.
 */
module ErrorMiddleware {
  import opened Errors

  datatype ErrorBody = ErrorBody(error: string, message: string)

  datatype Response = Response(status: int, body: ErrorBody)

  /** The classes whose own status code the handler sends. */
  predicate KeepsOwnStatus(t: Thrown) {
    t.Raised? && (InstanceOf(t.err, Conflict) || InstanceOf(t.err, NotFound) || InstanceOf(t.err, Invalid))
  }

  /** errorHandler, as written: every error outside the three classes above gets status 300. */
  function ErrorHandler(t: Thrown): (r: Response)
    ensures r.body == ErrorBody(t.Name(), t.Message())
    ensures r.status in {300, 404, 409, 418}
    ensures t.Raised? && t.err.kind == Conflict ==> r.status == 409
    ensures t.Raised? && t.err.kind == NotFound ==> r.status == 404
    ensures t.Raised? && t.err.kind == Invalid ==> r.status == 418
    ensures r.status == 300 <==> !(t.Raised? && t.err.kind in {Conflict, NotFound, Invalid})
  {
    var status := if KeepsOwnStatus(t) then t.err.StatusCode() else 300;
    Response(status, ErrorBody(t.Name(), t.Message()))
  }

  /** routeNotFoundHandler: the error it passes on for a request to `originalUrl`. */
  function RouteNotFoundHandler(originalUrl: string): (t: Thrown)
    ensures t.Raised? && InstanceOf(t.err, NotFound)
    ensures t.Message() == "Route not found: " + originalUrl
  {
    Raise(NotFound, "Route not found: " + originalUrl)
  }

  /** A request to a route that does not exist is answered with 404 and a NotFoundError body naming the URL. */
  lemma UnknownRouteAnswers404(originalUrl: string)
    ensures ErrorHandler(RouteNotFoundHandler(originalUrl)) ==
            Response(404, ErrorBody("NotFoundError", "Route not found: " + originalUrl))
  {
  }

  /**
   * The handler the tests describe: a plain CustomError sends 418, a TypeError 400 and
   * any other error 500. The classes no test covers send their own status code,
   * extending the CustomError case.
   */
  function IntendedErrorHandler(t: Thrown): (r: Response)
    ensures r.body == ErrorBody(t.Name(), t.Message())
    ensures t.Raised? ==> r.status == t.err.StatusCode()
    ensures t.Plain? ==> r.status == (if t.name == "TypeError" then 400 else 500)
    ensures 400 <= r.status <= 500
  {
    var status := if t.Raised? then t.err.StatusCode() else if t.name == "TypeError" then 400 else 500;
    Response(status, ErrorBody(t.Name(), t.Message()))
  }

  /**
   * Where the two handlers part: a ServerError, an UnauthorizedError, a plain CustomError,
   * a TypeError and a generic Error all get 300 from the handler as written. The tests
   * pin 418, 400 and 500 for the last three; the first two would get their own status
   * from the intended handler.
   */
  lemma HandlerSends300ToUnrecognisedErrors(message: string)
    ensures ErrorHandler(Raise(Server, message)).status == 300
    ensures IntendedErrorHandler(Raise(Server, message)).status == 500
    ensures ErrorHandler(Raise(Unauthorized, message)).status == 300
    ensures IntendedErrorHandler(Raise(Unauthorized, message)).status == 403
    ensures ErrorHandler(Raise(Custom, message)).status == 300
    ensures IntendedErrorHandler(Raise(Custom, message)).status == 418
    ensures ErrorHandler(Plain("TypeError", message)).status == 300
    ensures IntendedErrorHandler(Plain("TypeError", message)).status == 400
    ensures ErrorHandler(Plain("Error", message)).status == 300
    ensures IntendedErrorHandler(Plain("Error", message)).status == 500
  {
  }

  /** Both handlers agree on the three classes the written one recognises. */
  lemma HandlersAgreeOnRecognisedClasses(t: Thrown)
    requires t.Raised? && t.err.kind in {Conflict, NotFound, Invalid}
    ensures ErrorHandler(t) == IntendedErrorHandler(t)
  {
  }
}
