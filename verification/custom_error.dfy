/**
 * The error classes of the API. Every class extends CustomError (which extends the
 * built-in Error); each constructor assigns a constant name and status code and keeps
 * the message, falling back to a default text when the message is empty.
 */
module Errors {
  import opened Wrappers

  /** One value per error class. */
  datatype ErrorKind = Custom | Teapot | Conflict | NotFound | Invalid | Server | Unauthorized {

    /** The `name` the class's constructor assigns: the class name, which ends in "Error". */
    function Name(): (n: string)
      ensures |n| > 5 && n[|n| - 5..] == "Error"
      ensures this == Custom <==> n == "CustomError"
    {
      match this
      case Custom => "CustomError"
      case Teapot => "TeapotError"
      case Conflict => "ConflictError"
      case NotFound => "NotFoundError"
      case Invalid => "InvalidError"
      case Server => "ServerError"
      case Unauthorized => "UnauthorizedError"
    }

    /** The `statusCode` the class's constructor assigns. */
    function StatusCode(): (code: int)
      ensures code in {403, 404, 409, 418, 500}
      ensures code == 418 <==> this in {Custom, Teapot, Invalid}
      ensures code == 409 <==> this == Conflict
      ensures code == 404 <==> this == NotFound
      ensures code == 500 <==> this == Server
      ensures code == 403 <==> this == Unauthorized
    {
      match this
      case Custom => 418
      case Teapot => 418
      case Conflict => 409
      case NotFound => 404
      case Invalid => 418
      case Server => 500
      case Unauthorized => 403
    }

    /** The class this one extends, if it is not CustomError itself. */
    function Parent(): Option<ErrorKind> {
      if this == Custom then None else Some(Custom)
    }
  }

  const DefaultMessage: string := "An error occurred"

  /** An instance of one of the error classes. Its name and status code are those of its class. */
  datatype CustomError = CustomError(kind: ErrorKind, message: string) {
    function Name(): string { kind.Name() }
    function StatusCode(): int { kind.StatusCode() }
  }

  /** `new <Kind>Error(message)`. */
  function NewError(kind: ErrorKind, message: string): (e: CustomError)
    ensures e.kind == kind
    ensures e.message != []
    ensures message != [] ==> e.message == message
    ensures message == [] ==> e.message == DefaultMessage
  {
    CustomError(kind, if message == [] then DefaultMessage else message)
  }

  /** Whether class `sub` is `cls` or extends it, following the prototype chain. */
  function IsSubclassOf(sub: ErrorKind, cls: ErrorKind): bool
    decreases if sub == Custom then 0 else 1
  {
    sub == cls || (sub.Parent().Some? && IsSubclassOf(sub.Parent().value, cls))
  }

  /** `e instanceof Cls`. */
  predicate InstanceOf(e: CustomError, cls: ErrorKind) {
    IsSubclassOf(e.kind, cls)
  }

  /** Every error is a CustomError; besides that, an error is an instance of its own class only. */
  lemma InstanceOfClasses(e: CustomError, cls: ErrorKind)
    ensures InstanceOf(e, Custom)
    ensures InstanceOf(e, cls) <==> cls == e.kind || cls == Custom
  {
  }

  /** No two classes share a name, so the name identifies the class. */
  lemma NamesIdentifyClasses(a: ErrorKind, b: ErrorKind)
    ensures a.Name() == b.Name() <==> a == b
  {
    if a != b {
      // the first letter, or else the length, tells any two names apart
      assert a.Name()[0] != b.Name()[0] || |a.Name()| != |b.Name()|;
    }
  }

  /** What a `throw` carries: an instance of one of the error classes, or another built-in error. */
  datatype Thrown = Raised(err: CustomError) | Plain(name: string, message: string) {
    function Name(): string {
      if Raised? then err.Name() else name
    }
    function Message(): string {
      if Raised? then err.message else message
    }
  }

  /** `throw new <Kind>Error(message)`. */
  function Raise(kind: ErrorKind, message: string): (t: Thrown)
    ensures t.Raised? && t.err.kind == kind && t.Name() == kind.Name()
    ensures message != [] ==> t.Message() == message
  {
    Raised(NewError(kind, message))
  }
}
