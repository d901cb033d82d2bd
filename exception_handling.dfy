/** The failures the employee service raises and the translation of each
    into an HTTP error response (GlobalExceptionHandler). */
module ExceptionHandling {
  import opened Wrappers

  /** The kinds of failure that reach the handler, one per handler method.
      The duplicate-email failure is a plain RuntimeException, so it is an
      `OtherRuntime`. */
  datatype Failure =
    | NotFound(message: string)        // EmployeeNotFoundException
    | InvalidEmail(message: string)    // InvalidEmailException
    | OtherRuntime(message: string)    // any other RuntimeException
    | OtherException(message: string)  // any other Exception

  /** The JSON error body; its timestamp is a clock read and is not modelled. */
  datatype ErrorResponse = ErrorResponse(message: string, status: int)

  /** A response: its body and the HTTP status it is sent with. */
  datatype ResponseEntity = ResponseEntity(body: ErrorResponse, status: int)

  const NOT_FOUND: int := 404
  const BAD_REQUEST: int := 400
  const INTERNAL_SERVER_ERROR: int := 500

  /** The text sent instead of the message of an unclassified exception. */
  const GENERIC_MESSAGE: string := "Une erreur inattendue s'est produite. Veuillez réessayer plus tard."

  // The four handler methods.

  function HandleEmployeeNotFound(message: string): ResponseEntity {
    ResponseEntity(ErrorResponse(message, NOT_FOUND), NOT_FOUND)
  }

  function HandleInvalidEmailException(message: string): ResponseEntity {
    ResponseEntity(ErrorResponse(message, BAD_REQUEST), BAD_REQUEST)
  }

  function HandleRuntimeException(message: string): ResponseEntity {
    ResponseEntity(ErrorResponse(message, BAD_REQUEST), BAD_REQUEST)
  }

  function HandleGeneralException(message: string): ResponseEntity {
    ResponseEntity(ErrorResponse(GENERIC_MESSAGE, INTERNAL_SERVER_ERROR), INTERNAL_SERVER_ERROR)
  }

  /** The response the handler produces for a failure: one exhaustive case
      analysis in place of the framework's dispatch on exception classes. */
  function Handle(f: Failure): (r: ResponseEntity)
    ensures r.body.status == r.status
    ensures r.status == NOT_FOUND <==> f.NotFound?
    ensures r.status == BAD_REQUEST <==> f.InvalidEmail? || f.OtherRuntime?
    ensures r.status == INTERNAL_SERVER_ERROR <==> f.OtherException?
    ensures r.body.message == if f.OtherException? then GENERIC_MESSAGE else f.message
  {
    match f
    case NotFound(m) => HandleEmployeeNotFound(m)
    case InvalidEmail(m) => HandleInvalidEmailException(m)
    case OtherRuntime(m) => HandleRuntimeException(m)
    case OtherException(m) => HandleGeneralException(m)
  }

  /** An unclassified exception's own message never reaches the client. */
  lemma GeneralHandlerHidesMessage(m1: string, m2: string)
    ensures Handle(OtherException(m1)) == Handle(OtherException(m2))
    ensures Handle(OtherException(m1)).body.message == GENERIC_MESSAGE
  {
  }

  // The framework's dispatch, stated independently: each handler method
  // declares an exception class; a handler applies to a thrown exception
  // whose class is that class or a subclass of it, and among the applicable
  // handlers the one whose class is nearest in the hierarchy wins.

  /** Exception classes: the four the handlers declare, and any class that
      extends another without a handler of its own. */
  datatype ExceptionClass =
    | EmployeeNotFoundException
    | InvalidEmailException
    | RuntimeException
    | Exception
    | Subclass(parent: ExceptionClass)

  /** The classes that have a handler method. */
  predicate Declared(c: ExceptionClass) {
    !c.Subclass?
  }

  /** The two application exceptions are unchecked, hence RuntimeException subclasses. */
  function Superclass(c: ExceptionClass): Option<ExceptionClass> {
    match c
    case EmployeeNotFoundException => Some(RuntimeException)
    case InvalidEmailException => Some(RuntimeException)
    case RuntimeException => Some(Exception)
    case Exception => None
    case Subclass(p) => Some(p)
  }

  /** Height above Exception, the root of the hierarchy. */
  function Rank(c: ExceptionClass): nat {
    match c
    case Exception => 0
    case RuntimeException => 1
    case EmployeeNotFoundException => 2
    case InvalidEmailException => 2
    case Subclass(p) => Rank(p) + 1
  }

  /** Number of superclass steps from `c` up to `h`, if `h` is `c` or one of its ancestors. */
  function Distance(c: ExceptionClass, h: ExceptionClass): Option<nat>
    decreases Rank(c)
  {
    if c == h then Some(0)
    else match Superclass(c)
      case None => None
      case Some(p) =>
        assert Rank(p) < Rank(c);
        match Distance(p, h)
        case None => None
        case Some(d) => Some(d + 1)
  }

  /** `c` is `h` or extends it. */
  predicate IsA(c: ExceptionClass, h: ExceptionClass) {
    Distance(c, h).Some?
  }

  /** The failure kind of an exception of class `c`, classified by what it extends. */
  function FailureOf(c: ExceptionClass, message: string): Failure {
    if IsA(c, EmployeeNotFoundException) then NotFound(message)
    else if IsA(c, InvalidEmailException) then InvalidEmail(message)
    else if IsA(c, RuntimeException) then OtherRuntime(message)
    else OtherException(message)
  }

  /** A class that throws each failure kind; classifying it gives the failure back. */
  function ClassOf(f: Failure): (c: ExceptionClass)
    ensures FailureOf(c, f.message) == f
  {
    match f
    case NotFound(_) => EmployeeNotFoundException
    case InvalidEmail(_) => InvalidEmailException
    case OtherRuntime(_) => RuntimeException
    case OtherException(_) => Exception
  }

  ghost predicate Applies(h: ExceptionClass, c: ExceptionClass) {
    Declared(h) && IsA(c, h)
  }

  /** `h` is the handler the framework picks for class `c`: applicable, and no applicable handler is nearer. */
  ghost predicate MostSpecific(h: ExceptionClass, c: ExceptionClass) {
    && Applies(h, c)
    && forall h' :: Applies(h', c) ==> Distance(c, h).value <= Distance(c, h').value
  }

  /** Calls the handler method declared for class `h`. */
  function Invoke(h: ExceptionClass, message: string): ResponseEntity {
    match h
    case EmployeeNotFoundException => HandleEmployeeNotFound(message)
    case InvalidEmailException => HandleInvalidEmailException(message)
    case RuntimeException => HandleRuntimeException(message)
    case Exception => HandleGeneralException(message)
    case Subclass(_) => HandleGeneralException(message)
  }

  /** The nearest class with a handler at or above `c`. */
  function NearestDeclared(c: ExceptionClass): (h: ExceptionClass)
    ensures Declared(h)
  {
    match c
    case Subclass(p) => NearestDeclared(p)
    case _ => c
  }

  /** The ancestors of a class form a chain: one distance names one class. */
  lemma {:induction false} DistanceDetermines(c: ExceptionClass, h1: ExceptionClass, h2: ExceptionClass)
    requires Distance(c, h1).Some? && Distance(c, h1) == Distance(c, h2)
    ensures h1 == h2
    decreases Rank(c)
  {
    if c != h1 && c != h2 {
      match c
      case Subclass(p) => DistanceDetermines(p, h1, h2);
      case EmployeeNotFoundException => DistanceDetermines(RuntimeException, h1, h2);
      case InvalidEmailException => DistanceDetermines(RuntimeException, h1, h2);
      case RuntimeException => DistanceDetermines(Exception, h1, h2);
      case Exception =>
    }
  }

  /** The nearest declared ancestor applies, and no applicable handler is nearer. */
  lemma {:induction false} NearestDeclaredIsNearest(c: ExceptionClass)
    ensures Applies(NearestDeclared(c), c)
    ensures forall h :: Applies(h, c) ==> Distance(c, NearestDeclared(c)).value <= Distance(c, h).value
  {
    match c
    case Subclass(p) =>
      NearestDeclaredIsNearest(p);
      forall h | Applies(h, c)
        ensures Distance(c, NearestDeclared(c)).value <= Distance(c, h).value
      {
        assert Applies(h, p);
      }
    case _ =>
  }

  /** The handler nearest to `c` is the one `FailureOf` classifies it under. */
  lemma {:induction false} NearestDeclaredClassifies(c: ExceptionClass, message: string)
    ensures Invoke(NearestDeclared(c), message) == Handle(FailureOf(c, message))
  {
    match c
    case Subclass(p) =>
      NearestDeclaredClassifies(p, message);
      assert forall h :: Declared(h) ==> (IsA(c, h) <==> IsA(p, h));
    case _ =>
  }

  /** Every exception class has exactly one most specific handler, and
      `Handle` answers for its failure kind what that handler answers. */
  lemma HandleIsMostSpecificDispatch(c: ExceptionClass, message: string)
    ensures exists h :: MostSpecific(h, c)
    ensures forall h1, h2 :: MostSpecific(h1, c) && MostSpecific(h2, c) ==> h1 == h2
    ensures forall h :: MostSpecific(h, c) ==> Invoke(h, message) == Handle(FailureOf(c, message))
  {
    var n := NearestDeclared(c);
    NearestDeclaredIsNearest(c);
    NearestDeclaredClassifies(c, message);
    assert MostSpecific(n, c);
    forall h | MostSpecific(h, c)
      ensures h == n
    {
      DistanceDetermines(c, h, n);
    }
  }

  /** A class two steps below RuntimeException reaches the RuntimeException
      handler, two steps up, ahead of the Exception handler. */
  lemma RuntimeSubclassDispatch(message: string)
    ensures MostSpecific(RuntimeException, Subclass(Subclass(RuntimeException)))
    ensures Distance(Subclass(Subclass(RuntimeException)), RuntimeException) == Some(2)
    ensures Handle(FailureOf(Subclass(Subclass(RuntimeException)), message)).status == BAD_REQUEST
  {
    var c := Subclass(Subclass(RuntimeException));
    assert NearestDeclared(c) == RuntimeException;
    NearestDeclaredIsNearest(c);
  }
}
