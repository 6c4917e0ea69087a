/** The `@ControllerAdvice` that turns the exception a service throws into an
    HTTP response: a status code and a plain-text body. */
module ExceptionHandler {
  import opened Outcomes

  datatype Response = Response(status: int, body: string)

  const NotFound := 404
  const BadRequest := 400
  const Conflict := 409
  const InternalServerError := 500

  /** The prefix put before the message of an exception no other handler takes. */
  const InternalPrefix := "An internal error occurred: "

  /** The four handler methods taken together. */
  function Handle(e: ServiceError): (r: Response)
    ensures r.status in {NotFound, BadRequest, Conflict, InternalServerError}
    ensures r.status == InternalServerError <==> e.Unexpected?
  {
    match e
    case ResourceNotFound(m) => Response(NotFound, m)
    case InvalidData(m) => Response(BadRequest, m)
    case DataIntegrity(m) => Response(Conflict, m)
    case Unexpected(m) => Response(InternalServerError, InternalPrefix + m)
  }

  /** Reading a response back as the exception it reports, where it reports one. */
  function Recover(r: Response): Option<ServiceError>
  {
    if r.status == NotFound then Some(ResourceNotFound(r.body))
    else if r.status == BadRequest then Some(InvalidData(r.body))
    else if r.status == Conflict then Some(DataIntegrity(r.body))
    else if r.status == InternalServerError && |InternalPrefix| <= |r.body|
              && r.body[..|InternalPrefix|] == InternalPrefix then
      Some(Unexpected(r.body[|InternalPrefix|..]))
    else None
  }

  /** No information is lost: the response determines the exception's kind and
      its message. */
  lemma RecoverHandle(e: ServiceError)
    ensures Recover(Handle(e)) == Some(e)
  {
    if e.Unexpected? {
      var b := InternalPrefix + e.message;
      assert b[..|InternalPrefix|] == InternalPrefix;
      assert b[|InternalPrefix|..] == e.message;
    }
  }

  /** Hence the handler is injective: different exceptions give different
      responses. */
  lemma HandleInjective(e1: ServiceError, e2: ServiceError)
    requires Handle(e1) == Handle(e2)
    ensures e1 == e2
  {
    RecoverHandle(e1);
    RecoverHandle(e2);
  }

  /** The three translated kinds carry the message as the whole body, with the
      status of their kind. */
  lemma HandleTranslated(e: ServiceError)
    ensures e.ResourceNotFound? ==> Handle(e) == Response(NotFound, e.message)
    ensures e.InvalidData? ==> Handle(e) == Response(BadRequest, e.message)
    ensures e.DataIntegrity? ==> Handle(e) == Response(Conflict, e.message)
    ensures e.Unexpected? ==> Handle(e).body == InternalPrefix + e.message
  {
  }
}
