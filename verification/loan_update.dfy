/** The loan edit page: the presence check run before a loan is sent back
    with PUT, and the mapping of a failed request to the message shown. */
module LoanUpdate {
  import opened Wrappers
  import Calendar
  import opened LoanAdmission

  const MissingFieldsMessage: string := "Todos los campos son obligatorios."
  const BadRequestMessage: string := "Error al actualizar el préstamo. Verifica los datos enviados."
  const RetryMessage: string := "Error al actualizar el préstamo. Intenta nuevamente."

  /** Every one of the five fields is truthy, that is, a non-empty string. */
  predicate AllFieldsPresent(p: Loan) {
    && p.usuarioId != ""
    && p.libroId != ""
    && p.fechaPrestamo != ""
    && p.fechaDevolucion != ""
    && p.estadoPrestamo != ""
  }

  /** Whether the edit handler sends the loan or stops with an error. */
  datatype UpdateStep = Rejected(error: string) | Send(body: Loan)

  function ValidateUpdate(p: Loan): (step: UpdateStep)
    ensures step.Send? <==> AllFieldsPresent(p)
    ensures step.Send? ==> step.body == p
    ensures step.Rejected? ==> step.error == MissingFieldsMessage
  {
    if !AllFieldsPresent(p) then Rejected(MissingFieldsMessage) else Send(p)
  }

  /** How a PUT can fail: an HTTP error response with its status, or no
      response at all. */
  datatype UpdateFailure = HttpError(status: int) | NoResponse

  /** The message for a failed PUT: status 400 asks to check the data, every
      other failure to try again. */
  function FailureMessage(f: UpdateFailure): (message: string)
    ensures message == BadRequestMessage <==> f == HttpError(400)
    ensures message == RetryMessage <==> f != HttpError(400)
  {
    if f.HttpError? && f.status == 400 then BadRequestMessage else RetryMessage
  }

  /** What the edit handler leaves behind: the error on display, the body it
      sent if any, and whether it navigated back to the list. */
  datatype UpdateEffect = UpdateEffect(error: string, sent: Option<Loan>, navigated: bool)

  /** The whole edit handler. `response` is the outcome the server would give
      to a PUT (None for success); it is not consulted when nothing is sent. */
  function HandleUpdate(p: Loan, error: string, response: Option<UpdateFailure>): (e: UpdateEffect)
    ensures !AllFieldsPresent(p) ==> e == UpdateEffect(MissingFieldsMessage, None, false)
    ensures AllFieldsPresent(p) ==> e.sent == Some(p)
    ensures AllFieldsPresent(p) && response.None? ==> e.navigated && e.error == error
    ensures AllFieldsPresent(p) && response.Some? ==>
      && !e.navigated
      && e.error == (if response.value == HttpError(400) then BadRequestMessage else RetryMessage)
  {
    match ValidateUpdate(p)
    case Rejected(message) => UpdateEffect(message, None, false)
    case Send(body) =>
      match response
      case None => UpdateEffect(error, Some(body), true)
      case Some(failure) => UpdateEffect(FailureMessage(failure), Some(body), false)
  }

  /** Presence is the only validation on the edit path: a loan whose dates are
      reversed and whose book is held by another loan is still sent, although
      the create path would reject it. */
  lemma UpdateSkipsAdmissionRules()
    ensures
      var held := Loan("1", "7", "2025-02-01", "2025-02-15", "Activo");
      var edited := Loan("2", "7", "2025-03-01", "2025-02-28", "Activo");
      var parse := (s: string) =>
        if s == "2025-03-01" then Some(Calendar.CalendarDate(2025, 3, 1))
        else if s == "2025-02-28" then Some(Calendar.CalendarDate(2025, 2, 28))
        else None;
      && ValidateUpdate(edited) == Send(edited)
      && CheckCreate(parse, [held], edited) == RejectDateOrder
      && CheckCreate(parse, [held], edited.(fechaDevolucion := "")) == RejectAlreadyLent
  {
  }

  /** Because the edit path re-checks nothing, sending an edit can leave two
      blocking loans on one book, which the create path never does. */
  lemma UpdateCanBreakOneActiveLoanPerBook()
    ensures
      var prestamos := [Loan("1", "7", "2025-02-01", "2025-02-15", "Activo"),
                        Loan("2", "7", "2025-01-01", "2025-01-15", "Devuelto")];
      var edited := prestamos[1].(estadoPrestamo := "Atrasado");
      && OneActiveLoanPerBook(prestamos)
      && ValidateUpdate(edited) == Send(edited)
      && !OneActiveLoanPerBook(prestamos[1 := edited])
  {
    var prestamos := [Loan("1", "7", "2025-02-01", "2025-02-15", "Activo"),
                      Loan("2", "7", "2025-01-01", "2025-01-15", "Devuelto")];
    var edited := prestamos[1].(estadoPrestamo := "Atrasado");
    assert "Devuelto" !in BlockingStates;
    var after := prestamos[1 := edited];
    assert after[0].estadoPrestamo in BlockingStates && after[1].estadoPrestamo in BlockingStates;
  }

  /** Whenever a book has a blocking loan and another loan of the same book
      is not blocking, the edit that sets that other loan to "Activo" is sent,
      provided its fields are filled in, and leaves two blocking loans on the
      book. */
  lemma EditCanBreakOneActiveLoanPerBook(prestamos: seq<Loan>, j: nat, k: nat)
    requires j < |prestamos| && k < |prestamos|
    requires Blocks(prestamos[j], prestamos[k].libroId)
    requires prestamos[k].estadoPrestamo !in BlockingStates
    requires AllFieldsPresent(prestamos[k].(estadoPrestamo := "Activo"))
    ensures ValidateUpdate(prestamos[k].(estadoPrestamo := "Activo")) == Send(prestamos[k].(estadoPrestamo := "Activo"))
    ensures !OneActiveLoanPerBook(prestamos[k := prestamos[k].(estadoPrestamo := "Activo")])
  {
    var after := prestamos[k := prestamos[k].(estadoPrestamo := "Activo")];
    assert j != k;
    assert after[j] == prestamos[j] && after[k].estadoPrestamo == BlockingStates[0];
    if j < k {
      assert after[j].libroId == after[k].libroId;
    } else {
      assert after[k].libroId == after[j].libroId;
    }
  }
}
