/** The loan page: the client-side admission check run before a new loan is
    posted, and the state filter over the cached list of loans. */
module LoanAdmission {
  import opened Wrappers
  import Calendar

  /** A loan as the page holds it: the draft being created and every entry
      of the cached list share these five form fields. */
  datatype Loan = Loan(
    usuarioId: string,
    libroId: string,
    fechaPrestamo: string,
    fechaDevolucion: string,
    estadoPrestamo: string)

  /** The states in which a loan keeps its book unavailable. */
  const BlockingStates: seq<string> := ["Activo", "Pendiente", "Atrasado"]
  const Returned: string := "Devuelto"

  const DateOrderMessage: string := "La fecha de devolución debe ser mayor que la fecha de préstamo."
  const AlreadyLentMessage: string := "Este libro ya está prestado y aún no ha sido devuelto."

  /** Loan `l` keeps book `libroId` unavailable. */
  predicate Blocks(l: Loan, libroId: string) {
    l.libroId == libroId && l.estadoPrestamo in BlockingStates
  }

  /** Some loan in `prestamos` keeps book `libroId` unavailable. */
  ghost predicate SomeLoanBlocks(prestamos: seq<Loan>, libroId: string) {
    exists i :: 0 <= i < |prestamos| && Blocks(prestamos[i], libroId)
  }

  /** The `prestamos.some(...)` scan for a loan of the same book that has not
      been returned. */
  function AlreadyLent(prestamos: seq<Loan>, libroId: string): (lent: bool)
    ensures lent <==> SomeLoanBlocks(prestamos, libroId)
    decreases |prestamos|
  {
    if |prestamos| == 0 then false
    else
      var lentLater := AlreadyLent(prestamos[1..], libroId);
      assert SomeLoanBlocks(prestamos[1..], libroId) ==> SomeLoanBlocks(prestamos, libroId) by {
        if SomeLoanBlocks(prestamos[1..], libroId) {
          var i :| 0 <= i < |prestamos[1..]| && Blocks(prestamos[1..][i], libroId);
          assert prestamos[1..][i] == prestamos[i + 1];
        }
      }
      assert SomeLoanBlocks(prestamos, libroId) && !Blocks(prestamos[0], libroId) ==> SomeLoanBlocks(prestamos[1..], libroId) by {
        if SomeLoanBlocks(prestamos, libroId) && !Blocks(prestamos[0], libroId) {
          var i :| 0 <= i < |prestamos| && Blocks(prestamos[i], libroId);
          assert prestamos[1..][i - 1] == prestamos[i];
        }
      }
      Blocks(prestamos[0], libroId) || lentLater
  }

  /** What the create button leads to. */
  datatype Admission = RejectDateOrder | RejectAlreadyLent | Submit(body: Loan)

  /** The alert shown for a rejection; a submission shows none. */
  function AlertOf(a: Admission): Option<string> {
    match a
    case RejectDateOrder => Some(DateOrderMessage)
    case RejectAlreadyLent => Some(AlreadyLentMessage)
    case Submit(_) => None
  }

  /** `new Date(FechaDevolucion) <= new Date(FechaPrestamo)`, with date parsing
      supplied as `parse`. */
  predicate ReturnNotAfterLoan(parse: string -> Calendar.ParsedDate, draft: Loan) {
    Calendar.NotAfter(parse(draft.fechaDevolucion), parse(draft.fechaPrestamo))
  }

  /** The create handler's decision: the date check first, then the
      availability check against the cached list, and otherwise the draft
      goes out as the request body. */
  function CheckCreate(parse: string -> Calendar.ParsedDate, prestamos: seq<Loan>, draft: Loan): (a: Admission)
    ensures a.RejectDateOrder? <==> ReturnNotAfterLoan(parse, draft)
    ensures a.RejectAlreadyLent? <==>
      !ReturnNotAfterLoan(parse, draft) && SomeLoanBlocks(prestamos, draft.libroId)
    ensures a.Submit? ==> a.body == draft
  {
    if ReturnNotAfterLoan(parse, draft) then RejectDateOrder
    else if AlreadyLent(prestamos, draft.libroId) then RejectAlreadyLent
    else Submit(draft)
  }

  /** A draft whose return date is on or before its loan date is rejected
      with the date message, whatever the cached list holds, so the
      availability check never gets to report. */
  lemma DateOrderRejects(parse: string -> Calendar.ParsedDate, prestamos: seq<Loan>, draft: Loan,
                         lent: Calendar.ValidDate, due: Calendar.ValidDate)
    requires parse(draft.fechaPrestamo) == Some(lent)
    requires parse(draft.fechaDevolucion) == Some(due)
    requires !Calendar.Before(lent, due)
    ensures CheckCreate(parse, prestamos, draft) == RejectDateOrder
    ensures AlertOf(CheckCreate(parse, prestamos, draft)) == Some(DateOrderMessage)
  {
    Calendar.NotAfterIsLexicographic(Some(due), Some(lent));
  }

  /** A return date strictly after the loan date passes the date check. */
  lemma DateOrderAccepts(parse: string -> Calendar.ParsedDate, prestamos: seq<Loan>, draft: Loan,
                         lent: Calendar.ValidDate, due: Calendar.ValidDate)
    requires parse(draft.fechaPrestamo) == Some(lent)
    requires parse(draft.fechaDevolucion) == Some(due)
    requires Calendar.Before(lent, due)
    ensures CheckCreate(parse, prestamos, draft) != RejectDateOrder
  {
    Calendar.NotAfterIsLexicographic(Some(due), Some(lent));
  }

  /** An empty or unparseable date makes the comparison false, so the date
      check lets the draft through. */
  lemma InvalidDateSkipsDateCheck(parse: string -> Calendar.ParsedDate, prestamos: seq<Loan>, draft: Loan)
    requires parse(draft.fechaPrestamo).None? || parse(draft.fechaDevolucion).None?
    ensures CheckCreate(parse, prestamos, draft) != RejectDateOrder
  {
  }

  /** The admission check's verdict on a whole list splits over its parts. */
  lemma {:induction false} AlreadyLentConcat(a: seq<Loan>, b: seq<Loan>, libroId: string)
    ensures AlreadyLent(a + b, libroId) == (AlreadyLent(a, libroId) || AlreadyLent(b, libroId))
    decreases |a|
  {
    if |a| > 0 {
      assert (a + b)[1..] == a[1..] + b;
      AlreadyLentConcat(a[1..], b, libroId);
    } else {
      assert a + b == b;
    }
  }

  /** A loan that does not block the draft's book (another book, or a state
      outside the three blocking ones, "Devuelto" and "" included) can be
      added anywhere in the cached list without changing the decision. */
  lemma NonBlockingLoanIsIgnored(parse: string -> Calendar.ParsedDate, before: seq<Loan>, l: Loan,
                                 after: seq<Loan>, draft: Loan)
    requires l.libroId != draft.libroId || l.estadoPrestamo !in BlockingStates
    ensures CheckCreate(parse, before + [l] + after, draft) == CheckCreate(parse, before + after, draft)
  {
    AlreadyLentConcat(before + [l], after, draft.libroId);
    AlreadyLentConcat(before, [l], draft.libroId);
    AlreadyLentConcat(before, after, draft.libroId);
    assert !AlreadyLent([l], draft.libroId);
  }

  /** The requesting user plays no part in the decision. */
  lemma RequesterIsIrrelevant(parse: string -> Calendar.ParsedDate, prestamos: seq<Loan>, draft: Loan, usuarioId: string)
    ensures CheckCreate(parse, prestamos, draft.(usuarioId := usuarioId)).RejectDateOrder?
         == CheckCreate(parse, prestamos, draft).RejectDateOrder?
    ensures CheckCreate(parse, prestamos, draft.(usuarioId := usuarioId)).RejectAlreadyLent?
         == CheckCreate(parse, prestamos, draft).RejectAlreadyLent?
  {
  }

  /** At most one loan per book is in a blocking state: the invariant the
      admission check exists to keep. */
  ghost predicate OneActiveLoanPerBook(prestamos: seq<Loan>) {
    forall i, j ::
      (0 <= i < j < |prestamos| && prestamos[i].estadoPrestamo in BlockingStates
       && prestamos[j].estadoPrestamo in BlockingStates)
      ==> prestamos[i].libroId != prestamos[j].libroId
  }

  /** Storing what the check lets through, whatever state the draft carries,
      keeps at most one blocking loan per book. */
  lemma AdmissionKeepsOneActiveLoanPerBook(parse: string -> Calendar.ParsedDate, prestamos: seq<Loan>, draft: Loan)
    requires OneActiveLoanPerBook(prestamos)
    requires CheckCreate(parse, prestamos, draft).Submit?
    ensures OneActiveLoanPerBook(prestamos + [CheckCreate(parse, prestamos, draft).body])
  {
  }

  /** Returning the one loan that blocked a book reopens it: a draft for that
      book with a valid date range is then submitted. */
  lemma ReturnReopensBook(parse: string -> Calendar.ParsedDate, prestamos: seq<Loan>, k: nat, draft: Loan,
                          lent: Calendar.ValidDate, due: Calendar.ValidDate)
    requires k < |prestamos|
    requires forall i :: 0 <= i < |prestamos| && i != k ==> !Blocks(prestamos[i], draft.libroId)
    requires parse(draft.fechaPrestamo) == Some(lent)
    requires parse(draft.fechaDevolucion) == Some(due)
    requires Calendar.Before(lent, due)
    ensures CheckCreate(parse, prestamos[k := prestamos[k].(estadoPrestamo := Returned)], draft) == Submit(draft)
  {
    Calendar.NotAfterIsLexicographic(Some(due), Some(lent));
    var updated := prestamos[k := prestamos[k].(estadoPrestamo := Returned)];
    assert !SomeLoanBlocks(updated, draft.libroId) by {
      forall i | 0 <= i < |updated| ensures !Blocks(updated[i], draft.libroId) {
        if i == k {
          assert updated[i].estadoPrestamo == Returned;
        } else {
          assert updated[i] == prestamos[i];
        }
      }
    }
  }

  /** Two loans of one book in a row: the first is submitted, the second is
      refused while the first is active, and a loan whose return date
      precedes its loan date is refused on the dates alone. */
  lemma LoanScenarios()
    ensures
      var parse := (s: string) =>
        if s == "2025-02-01" then Some(Calendar.CalendarDate(2025, 2, 1))
        else if s == "2025-02-15" then Some(Calendar.CalendarDate(2025, 2, 15))
        else if s == "2025-02-05" then Some(Calendar.CalendarDate(2025, 2, 5))
        else if s == "2025-02-20" then Some(Calendar.CalendarDate(2025, 2, 20))
        else None;
      var first := Loan("1", "A", "2025-02-01", "2025-02-15", "Activo");
      var second := Loan("2", "A", "2025-02-05", "2025-02-20", "Activo");
      && CheckCreate(parse, [], first) == Submit(first)
      && CheckCreate(parse, [first], second) == RejectAlreadyLent
      && CheckCreate(parse, [first], second.(fechaPrestamo := "2025-02-20", fechaDevolucion := "2025-02-15"))
         == RejectDateOrder
  {
  }

  /** The status filter: an empty filter keeps the list; any other value
      keeps the loans in exactly that state. */
  function FilterByState(prestamos: seq<Loan>, filtro: string): (shown: seq<Loan>)
    ensures filtro == "" ==> shown == prestamos
    ensures filtro != "" ==> forall l :: l in shown <==> l in prestamos && l.estadoPrestamo == filtro
  {
    if filtro == "" then prestamos else WithState(prestamos, filtro)
  }

  /** `prestamos.filter(p => p.EstadoPrestamo === estado)`. */
  function WithState(prestamos: seq<Loan>, estado: string): (kept: seq<Loan>)
    ensures |kept| <= |prestamos|
    ensures forall l :: l in kept <==> l in prestamos && l.estadoPrestamo == estado
    decreases |prestamos|
  {
    if |prestamos| == 0 then []
    else
      var rest := WithState(prestamos[1..], estado);
      assert forall l :: l in prestamos <==> l == prestamos[0] || l in prestamos[1..];
      if prestamos[0].estadoPrestamo == estado then [prestamos[0]] + rest else rest
  }

  /** Filtering a concatenation filters each part in place, so the kept loans
      appear in their original order. */
  lemma {:induction false} WithStateConcat(a: seq<Loan>, b: seq<Loan>, estado: string)
    ensures WithState(a + b, estado) == WithState(a, estado) + WithState(b, estado)
    decreases |a|
  {
    if |a| > 0 {
      assert (a + b)[1..] == a[1..] + b;
      assert (a + b)[0] == a[0];
      WithStateConcat(a[1..], b, estado);
    } else {
      assert a + b == b;
    }
  }

  /** The filter keeps the whole list exactly when every loan is in the
      filtered state. */
  lemma {:induction false} WithStateKeepsAllIff(prestamos: seq<Loan>, estado: string)
    ensures WithState(prestamos, estado) == prestamos
        <==> forall i :: 0 <= i < |prestamos| ==> prestamos[i].estadoPrestamo == estado
    decreases |prestamos|
  {
    if |prestamos| > 0 {
      WithStateKeepsAllIff(prestamos[1..], estado);
      if prestamos[0].estadoPrestamo != estado {
        assert |WithState(prestamos, estado)| < |prestamos| by {
          assert WithState(prestamos, estado) == WithState(prestamos[1..], estado);
        }
      } else {
        assert forall i :: 1 <= i < |prestamos| ==> prestamos[i] == prestamos[1..][i - 1];
      }
    }
  }

  /** Applying the same filter again changes nothing. */
  lemma FilterByStateIdempotent(prestamos: seq<Loan>, filtro: string)
    ensures FilterByState(FilterByState(prestamos, filtro), filtro) == FilterByState(prestamos, filtro)
  {
    if filtro != "" {
      var shown := WithState(prestamos, filtro);
      assert forall i :: 0 <= i < |shown| ==> shown[i] in shown;
      WithStateKeepsAllIff(shown, filtro);
    }
  }
}
