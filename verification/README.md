# Biblioteca: verified decision rules

Biblioteca is a small library-management application. A React front end lets librarians manage books, categories, users and loans (*préstamos*). An Express API maps each HTTP verb to one SQL statement. `middlewares/auth.js` defines a JWT middleware, and `config/multerConfig.js` defines an upload filter, but the routes in `routes/api.js` mount neither. Almost all of it is CRUD plumbing. This project models the few pure decision rules inside it as total Dafny functions and methods, and proves what those rules promise.

| module | file | models |
|---|---|---|
| `LoanAdmission` | `loan_admission.dfy` | the loan page: the create-time date check, the check that the book is not already lent, and the state filter over the cached loan list |
| `LoanUpdate` | `loan_update.dfy` | the loan edit page: the five-field presence check, and the message chosen for a failed PUT |
| `BookImage` | `book_image.dfy` | the book edit page's image picker: the 5,000,000-byte bound and the `image/` prefix rule, as an update of the (stored image, error) pair |
| `UploadFilter` | `upload_filter.dfy` | the multer file filter configured for uploads (not mounted on any route): `/jpeg|jpg|png/` on the lower-cased extension and on the raw MIME type, and the 2 MiB limit |
| `AuthGate` | `auth_gate.dfy` | the bearer-token middleware: the token is `header.split(" ")[1]`; the outcome is 401, 403, or `next` |
| `Calendar` | `calendar.dfy` | JavaScript date comparison on parsed form dates |
| `Text` | `text.dfy` | `startsWith`, unanchored substring search, ASCII `toLowerCase`, `split`/`join` on one character |
| `Wrappers` | `wrappers.dfy` | `Option` |

Modelling choices:
- `new Date(s)` is a parameter `parse: string -> Option<ValidDate>`. `None` is an Invalid Date.
- Dates are compared as JavaScript compares them: by time value. Here that is a day count. `Calendar.DayNumberOrder` proves this order equals the lexicographic (year, month, day) order. Any comparison with an Invalid Date is false.
- Loan fields are strings, as the form holds them. Book ids are compared with plain equality.
- The token verifier is a parameter `verify: string -> Option<U>`. `None` means the verifier reported an error.
- The server response to a PUT is a parameter. No network is modelled.

The server does not enforce the loan rule. `controllers/prestamos.js:14-25` inserts whatever it receives and answers 201 or 500, never 400. The model follows the code: the rule is a client-side check. Also, the edit path does not re-check the rule. `LoanUpdate.UpdateCanBreakOneActiveLoanPerBook` exhibits an edit that leaves two blocking loans on one book.

The page's image rule and the multer configuration disagree. The page stores any `image/` file of up to 5,000,000 bytes. The multer configuration accepts files up to 2,097,152 bytes, and only if both the extension and the MIME type contain "jpeg", "jpg" or "png" somewhere (so ".pngx" passes). `UploadFilter.ClientAcceptsWhatUploadConfigRejects` states both gaps.

## Model

| member | source | states |
|---|---|---|
| `LoanAdmission.CheckCreate` | Biblioteca_Api/src/components/Prestamos.tsx:66-91 | rejects on dates exactly when the return date is not after the loan date, that is when `Calendar.NotAfter` (JavaScript `<=` on two parsed dates, false if either is invalid) holds; rejects as already lent exactly when the dates pass and some cached loan of the same book is Activo, Pendiente or Atrasado; otherwise submits the draft unchanged |
| `LoanAdmission.AlreadyLent` | Biblioteca_Api/src/components/Prestamos.tsx:74-79 | the `some` scan is true exactly when some cached loan has the draft's book id and a blocking state |
| `LoanAdmission.DateOrderRejects` | Biblioteca_Api/src/components/Prestamos.tsx:68-71 | a return date on or before the loan date gives the date alert and no submission, whatever the cached list holds, so the date check runs first |
| `LoanAdmission.DateOrderAccepts` | Biblioteca_Api/src/components/Prestamos.tsx:68 | a return date strictly after the loan date never gives the date alert |
| `LoanAdmission.InvalidDateSkipsDateCheck` | Biblioteca_Api/src/components/Prestamos.tsx:68 | with an empty or unparseable date the comparison is false and the date check does not reject |
| `LoanAdmission.AlreadyLentConcat` | Biblioteca_Api/src/components/Prestamos.tsx:74-79 | the scan over a concatenated list is the disjunction of the scans over its parts |
| `LoanAdmission.NonBlockingLoanIsIgnored` | Biblioteca_Api/src/components/Prestamos.tsx:74-79 | inserting a loan of another book, or of a state outside the blocking three ("Devuelto" and "" included), anywhere in the cached list leaves the decision unchanged |
| `LoanAdmission.RequesterIsIrrelevant` | Biblioteca_Api/src/components/Prestamos.tsx:74-79 | changing the requesting user changes neither rejection |
| `LoanAdmission.AdmissionKeepsOneActiveLoanPerBook` | Biblioteca_Api/src/components/Prestamos.tsx:73-91 | if the list has at most one blocking loan per book, adding a submitted draft keeps that true, whatever state the draft carries |
| `LoanAdmission.ReturnReopensBook` | Biblioteca_Api/src/components/Prestamos.tsx:74-91 | once the only blocking loan of a book is set to "Devuelto", a draft for that book with a valid date range is submitted |
| `LoanAdmission.LoanScenarios` | Biblioteca_Api/src/components/Prestamos.tsx:66-91 | a first loan of a book is submitted; a second overlapping loan of it is refused as already lent; a reversed date range is refused on dates |
| `LoanAdmission.FilterByState` | Biblioteca_Api/src/components/Prestamos.tsx:108-111 | an empty filter shows the whole list; any other filter shows exactly the loans in that state |
| `LoanAdmission.WithState` | Biblioteca_Api/src/components/Prestamos.tsx:110 | the kept loans are exactly those of the list in the given state, and there are never more of them than in the list |
| `LoanAdmission.WithStateConcat` | Biblioteca_Api/src/components/Prestamos.tsx:110 | filtering distributes over concatenation, so kept loans keep their original order |
| `LoanAdmission.WithStateKeepsAllIff` | Biblioteca_Api/src/components/Prestamos.tsx:110 | the filter returns the whole list exactly when every loan is in the filtered state |
| `LoanAdmission.FilterByStateIdempotent` | Biblioteca_Api/src/components/Prestamos.tsx:109-111 | filtering an already filtered list again changes nothing |
| `Calendar.DayNumberOrder` | Biblioteca_Api/src/components/Prestamos.tsx:68 | comparing valid dates by day count, as Date objects compare by time value, is the lexicographic (year, month, day) order |
| `Calendar.NotAfterIsLexicographic` | Biblioteca_Api/src/components/Prestamos.tsx:68 | `a <= b` on parsed dates holds exactly when both are valid and `b` is not strictly earlier than `a` |
| `LoanUpdate.ValidateUpdate` | Biblioteca_Api/src/components/ActualizarPrestamos.tsx:64-75 | the loan is sent unchanged exactly when all five fields are non-empty; otherwise the error is "Todos los campos son obligatorios." |
| `LoanUpdate.FailureMessage` | Biblioteca_Api/src/components/ActualizarPrestamos.tsx:77-82 | a 400 response gives the check-your-data message, and every other failure gives the try-again message |
| `LoanUpdate.HandleUpdate` | Biblioteca_Api/src/components/ActualizarPrestamos.tsx:64-83 | a missing field sets the error and sends nothing; otherwise the loan is sent; success navigates and leaves the error unchanged; failure stays on the page with the mapped message |
| `LoanUpdate.UpdateSkipsAdmissionRules` | Biblioteca_Api/src/components/ActualizarPrestamos.tsx:64-75 | a loan with reversed dates whose book is held by another loan is still sent, while the create check would refuse it |
| `LoanUpdate.UpdateCanBreakOneActiveLoanPerBook` | Biblioteca_Api/src/components/ActualizarPrestamos.tsx:64-75 | an accepted edit can leave two blocking loans on one book |
| `LoanUpdate.EditCanBreakOneActiveLoanPerBook` | Biblioteca_Api/src/components/ActualizarPrestamos.tsx:64-75 | for any list in which one loan blocks a book and another loan of that book does not, setting the other loan to "Activo" (with its fields filled in) is sent, and leaves two blocking loans on the book |
| `BookImage.HandleImageChange` | Biblioteca_Api/src/components/ActualizarLibro.tsx:64-77 | no file leaves the form unchanged; a file over 5,000,000 bytes sets the size error and keeps the image, and so does an oversized non-image; a non-image within the bound sets the type error and keeps the image; an acceptable file is stored and the error cleared |
| `BookImage.StoredImageStaysAcceptable` | Biblioteca_Api/src/components/ActualizarLibro.tsx:64-77 | after any sequence of choices, the stored image is within the bound and has an `image/` type |
| `BookImage.HandleImageChangeIdempotent` | Biblioteca_Api/src/components/ActualizarLibro.tsx:64-77 | choosing the same files twice has the effect of choosing them once |
| `BookImage.ExactLimitAccepted` | Biblioteca_Api/src/components/ActualizarLibro.tsx:68 | a 5,000,000-byte image is stored, because the bound is a strict `>` |
| `UploadFilter.TestAllowed` | config/multerConfig.js:26-28 | the left-to-right scan finds a match exactly when "jpeg", "jpg" or "png" occurs somewhere in the string |
| `UploadFilter.FileFilter` | config/multerConfig.js:25-35 | the file is accepted exactly when the lower-cased extension and the raw MIME type both match; otherwise the callback gets the JPG/JPEG/PNG error |
| `UploadFilter.ExtensionCaseIgnored` | config/multerConfig.js:27 | an extension is admitted exactly when its lower-cased form is |
| `UploadFilter.PatternExamples` | config/multerConfig.js:26-28 | ".pngx" and ".PNG" pass the extension test; "image/jpeg" passes the MIME test; "image/PNG" fails it |
| `UploadFilter.ClientAcceptsWhatUploadConfigRejects` | config/multerConfig.js:25-42 | the configured limit is 2,097,152 bytes; a 2,097,153-byte PNG passes the page's rule but not the configured limit; a GIF passes the page's rule but not the filter |
| `AuthGate.TokenOf` | middlewares/auth.js:6 | `authHeader && authHeader.split(" ")[1]`: no header gives no token; an empty header gives ""; a token never contains a space; a non-empty token needs a space in the header |
| `AuthGate.Authenticate` | middlewares/auth.js:4-19 | 401 exactly when `AuthGate.NoToken` holds (`!token`: absent or empty), with "Acceso denegado. Token no proporcionado."; 403 exactly when a token is present and the verifier fails, with "Token inválido o expirado."; otherwise no response is written and `next` is called once, with the verifier's user attached |
| `AuthGate.NoTokenNeverVerifies` | middlewares/auth.js:5-10 | without a token the outcome is 401 whatever the verifier would answer |
| `AuthGate.TokenShape` | middlewares/auth.js:6-9 | a header yields a non-empty token `t` exactly when it is a space-free word, one space, then `t` (space-free), then nothing or a space; the first word is not checked |
| `AuthGate.TokenOfShape` | middlewares/auth.js:6 | a header of that shape yields its second word as the token |
| `AuthGate.TokenExamples` | middlewares/auth.js:6 | "Bearer abc", "Basic abc" and "Bearer abc def" all yield "abc" |
| `AuthGate.EmptySecondWord` | middlewares/auth.js:6-9 | a space-free word, a space, then nothing or another space yields the empty token |
| `AuthGate.MissingTokenExamples` | middlewares/auth.js:5-10 | a missing header, "Bearer", "Bearer " and "Bearer  abc" all get 401 |
| `Text.Split` | middlewares/auth.js:6 | `split(" ")` gives at least one piece; no piece contains the separator; more than one piece only if the string contains the separator |
| `Text.JoinSplit` | middlewares/auth.js:6 | joining the pieces with the separator restores the header |

## Left out

- React rendering, hooks, navigation, `alert`, `window.confirm` and `localStorage` are left out. So are all axios calls. Only the decisions they guard are modelled.
- The reset of the draft after a successful POST, and the list re-fetch, are left out. Both follow a network call.
- JavaScript `Date` parsing is left out. It is the `parse` parameter. Years are natural numbers, so dates before year 0 are not modelled.
- ID type coercion is left out. Ids are strings compared with plain equality. In the source, the `<select>` value is a string and the API value may be a number. `===` between them is not modelled.
- Field truthiness is modelled for strings only: `!x` holds exactly for `""`. An edit page loaded from the API may hold numeric ids, where `0` would be falsy. That case is not modelled.
- `toLowerCase` is modelled for ASCII A–Z only. No other character lowers to one of the letters in "jpeg", "jpg" or "png", so the filter's verdict does not depend on this.
- `path.extname` is left out. The extension is an input string. Multer disk storage and the `Date.now()` file name are also left out.
- How the middleware and the upload filter are wired is left out. `app.js` and `routes/api.js` mount neither, so no route is guarded and no upload reaches the filter. The model covers what each would decide if mounted.
- The token verifier and its secret are an oracle. Token signing, bcrypt and the login controller are left out.
- The SQL controllers and their 404 outcome are left out. Their outcome depends on the database's `affectedRows`.
- The race between the client-side check and the server insert is left out. It is asynchronous and concurrent.
- A null file list is modelled as the empty sequence. The image handler treats both alike.
