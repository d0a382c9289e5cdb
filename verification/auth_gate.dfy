/** The bearer-token middleware meant for protected routes (no route mounts
    it): it takes
    the second space-separated word of the Authorization header as the token,
    answers 401 when there is none, 403 when the verifier refuses it, and
    otherwise attaches the decoded user and passes the request on. The token
    verifier is an oracle. */
module AuthGate {
  import opened Wrappers
  import opened Text

  const UnauthorizedStatus: nat := 401
  const ForbiddenStatus: nat := 403
  const MissingTokenMessage: string := "Acceso denegado. Token no proporcionado."
  const InvalidTokenMessage: string := "Token inválido o expirado."

  /** `authHeader && authHeader.split(" ")[1]`: an absent header stays
      absent, an empty header yields the empty string, and a header with no
      space has no second piece. */
  function TokenOf(authHeader: Option<string>): (token: Option<string>)
    ensures authHeader.None? ==> token.None?
    ensures authHeader == Some("") ==> token == Some("")
    ensures token.Some? ==> authHeader.Some? && ' ' !in token.value
    ensures token.Some? && token.value != "" ==> ' ' in authHeader.value
  {
    match authHeader
    case None => None
    case Some(h) =>
      if h == "" then Some("")
      else
        var parts := Split(h, ' ');
        if |parts| < 2 then None else Some(parts[1])
  }

  /** `!token`: the token is undefined or the empty string. */
  predicate NoToken(token: Option<string>) {
    token.None? || token.value == ""
  }

  /** How the middleware ends: a 401 or 403 response, or a call to `next`
      with `user` attached to the request. */
  datatype AuthOutcome<U> = Unauthorized | Forbidden | Proceed(user: U)

  /** The status of the response the middleware writes; None when it hands
      over to the next handler instead. */
  function StatusOf<U>(o: AuthOutcome<U>): Option<nat> {
    match o
    case Unauthorized => Some(UnauthorizedStatus)
    case Forbidden => Some(ForbiddenStatus)
    case Proceed(_) => None
  }

  /** The `message` of the JSON body the middleware writes; None when it
      hands over to the next handler instead. */
  function MessageOf<U>(o: AuthOutcome<U>): Option<string> {
    match o
    case Unauthorized => Some(MissingTokenMessage)
    case Forbidden => Some(InvalidTokenMessage)
    case Proceed(_) => None
  }

  /** How many times the middleware calls `next`. */
  function NextCalls<U>(o: AuthOutcome<U>): nat {
    if o.Proceed? then 1 else 0
  }

  /** The middleware; `verify` stands for the token verifier with the
      server's secret, None meaning it reported an error. */
  function Authenticate<U>(authHeader: Option<string>, verify: string -> Option<U>): (o: AuthOutcome<U>)
    ensures StatusOf(o) == Some(401) <==> NoToken(TokenOf(authHeader))
    ensures StatusOf(o) == Some(401) ==> MessageOf(o) == Some("Acceso denegado. Token no proporcionado.")
    ensures StatusOf(o) == Some(403) ==> MessageOf(o) == Some("Token inválido o expirado.")
    ensures NextCalls(o) == 1 <==> MessageOf(o).None?
    ensures StatusOf(o) == Some(403) <==> !NoToken(TokenOf(authHeader)) && verify(TokenOf(authHeader).value).None?
    ensures NextCalls(o) == 1 <==> !NoToken(TokenOf(authHeader)) && verify(TokenOf(authHeader).value).Some?
    ensures o.Proceed? ==> Some(o.user) == verify(TokenOf(authHeader).value)
  {
    var token := TokenOf(authHeader);
    if NoToken(token) then Unauthorized
    else
      match verify(token.value)
      case None => Forbidden
      case Some(user) => Proceed(user)
  }

  /** Without a token the answer is 401 whatever the verifier would say: it
      is never consulted. */
  lemma NoTokenNeverVerifies<U>(authHeader: Option<string>, verify1: string -> Option<U>, verify2: string -> Option<U>)
    requires NoToken(TokenOf(authHeader))
    ensures Authenticate(authHeader, verify1) == Authenticate(authHeader, verify2) == Unauthorized
  {
  }

  /** A header has a usable token `t` when it is some space-free word, one
      space, `t` itself free of spaces, and then nothing or a space. */
  ghost predicate HeaderShape(h: string, w: string, t: string, rest: string) {
    && ' ' !in w
    && ' ' !in t
    && t != ""
    && (rest == [] || rest[0] == ' ')
    && h == w + " " + t + rest
  }

  /** The headers that get past the 401 check, and the token they carry,
      are exactly those of the shape above; the first word is not looked at. */
  lemma TokenShape(h: string, t: string)
    ensures (TokenOf(Some(h)) == Some(t) && t != "") <==> exists w, rest :: HeaderShape(h, w, t, rest)
  {
    if TokenOf(Some(h)) == Some(t) && t != "" {
      var parts := Split(h, ' ');
      assert h != "";
      JoinSplit(h, ' ');
      var w := parts[0];
      var rest: string := if |parts| == 2 then "" else " " + Join(parts[2..], ' ');
      assert parts[1..][1..] == parts[2..];
      assert Join(parts[1..], ' ') == t + rest;
      assert h == w + " " + t + rest;
      assert HeaderShape(h, w, t, rest);
    }
    if exists w, rest :: HeaderShape(h, w, t, rest) {
      var w, rest :| HeaderShape(h, w, t, rest);
      TokenOfShape(w, t, rest);
    }
  }

  /** A header of the shape above yields its second word as the token. */
  lemma TokenOfShape(w: string, t: string, rest: string)
    requires ' ' !in w && ' ' !in t
    requires rest == [] || rest[0] == ' '
    ensures TokenOf(Some(w + " " + t + rest)) == Some(t)
  {
    SplitAfterWord(w, ' ', t + rest);
    SplitFirstPiece(t, ' ', rest);
    assert w + " " + t + rest == w + [' '] + (t + rest);
  }

  /** The token is the second word, whatever the first word says and
      whatever follows it. */
  lemma TokenExamples()
    ensures TokenOf(Some("Bearer abc")) == Some("abc")
    ensures TokenOf(Some("Basic abc")) == Some("abc")
    ensures TokenOf(Some("Bearer abc def")) == Some("abc")
  {
    TokenOfShape("Bearer", "abc", "");
    assert "Bearer" + " " + "abc" + "" == "Bearer abc";
    TokenOfShape("Basic", "abc", "");
    assert "Basic" + " " + "abc" + "" == "Basic abc";
    TokenOfShape("Bearer", "abc", " def");
    assert "Bearer" + " " + "abc" + " def" == "Bearer abc def";
  }

  /** A separator-free word followed by a space and then nothing or another
      space yields the empty token. */
  lemma EmptySecondWord(w: string, rest: string)
    requires ' ' !in w
    requires rest == [] || rest[0] == ' '
    ensures TokenOf(Some(w + " " + rest)) == Some("")
  {
    assert w + " " + rest == w + [' '] + rest;
    SplitAfterWord(w, ' ', rest);
    SplitFirstPiece("", ' ', rest);
    assert "" + rest == rest;
  }

  /** A header with no space, a trailing space or a doubled space carries no
      usable token and is answered with 401, as is a missing header. */
  lemma MissingTokenExamples<U>(verify: string -> Option<U>)
    ensures Authenticate(None, verify) == Unauthorized
    ensures Authenticate(Some("Bearer"), verify) == Unauthorized
    ensures Authenticate(Some("Bearer "), verify) == Unauthorized
    ensures Authenticate(Some("Bearer  abc"), verify) == Unauthorized
  {
    assert ' ' !in "Bearer";
    EmptySecondWord("Bearer", "");
    assert "Bearer" + " " + "" == "Bearer ";
    EmptySecondWord("Bearer", " abc");
    assert "Bearer" + " " + " abc" == "Bearer  abc";
  }
}
