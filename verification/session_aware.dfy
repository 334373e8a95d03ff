/** The session-aware web application: an optional session, and the
    anti-forgery check that looks for a request token in the `X-CSRF-Token`
    header or in the request input under the form-token name. The session's
    own token operations and the input `alnum` filter are not part of this
    model: they are given as functions. */
module SessionAware {
  import opened Wrappers
  import Strings

  /** A session object, known by identity. */
  datatype Session = Session(id: nat)

  /** What a session answers: `getToken($forceNew)` and `hasToken($token)`. */
  datatype SessionOps = SessionOps(getToken: (Session, bool) -> string, hasToken: (Session, string) -> bool)

  /** The application state the check reads: the session, the server
      variables and the request input of each request method (`post`, `get`, ...). */
  datatype SessionApp = SessionApp(
    session: Option<Session>,
    server: map<string, string>,
    input: map<string, map<string, string>>)

  /** `getSession`'s `RuntimeException`, and PHP's error for calling a method
      on the missing session (`getFormToken` and `checkToken` use the
      property without the guard). */
  datatype SessionError = SessionNotSet | CallOnNull

  const SessionInterfaceClass := "Joomla\\Session\\SessionInterface"

  function Message(e: SessionError): string
  {
    match e
    case SessionNotSet => "A " + SessionInterfaceClass + " object has not been set."
    case CallOnNull => "Call to a member function getToken() on null"
  }

  /** `getSession`: the session, or the exception when none was set. */
  function GetSession(app: SessionApp): (r: Result<Session, SessionError>)
    ensures r.Success? <==> app.session.Some?
    ensures r.Failure? ==> r.error == SessionNotSet
  {
    match app.session
    case Some(s) => Success(s)
    case None => Failure(SessionNotSet)
  }

  /** `setSession`: stores the session; nothing else changes. */
  function SetSession(app: SessionApp, s: Session): (r: SessionApp)
    ensures r.session == Some(s)
    ensures r.server == app.server && r.input == app.input
  {
    app.(session := Some(s))
  }

  /** After `setSession`, `getSession` returns that same session. */
  lemma SetThenGetSession(app: SessionApp, s: Session)
    ensures GetSession(SetSession(app, s)) == Success(s)
  {
  }

  /** `getFormToken`: the session's token. */
  function GetFormToken(app: SessionApp, ops: SessionOps, forceNew: bool): (r: Result<string, SessionError>)
    ensures r.Success? <==> app.session.Some?
    ensures r.Success? ==> r.value == ops.getToken(app.session.value, forceNew)
  {
    match app.session
    case Some(s) => Success(ops.getToken(s, forceNew))
    case None => Failure(CallOnNull)
  }

  const CsrfHeader := "HTTP_X_CSRF_TOKEN"

  /** The request token: the filtered `X-CSRF-Token` header when it is set,
      else the filtered input value under the form-token name for the
      request method, else the empty string. A default is returned
      unfiltered. */
  function RequestToken(app: SessionApp, alnum: string -> string, requestMethod: string, formToken: string): (t: string)
    ensures CsrfHeader in app.server ==> t == alnum(app.server[CsrfHeader])
    ensures CsrfHeader !in app.server && requestMethod in app.input && formToken in app.input[requestMethod] ==>
              t == alnum(app.input[requestMethod][formToken])
    ensures CsrfHeader !in app.server && !(requestMethod in app.input && formToken in app.input[requestMethod]) ==> t == ""
  {
    var fromInput :=
      if requestMethod in app.input && formToken in app.input[requestMethod] then alnum(app.input[requestMethod][formToken]) else "";
    if CsrfHeader in app.server then alnum(app.server[CsrfHeader]) else fromInput
  }

  /** The outcome of a check: rejected before the session is consulted, or
      the session's answer. */
  datatype TokenCheck = Rejected | Asked(answer: bool)
  {
    /** What `checkToken` returns. */
    predicate Valid()
    {
      Asked? && answer
    }
  }

  /** `checkToken($method)`: an empty or `"0"` request token is rejected
      without consulting the session; otherwise the answer is whether the
      session has its own form token — the submitted value is not compared. */
  function CheckToken(app: SessionApp, ops: SessionOps, alnum: string -> string, requestMethod: string)
    : (r: Result<TokenCheck, SessionError>)
    ensures r.Failure? <==> app.session.None?
    ensures r.Failure? ==> r.error == CallOnNull
    ensures r.Success? ==>
              var s := app.session.value;
              var token := ops.getToken(s, false);
              (r.value.Rejected? <==> Strings.PhpEmpty(RequestToken(app, alnum, requestMethod, token)))
              && (r.value.Asked? ==> r.value.answer == ops.hasToken(s, token))
  {
    var token :- GetFormToken(app, ops, false);
    var requestToken := RequestToken(app, alnum, requestMethod, token);
    if Strings.PhpEmpty(requestToken) then Success(Rejected)
    else Success(Asked(ops.hasToken(app.session.value, token)))
  }

  /** The submitted value only decides whether the session is consulted: two
      requests with non-empty tokens get the same answer, whatever they
      submitted. */
  lemma CheckIgnoresSubmittedValue(app: SessionApp, other: SessionApp, ops: SessionOps,
                                   alnum: string -> string, requestMethod: string)
    requires app.session.Some? && other.session == app.session
    requires var token := ops.getToken(app.session.value, false);
             !Strings.PhpEmpty(RequestToken(app, alnum, requestMethod, token))
             && !Strings.PhpEmpty(RequestToken(other, alnum, requestMethod, token))
    ensures CheckToken(app, ops, alnum, requestMethod) == CheckToken(other, ops, alnum, requestMethod)
  {
  }

  // -----------------------------------------------------------------------
  // The session-aware application tests
  // -----------------------------------------------------------------------

  /** The mocked session: its token is `testing`, and it has exactly that
      token. */
  function TestOps(): SessionOps
  {
    SessionOps((s, forceNew) => "testing", (s, t) => t == "testing")
  }

  /** The tests' three requests: the token in the header, the token in the
      POST body under the form-token name, and no token at all. */
  lemma CheckTokenTestCases(s: Session, alnum: string -> string)
    requires alnum("token") == "token"
    ensures CheckToken(SessionApp(Some(s), map[CsrfHeader := "token"], map[]), TestOps(), alnum, "post")
            == Success(Asked(true))
    ensures CheckToken(SessionApp(Some(s), map[], map["post" := map["testing" := "token"]]), TestOps(), alnum, "post")
            == Success(Asked(true))
    ensures CheckToken(SessionApp(Some(s), map[], map[]), TestOps(), alnum, "post") == Success(Rejected)
  {
    assert !Strings.PhpEmpty("token");
  }

  /** Without a session, `getSession` raises the exception. */
  lemma GetSessionWithoutSession(server: map<string, string>, input: map<string, map<string, string>>)
    ensures GetSession(SessionApp(None, server, input)) == Failure(SessionNotSet)
  {
  }
}
