/** Logging in: what a login leaves behind, and when a run of operations is logged in, stated over
    operations, requests and responses only. */
module Logins {
  import opened Bytes
  import opened Cookies
  import opened Http
  import opened Session
  import opened Numbers
  import opened UrlForm
  import opened LoginPage
  import opened LoginTokens
  import opened FormPage
  import opened LoginForms
  import opened StatusPage
  import opened DeviceTable
  import opened Protocol

  // ---- One login ----

  lemma {:induction false} EndsAccepted(s: State, es: seq<Event>)
    requires es != [] && es[|es| - 1] == Accepted
    ensures ReplayFrom(s, es).loggedIn
  {
  }

  lemma {:induction false} EndsFollowed(s: State, es: seq<Event>)
    requires |es| >= 2 && es[|es| - 2] == Accepted && es[|es| - 1].Sent?
    ensures ReplayFrom(s, es).loggedIn <==> !SaysExpired(es[|es| - 1].response)
  {
    ExpiredMeaning(es[|es| - 1].response);
    EndsAccepted(s, es[..|es| - 1]);
  }

  lemma {:induction false} EndsRejected(s: State, es: seq<Event>)
    requires es != [] && es[|es| - 1] == Rejected
    ensures !ReplayFrom(s, es).loggedIn
  {
  }

  /** The stages of a login that contacted the router. */
  lemma {:induction false} LoginStages(env: Setup, s: State, username: ByteString, password: ByteString,
                                       es: seq<Event>, out: Outcome)
    requires LoginCall(env, s, username, password, es, out)
    ensures es == [] <==> out == Failure(CredentialsRequired)
    ensures |es| != 1
    ensures |es| == 2 ==> out == Failure(LoginPageFailed) && es[1] == Rejected
    ensures |es| >= 3 ==>
            es[0].Sent? && es[1].Sent? && LoginVerdict(env, Apply(Apply(s, es[0]), es[1]), es[1].response, es[2..], out)
  {
    if |es| >= 3 { VerdictShape(env, Apply(Apply(s, es[0]), es[1]), es[1].response, es[2..], out); }
  }

  lemma {:induction false} VerdictEnds(env: Setup, before: State, r: Response, es: seq<Event>, out: Outcome)
    requires |es| >= 3 && LoginVerdict(env, before, r, es[2..], out)
    ensures 3 <= |es| <= 4
    ensures out == Success <==> r.error == [] && SaysAccepted(r)
    ensures out == if r.error != [] then Failure(LoginRequestFailed)
                   else if !SaysAccepted(r) then Failure(LoginRefused(r.statusCode)) else Success
    ensures out == Success ==> (Followed(r) <==> |es| == 4)
    ensures |es| == 4 ==> es[2] == Accepted && es[3].Sent? && es[3].request.verb == Get
    ensures |es| == 3 ==> es[2] == if out == Success then Accepted else Rejected
    ensures out.Failure? ==> |es| == 3
  {
    AcceptsMeaning(r);
    assert es[2] == es[2..][0];
    assert |es| == 4 ==> es[3] == es[2..][1];
  }

  /** Any page, any reply and a verdict on it make up a login. */
  lemma {:induction false} LoginCallFrom(env: Setup, s: State, username: ByteString, password: ByteString,
                                         nonce: nat, page: Response, reply: Response, rest: seq<Event>,
                                         out: Outcome)
    requires username != [] && password != [] && IsNonce(nonce) && page.error == [] && rest != []
    requires var e0 := Sent(GetRequest(env, s.cookies, "/"), page); var s1 := Apply(s, e0);
             var request := LoginRequest(env, s1.cookies, username, password, nonce, page.body);
             LoginVerdict(env, Apply(s1, Sent(request, reply)), reply, rest, out)
    ensures var e0 := Sent(GetRequest(env, s.cookies, "/"), page); var s1 := Apply(s, e0);
            var request := LoginRequest(env, s1.cookies, username, password, nonce, page.body);
            LoginCall(env, s, username, password, [e0, Sent(request, reply)] + rest, out)
  {
    var e0 := Sent(GetRequest(env, s.cookies, "/"), page);
    var e1 := Sent(LoginRequest(env, Apply(s, e0).cookies, username, password, nonce, page.body), reply);
    var es := [e0, e1] + rest;
    assert es[2..] == rest && es[0] == e0 && es[1] == e1;
  }

  const MOVED: Response := Response(302, map[LOCATION := []], map[], [], [])
  const REFUSED: Response := Response(401, map[], map[], [], [])

  lemma {:induction false} MovedVerdict(env: Setup, s: State)
    ensures LoginVerdict(env, s, MOVED, [Accepted, Sent(GetRequest(env, s.cookies, []), REFUSED)], Success)
  {
  }

  lemma {:induction false} LoginIsCall(env: Setup, s: State, username: ByteString, password: ByteString,
                                       es: seq<Event>, out: Outcome)
    returns (c: Call)
    requires LoginCall(env, s, username, password, es, out)
    ensures c == Call(Login(username, password), es, Result(out)) && CallOk(env, s, c)
  {
    c := Call(Login(username, password), es, Result(out));
  }

  /** Login can report success and leave the client logged out: accepted credentials with a
      redirect to a page that looks like the login page. */
  lemma {:induction false} LoginSuccessLoggedOut(env: Setup, s: State, username: ByteString,
                                                 password: ByteString)
    returns (c: Call)
    requires username != [] && password != []
    ensures c.op == Login(username, password) && CallOk(env, s, c) && c.answer == Result(Success)
    ensures !ReplayFrom(s, c.events).loggedIn
  {
    var page := Response(200, map[], map[], [], []);
    var e0 := Sent(GetRequest(env, s.cookies, "/"), page);
    var s1 := Apply(s, e0);
    var e1 := Sent(LoginRequest(env, s1.cookies, username, password, 10000000, page.body), MOVED);
    var s2 := Apply(s1, e1);
    var e3 := Sent(GetRequest(env, s2.cookies, []), REFUSED);
    MovedVerdict(env, s2);
    LoginCallFrom(env, s, username, password, 10000000, page, MOVED, [Accepted, e3], Success);
    var es := [e0, e1] + [Accepted, e3];
    EndsFollowed(s, es);
    c := LoginIsCall(env, s, username, password, es, Success);
  }

  /** A login that fails after contacting the router leaves the client logged out. */
  lemma {:induction false} LoginFailureMeaning(env: Setup, s: State, c: Call)
    requires CallOk(env, s, c) && c.op.Login? && c.answer.outcome.Failure?
    ensures c.events == [] <==> c.answer == Result(Failure(CredentialsRequired))
    ensures c.events != [] ==> !ReplayFrom(s, c.events).loggedIn
  {
    var es, out := c.events, c.answer.outcome;
    LoginStages(env, s, c.op.username, c.op.password, es, out);
    if |es| >= 3 { VerdictEnds(env, Apply(Apply(s, es[0]), es[1]), es[1].response, es, out); }
    if es != [] { EndsRejected(s, es); }
  }

  /** These are the fields of a login: the credentials, hashed with some nonce, and whichever of the
      two tokens the page gives. */
  ghost predicate LoginFieldsFrom(env: Setup, op: Op, page: ByteString, posted: seq<Field>)
    requires op.Login?
  {
    exists nonce: nat, loginToken, checkToken ::
      && IsNonce(nonce) && PageGives(page, LOGIN_TOKEN, loginToken) && PageGives(page, CHECK_TOKEN, checkToken)
      && posted == LoginFields(op.username, env.sha256Hex(op.password + Decimal(nonce)), Decimal(nonce),
                               loginToken, checkToken)
  }

  /** What the router decodes from posted credentials. */
  lemma {:induction false} LoginPostMeaning(env: Setup, s: State, c: Call)
    requires CallOk(env, s, c) && c.op.Login? && |c.events| >= 3
    ensures c.events[0].Sent? && c.events[1].Sent? && c.events[1].request.verb == Post
            && c.events[1].request.url == Root(env)
    ensures LoginFieldsFrom(env, c.op, c.events[0].response.body, ParseForm(c.events[1].request.body))
  {
    var es, page := c.events, c.events[0].response.body;
    var s1 := Apply(s, es[0]);
    var nonce: nat :|
      IsNonce(nonce) && es[1].request == LoginRequest(env, s1.cookies, c.op.username, c.op.password, nonce, page);
    LoginRequestMeaning(env, s1.cookies, c.op, nonce, page);
  }

  lemma {:induction false} LoginRequestMeaning(env: Setup, jar: Jar, op: Op, nonce: nat, page: ByteString)
    requires op.Login? && IsNonce(nonce)
    ensures var body := LoginRequest(env, jar, op.username, op.password, nonce, page).body;
            LoginFieldsFrom(env, op, page, ParseForm(body))
  {
    var loginToken, checkToken := PageToken(page, LOGIN_TOKEN), PageToken(page, CHECK_TOKEN);
    PageTokenMeaning(page, LOGIN_TOKEN, loginToken);
    PageTokenMeaning(page, CHECK_TOKEN, checkToken);
    LoginBodyMeaning(op.username, env.sha256Hex(op.password + Decimal(nonce)), Decimal(nonce), loginToken, checkToken);
  }

  lemma {:induction false} GivenOnForm(page: ByteString, lead: ByteString, items: seq<Item>, name: ByteString,
                                       t: ByteString)
    requires IsLoginForm(page, lead, items) && IsName(name) && PageGives(page, name, t)
    ensures t == FirstNoCase(FieldsOf(items), name)
  {
    PageTokenMeaning(page, name, t);
    LoginFormRoundTrip(page, lead, items, name);
  }

  /** From rendered login page to decoded post: the router reads back the page's own tokens. */
  lemma {:induction false} LoginFormPost(env: Setup, s: State, c: Call, lead: ByteString, items: seq<Item>)
    returns (nonce: nat)
    requires CallOk(env, s, c) && c.op.Login? && |c.events| >= 3
    requires c.events[0].Sent? && IsLoginForm(c.events[0].response.body, lead, items)
    ensures IsNonce(nonce) && c.events[1].Sent?
    ensures ParseForm(c.events[1].request.body) ==
            LoginFields(c.op.username, env.sha256Hex(c.op.password + Decimal(nonce)), Decimal(nonce),
                        FirstNoCase(FieldsOf(items), "Frm_Logintoken"),
                        FirstNoCase(FieldsOf(items), "Frm_Loginchecktoken"))
  {
    LoginPostMeaning(env, s, c);
    var page := c.events[0].response.body;
    var a, b;
    nonce, a, b := TokensOf(env, c.op, page, ParseForm(c.events[1].request.body));
    TokenWords();
    GivenOnForm(page, lead, items, LOGIN_TOKEN, a);
    GivenOnForm(page, lead, items, CHECK_TOKEN, b);
  }

  lemma {:induction false} TokensOf(env: Setup, op: Op, page: ByteString, posted: seq<Field>)
    returns (nonce: nat, loginToken: ByteString, checkToken: ByteString)
    requires op.Login? && LoginFieldsFrom(env, op, page, posted)
    ensures IsNonce(nonce) && PageGives(page, LOGIN_TOKEN, loginToken) && PageGives(page, CHECK_TOKEN, checkToken)
    ensures posted == LoginFields(op.username, env.sha256Hex(op.password + Decimal(nonce)), Decimal(nonce),
                                  loginToken, checkToken)
  {
    nonce, loginToken, checkToken :|
      && IsNonce(nonce) && PageGives(page, LOGIN_TOKEN, loginToken) && PageGives(page, CHECK_TOKEN, checkToken)
      && posted == LoginFields(op.username, env.sha256Hex(op.password + Decimal(nonce)), Decimal(nonce),
                               loginToken, checkToken);
  }

  const BLANK_PAGE: Response := Response(200, map[], map[], [], [])

  lemma {:induction false} BlankIsAlive()
    ensures !Expired(BLANK_PAGE) && AcceptsLogin(BLANK_PAGE)
  {
    assert |LOGIN_FORM| == 14;
  }

  lemma {:induction false} BlankVerdict(env: Setup, s: State)
    ensures LoginVerdict(env, s, BLANK_PAGE, [Accepted], Success)
  {
    BlankIsAlive();
  }

  /** A login with any page and any reply that earns this verdict in every state. */
  lemma {:induction false} LoginWith(env: Setup, s: State, username: ByteString, password: ByteString,
                                     page: Response, reply: Response, rest: seq<Event>, out: Outcome)
    returns (c: Call)
    requires username != [] && password != [] && page.error == [] && rest != []
    requires forall before :: LoginVerdict(env, before, reply, rest, out)
    ensures c.op == Login(username, password) && CallOk(env, s, c) && c.answer == Result(out)
    ensures |c.events| == 2 + |rest| && c.events[2..] == rest
  {
    var e0 := Sent(GetRequest(env, s.cookies, "/"), page);
    var e1 := Sent(LoginRequest(env, Apply(s, e0).cookies, username, password, 10000000, page.body), reply);
    LoginCallFrom(env, s, username, password, 10000000, page, reply, rest, out);
    c := LoginIsCall(env, s, username, password, [e0, e1] + rest, out);
  }

  /** From any state some server lets a login succeed and stay. */
  lemma {:induction false} LoginSucceeds(env: Setup, s: State, username: ByteString, password: ByteString)
    returns (c: Call)
    requires username != [] && password != []
    ensures c.op == Login(username, password) && CallOk(env, s, c) && c.answer == Result(Success)
    ensures ReplayFrom(s, c.events).loggedIn
  {
    forall before ensures LoginVerdict(env, before, BLANK_PAGE, [Accepted], Success) { BlankVerdict(env, before); }
    c := LoginWith(env, s, username, password, BLANK_PAGE, BLANK_PAGE, [Accepted], Success);
    assert c.events[2..][0] == c.events[2];
    EndsAccepted(s, c.events);
  }

  // ---- What the messages of a call say ----

  /** The requests of a call and what came back. */
  ghost function Wire(c: Call): seq<Exchange> {
    WireOf(c.events)
  }

  ghost predicate AcceptedPost(x: Exchange) {
    x.response.error == [] && SaysAccepted(x.response)
  }

  /** A login whose second message, the posted credentials, was accepted. */
  ghost predicate LogsIn(c: Call) {
    c.op.Login? && |Wire(c)| >= 2 && AcceptedPost(Wire(c)[1])
  }

  /** A login that contacted the router and was not accepted. */
  ghost predicate LoginFails(c: Call) {
    c.op.Login? && Wire(c) != [] && !LogsIn(c)
  }

  ghost predicate SomeExpired(c: Call) {
    exists k :: 0 <= k < |Wire(c)| && SaysExpired(Wire(c)[k].response)
  }

  /** No earlier login survives the call. */
  ghost predicate EndsLogin(c: Call) {
    c.op.Logout? || LoginFails(c) || SomeExpired(c)
  }

  /** The login survives its own call: the page it was redirected to, if any, has not expired. */
  ghost predicate StaysIn(c: Call) {
    LogsIn(c) && (|Wire(c)| >= 3 ==> !SaysExpired(Wire(c)[2].response))
  }

  /** Some login stayed in, and no later operation ended it. */
  ghost predicate AliveAfter(run: seq<Call>) {
    exists m :: StayedIn(run, m)
  }

  ghost predicate StayedIn(run: seq<Call>, m: int) {
    0 <= m < |run| && StaysIn(run[m]) && forall p :: m < p < |run| ==> !EndsLogin(run[p])
  }

  /** The events of a login: nothing, a page that failed, or a page, a post and its verdict. */
  ghost predicate LoginShape(env: Setup, es: seq<Event>) {
    && |es| != 1 && |es| <= 4
    && (|es| >= 2 ==> es[0].Sent? && es[0].request.url == Root(env))
    && (|es| == 2 ==> es[1] == Rejected)
    && (|es| >= 3 ==>
          && es[1].Sent? && es[1].request.url == Root(env) && es[1].request.verb == Post
          && if es[1].response.error == [] && SaysAccepted(es[1].response)
             then es[2] == Accepted && (|es| == 4 ==> es[3].Sent? && es[3].request.verb == Get)
             else |es| == 3 && es[2] == Rejected)
  }

  lemma {:induction false} LoginHasShape(env: Setup, s: State, username: ByteString, password: ByteString,
                                         es: seq<Event>, out: Outcome)
    requires LoginCall(env, s, username, password, es, out)
    ensures LoginShape(env, es)
  {
    LoginStages(env, s, username, password, es, out);
    if |es| >= 3 { VerdictEnds(env, Apply(Apply(s, es[0]), es[1]), es[1].response, es, out); }
  }

  /** The messages of a login, by how many events it took. */
  lemma {:induction false} LoginWire(env: Setup, es: seq<Event>)
    requires LoginShape(env, es)
    ensures es == [] ==> WireOf(es) == []
    ensures |es| == 2 ==> WireOf(es) == MessageOf(es[0])
    ensures |es| == 3 ==> WireOf(es) == MessageOf(es[0]) + MessageOf(es[1])
    ensures |es| == 4 ==> WireOf(es) == MessageOf(es[0]) + MessageOf(es[1]) + MessageOf(es[3])
  {
    Effects(FRESH, es);
  }

  /** When a login stops: at once without credentials, after the page when that failed, and after the
      reply unless it was accepted and redirects, in which case it fetches the page named. */
  lemma {:induction false} LoginStops(env: Setup, s: State, username: ByteString, password: ByteString,
                                      es: seq<Event>, out: Outcome)
    requires LoginCall(env, s, username, password, es, out)
    ensures es == [] <==> username == [] || password == []
    ensures |es| >= 2 ==> es[0].Sent? && (|es| == 2 <==> es[0].response.error != [])
    ensures |es| >= 3 ==> es[1].Sent? && (|es| == 4 <==> es[1].response.error == [] && Followed(es[1].response))
    ensures |es| == 4 ==> es[3].Sent? && es[3].request.verb == Get
                          && es[3].request.url == BaseUrl(env) + es[1].response.headers[LOCATION]
  {
    LoginStages(env, s, username, password, es, out);
    if |es| >= 3 {
      VerdictEnds(env, Apply(Apply(s, es[0]), es[1]), es[1].response, es, out);
      assert |es| == 4 ==> es[3] == es[2..][1];
    }
  }

  /** The answer of a login that posted, in terms of the reply. */
  lemma {:induction false} PostAnswered(env: Setup, s: State, c: Call)
    requires CallOk(env, s, c) && c.op.Login? && |c.events| >= 3
    ensures |Wire(c)| == |c.events| - 1 && c.events[1].Sent? && Wire(c)[1].response == c.events[1].response
    ensures var r := Wire(c)[1].response;
            c.answer == Result(if r.error != [] then Failure(LoginRequestFailed)
                               else if SaysAccepted(r) then Success else Failure(LoginRefused(r.statusCode)))
    ensures c.answer.outcome.Failure? ==> !ReplayFrom(s, c.events).loggedIn
  {
    var es, out := c.events, c.answer.outcome;
    LoginStages(env, s, c.op.username, c.op.password, es, out);
    LoginHasShape(env, s, c.op.username, c.op.password, es, out);
    LoginWire(env, es);
    VerdictEnds(env, Apply(Apply(s, es[0]), es[1]), es[1].response, es, out);
    if out.Failure? { EndsRejected(s, es); }
  }

  /** The answer of a login that did not. */
  lemma {:induction false} NothingPosted(env: Setup, s: State, c: Call)
    requires CallOk(env, s, c) && c.op.Login? && |c.events| < 3
    ensures |Wire(c)| <= 1 && (Wire(c) == [] <==> c.op.username == [] || c.op.password == [])
    ensures Wire(c) == [] ==> c.answer == Result(Failure(CredentialsRequired)) && ReplayFrom(s, c.events) == s
    ensures |Wire(c)| == 1 ==> Wire(c)[0].response.error != [] && c.answer == Result(Failure(LoginPageFailed))
                               && !ReplayFrom(s, c.events).loggedIn
  {
    var es, out := c.events, c.answer.outcome;
    LoginStages(env, s, c.op.username, c.op.password, es, out);
    LoginStops(env, s, c.op.username, c.op.password, es, out);
    LoginHasShape(env, s, c.op.username, c.op.password, es, out);
    LoginWire(env, es);
    if es != [] { EndsRejected(s, es); }
  }

  lemma {:induction false} PageFetched(env: Setup, s: State, c: Call)
    requires CallOk(env, s, c) && c.op.Login? && |c.events| >= 3
    ensures c.op.username != [] && c.op.password != []
    ensures |Wire(c)| >= 2 && Wire(c)[0].response.error == []
  {
    LoginStops(env, s, c.op.username, c.op.password, c.events, c.answer.outcome);
    LoginHasShape(env, s, c.op.username, c.op.password, c.events, c.answer.outcome);
    LoginWire(env, c.events);
  }

  /** What a login answers, read off its messages: nothing is sent exactly when a credential is missing;
      nothing is posted exactly when the page failed; and the reply to the post decides the rest. */
  lemma {:induction false} LoginAnswerMeaning(env: Setup, s: State, c: Call)
    requires CallOk(env, s, c) && c.op.Login?
    ensures |Wire(c)| <= 3 && (Wire(c) == [] <==> c.op.username == [] || c.op.password == [])
    ensures Wire(c) == [] ==> c.answer == Result(Failure(CredentialsRequired)) && ReplayFrom(s, c.events) == s
    ensures Wire(c) != [] ==> (|Wire(c)| == 1 <==> Wire(c)[0].response.error != [])
    ensures |Wire(c)| == 1 ==> c.answer == Result(Failure(LoginPageFailed)) && !ReplayFrom(s, c.events).loggedIn
    ensures |Wire(c)| >= 2 ==>
            var r := Wire(c)[1].response;
            if r.error != [] then
              c.answer == Result(Failure(LoginRequestFailed)) && !ReplayFrom(s, c.events).loggedIn
            else if || r.statusCode == 301 || r.statusCode == 302
                    || (&& r.statusCode == 200
                        && (forall p :: !OccursAt(r.body, "Frm_Logintoken", p))
                        && (forall p :: !OccursAt(r.body, "Username", p)))
            then c.answer == Result(Success)
            else c.answer == Result(Failure(LoginRefused(r.statusCode))) && !ReplayFrom(s, c.events).loggedIn
  {
    if |c.events| < 3 {
      NothingPosted(env, s, c);
    } else {
      PageFetched(env, s, c);
      PostAnswered(env, s, c);
      LoginHasShape(env, s, c.op.username, c.op.password, c.events, c.answer.outcome);
    }
  }

  /** The third message of such events. */
  lemma {:induction false} ThirdMessage(env: Setup, es: seq<Event>)
    requires LoginShape(env, es) && |es| >= 3
    ensures |WireOf(es)| == |es| - 1 && WireOf(es)[1] == Exchange(es[1].request, es[1].response)
    ensures |es| == 4 ==> WireOf(es)[2].request == es[3].request
  {
    LoginWire(env, es);
  }

  /** A login sends a third message exactly when the reply to its post is a redirect with a Location:
      a fetch of the page named there. */
  lemma {:induction false} LoginFollows(env: Setup, s: State, c: Call)
    requires CallOk(env, s, c) && c.op.Login? && |Wire(c)| >= 2
    ensures var r := Wire(c)[1].response;
            |Wire(c)| == 3 <==>
              && r.error == [] && (r.statusCode == 301 || r.statusCode == 302) && "Location" in r.headers
    ensures |Wire(c)| == 3 ==>
            var r, q := Wire(c)[1].response, Wire(c)[2].request;
            "Location" in r.headers && q.verb == Get && q.url == "http://" + env.routerIp + r.headers["Location"]
  {
    LoginStops(env, s, c.op.username, c.op.password, c.events, c.answer.outcome);
    LoginHasShape(env, s, c.op.username, c.op.password, c.events, c.answer.outcome);
    if |c.events| < 3 { LoginWire(env, c.events); } else { ThirdMessage(env, c.events); }
  }

  lemma {:induction false} AcceptedLeaves(env: Setup, s: State, es: seq<Event>)
    requires LoginShape(env, es) && |es| >= 3 && es[2] == Accepted
    ensures |WireOf(es)| >= 2
    ensures ReplayFrom(s, es).loggedIn <==> !(|WireOf(es)| == 3 && SaysExpired(WireOf(es)[2].response))
  {
    LoginWire(env, es);
    if |es| == 4 { EndsFollowed(s, es); } else { EndsAccepted(s, es); }
  }

  lemma {:induction false} SuccessAccepts(env: Setup, s: State, username: ByteString, password: ByteString,
                                          es: seq<Event>)
    requires LoginCall(env, s, username, password, es, Success)
    ensures LoginShape(env, es) && |es| >= 3 && es[2] == Accepted
  {
    LoginStages(env, s, username, password, es, Success);
    LoginHasShape(env, s, username, password, es, Success);
    VerdictEnds(env, Apply(Apply(s, es[0]), es[1]), es[1].response, es, Success);
  }

  /** What a successful login leaves behind: a session that is alive unless the page it was redirected
      to already looked expired. */
  lemma {:induction false} LoginSuccessMeaning(env: Setup, s: State, c: Call)
    requires CallOk(env, s, c) && c.op.Login? && c.answer == Result(Success)
    ensures |Wire(c)| >= 2
    ensures ReplayFrom(s, c.events).loggedIn <==> !(|Wire(c)| == 3 && SaysExpired(Wire(c)[2].response))
  {
    SuccessAccepts(env, s, c.op.username, c.op.password, c.events);
    AcceptedLeaves(env, s, c.events);
  }

  lemma {:induction false} LoginOutcome(env: Setup, s: State, c: Call)
    requires c.op.Login? && LoginShape(env, c.events)
    ensures ReplayFrom(s, c.events).loggedIn <==> StaysIn(c) || (s.loggedIn && !EndsLogin(c))
  {
    var es := c.events;
    LoginWire(env, es);
    if |es| == 4 {
      EndsFollowed(s, es);
      assert Wire(c)[2] == Exchange(es[3].request, es[3].response);
      assert SaysExpired(Wire(c)[2].response) ==> SomeExpired(c);
    } else if |es| == 3 && es[2] == Accepted {
      EndsAccepted(s, es);
    } else if |es| >= 2 {
      EndsRejected(s, es);
    }
  }

  lemma {:induction false} LogoutOutcome(env: Setup, s: State, c: Call)
    requires CallOk(env, s, c) && c.op.Logout?
    ensures !ReplayFrom(s, c.events).loggedIn
  {
    Effects(s, c.events);
  }

  /** The events of a reading or filtering operation: at most two messages, and none unless logged
      in; the first of two has not expired. */
  ghost predicate OtherShape(s: State, es: seq<Event>) {
    && |es| <= 2 && (forall k :: 0 <= k < |es| ==> es[k].Sent?)
    && (es != [] ==> s.loggedIn) && (|es| == 2 ==> !SaysExpired(es[0].response))
  }

  /** At most two messages, none unless logged in, and the second only if the first left the
      session alive. */
  ghost predicate OneOrTwo(s: State, es: seq<Event>) {
    || es == []
    || (s.loggedIn && es[0].Sent? && (|es| == 1 || (|es| == 2 && es[1].Sent? && Apply(s, es[0]).loggedIn)))
  }

  lemma {:induction false} AtMostTwo(s: State, es: seq<Event>)
    requires OneOrTwo(s, es)
    ensures OtherShape(s, es)
  {
    if es != [] { ExpiredMeaning(es[0].response); }
  }

  lemma {:induction false} AclIsOneOrTwo(env: Setup, s: State, op: Op, es: seq<Event>, out: Outcome)
    requires (op.Block? || op.Unblock?) && AclCall(env, s, op, es, out)
    ensures OneOrTwo(s, es)
  {
  }

  lemma {:induction false} InfoIsOneOrTwo(env: Setup, s: State, es: seq<Event>, info: RouterInfo)
    requires InfoCall(env, s, es, info)
    ensures OneOrTwo(s, es)
  {
  }

  lemma {:induction false} DevicesIsOneOrTwo(env: Setup, s: State, es: seq<Event>, list: DeviceList)
    requires DevicesCall(env, s, es, list)
    ensures OneOrTwo(s, es)
  {
  }

  lemma {:induction false} OtherIsOneOrTwo(env: Setup, s: State, c: Call)
    requires CallOk(env, s, c) && !c.op.Login? && !c.op.Logout?
    ensures OneOrTwo(s, c.events)
  {
    match c.op
    case GetRouterInfo => InfoIsOneOrTwo(env, s, c.events, c.answer.info);
    case GetDevices => DevicesIsOneOrTwo(env, s, c.events, c.answer.list);
    case Block(_) => AclIsOneOrTwo(env, s, c.op, c.events, c.answer.outcome);
    case Unblock(_) => AclIsOneOrTwo(env, s, c.op, c.events, c.answer.outcome);
  }

  lemma {:induction false} OtherHasShape(env: Setup, s: State, c: Call)
    requires CallOk(env, s, c) && !c.op.Login? && !c.op.Logout?
    ensures OtherShape(s, c.events)
  {
    OtherIsOneOrTwo(env, s, c);
    AtMostTwo(s, c.events);
  }

  lemma {:induction false} OtherWire(s: State, es: seq<Event>)
    requires OtherShape(s, es)
    ensures |WireOf(es)| == |es|
    ensures forall k :: 0 <= k < |es| ==> WireOf(es)[k] == Exchange(es[k].request, es[k].response)
  {
    Effects(s, es);
  }

  lemma {:induction false} OtherOutcome(s: State, c: Call)
    requires !c.op.Login? && !c.op.Logout? && OtherShape(s, c.events)
    ensures ReplayFrom(s, c.events).loggedIn <==> s.loggedIn && !EndsLogin(c)
  {
    OtherWire(s, c.events);
    Effects(s, c.events);
    forall k | 0 <= k < |c.events|
      ensures Expired(c.events[k].response) <==> SaysExpired(Wire(c)[k].response)
    {
      ExpiredMeaning(c.events[k].response);
    }
    if |c.events| >= 1 { assert SaysExpired(Wire(c)[0].response) ==> SomeExpired(c); }
    if |c.events| == 2 { assert SaysExpired(Wire(c)[1].response) ==> SomeExpired(c); }
  }

  /** What a call does to the login, read off its messages. */
  lemma {:induction false} CallOutcome(env: Setup, s: State, c: Call)
    requires CallOk(env, s, c)
    ensures ReplayFrom(s, c.events).loggedIn <==> StaysIn(c) || (s.loggedIn && !EndsLogin(c))
  {
    if c.op.Login? {
      LoginHasShape(env, s, c.op.username, c.op.password, c.events, c.answer.outcome);
      LoginOutcome(env, s, c);
    } else if c.op.Logout? {
      LogoutOutcome(env, s, c);
    } else {
      OtherHasShape(env, s, c);
      OtherOutcome(s, c);
    }
  }

  // ---- When a run is logged in ----

  lemma {:induction false} AliveSnoc(run: seq<Call>, c: Call)
    ensures AliveAfter(run + [c]) <==> StaysIn(c) || (AliveAfter(run) && !EndsLogin(c))
  {
    var longer := run + [c];
    if StaysIn(c) { assert StayedIn(longer, |run|); }
    if m :| StayedIn(run, m) {
      if !EndsLogin(c) { assert StayedIn(longer, m); }
    }
    if m :| StayedIn(longer, m) {
      if m < |run| {
        assert longer[|run|] == c;
        forall p | m < p < |run| ensures !EndsLogin(run[p]) { assert run[p] == longer[p]; }
        assert StayedIn(run, m);
      }
    }
  }

  ghost predicate OutcomeAt(run: seq<Call>, n: nat)
    requires n < |run|
  {
    var before := Replay(RunLog(run[..n])).loggedIn;
    Replay(RunLog(run[..n + 1])).loggedIn <==> StaysIn(run[n]) || (before && !EndsLogin(run[n]))
  }

  lemma {:induction false} RunOutcome(env: Setup, run: seq<Call>, n: nat)
    requires IsRun(env, run) && n < |run|
    ensures OutcomeAt(run, n)
  {
    RunCall(env, run, n);
    CallOutcome(env, Replay(RunLog(run[..n])), run[n]);
    LogSnoc(run, n);
  }

  lemma {:induction false} LogSnoc(run: seq<Call>, n: nat)
    requires n < |run|
    ensures run[..n + 1] == run[..n] + [run[n]]
    ensures Replay(RunLog(run[..n + 1])) == ReplayFrom(Replay(RunLog(run[..n])), run[n].events)
  {
    assert run[..n + 1][..n] == run[..n];
    ReplayConcat(FRESH, RunLog(run[..n]), run[n].events);
  }

  lemma {:induction false} OutcomeGivesAlive(run: seq<Call>, n: nat)
    requires n < |run| && OutcomeAt(run, n)
    requires Replay(RunLog(run[..n])).loggedIn <==> AliveAfter(run[..n])
    ensures Replay(RunLog(run[..n + 1])).loggedIn <==> AliveAfter(run[..n + 1])
  {
    assert run[..n + 1] == run[..n] + [run[n]];
    AliveSnoc(run[..n], run[n]);
  }

  lemma {:induction false} LoggedInUpTo(env: Setup, run: seq<Call>, n: nat)
    requires IsRun(env, run) && n <= |run|
    ensures Replay(RunLog(run[..n])).loggedIn <==> AliveAfter(run[..n])
  {
    if n > 0 {
      LoggedInUpTo(env, run, n - 1);
      RunOutcome(env, run, n - 1);
      OutcomeGivesAlive(run, n - 1);
    } else {
      assert run[..0] == [];
    }
  }

  /** After every run the client is logged in exactly when some login was accepted, the page it was
      redirected to had not expired, and since then no operation logged out, failed a login or
      met an expired response. */
  lemma {:induction false} LoggedInAfter(env: Setup, run: seq<Call>)
    requires IsRun(env, run)
    ensures Replay(RunLog(run)).loggedIn <==> AliveAfter(run)
  {
    LoggedInUpTo(env, run, |run|);
    assert run[..|run|] == run;
  }

  lemma {:induction false} LoginRequests(env: Setup, c: Call, k: nat)
    requires c.op.Login? && LoginShape(env, c.events) && k < |Wire(c)|
    ensures k < 2 ==> Wire(c)[k].request.url == Root(env)
    ensures k >= 2 ==> k == 2 && LogsIn(c)
  {
    LoginWire(env, c.events);
  }

  lemma {:induction false} OtherRequests(env: Setup, s: State, c: Call, k: nat)
    requires CallOk(env, s, c) && !c.op.Login? && k < |Wire(c)|
    ensures s.loggedIn && forall j :: 0 <= j < k ==> !SaysExpired(Wire(c)[j].response)
  {
    if c.op.Logout? {
      Effects(s, c.events);
    } else {
      OtherHasShape(env, s, c);
      OtherWire(s, c.events);
    }
  }

  /** Only a login sends anything without a live login: its first two messages, to the root page.
      Its third follows an accepted post, and every message of another operation goes out while
      the login is alive. */
  lemma {:induction false} RequestsWhileAlive(env: Setup, run: seq<Call>, n: nat, k: nat)
    requires IsRun(env, run) && n < |run| && k < |Wire(run[n])|
    ensures run[n].op.Login? ==>
              (k < 2 ==> Wire(run[n])[k].request.url == Root(env)) && (k >= 2 ==> k == 2 && LogsIn(run[n]))
    ensures !run[n].op.Login? ==>
              AliveAfter(run[..n]) && forall j :: 0 <= j < k ==> !SaysExpired(Wire(run[n])[j].response)
  {
    RunCall(env, run, n);
    LoggedInUpTo(env, run, n);
    if run[n].op.Login? {
      LoginHasShape(env, Replay(RunLog(run[..n])), run[n].op.username, run[n].op.password, run[n].events,
                    run[n].answer.outcome);
      LoginRequests(env, run[n], k);
    } else {
      OtherRequests(env, Replay(RunLog(run[..n])), run[n], k);
    }
  }

  // ---- The decision events ----

  /** A login holds the event Accepted exactly when its messages show an accepted post, and
      Rejected exactly when they show a login that failed. */
  lemma {:induction false} LoginDecisions(env: Setup, s: State, c: Call)
    requires CallOk(env, s, c) && c.op.Login?
    ensures Accepted in c.events <==> LogsIn(c)
    ensures Rejected in c.events <==> LoginFails(c)
  {
    LoginHasShape(env, s, c.op.username, c.op.password, c.events, c.answer.outcome);
    ShapeDecides(env, c);
  }

  lemma {:induction false} ShapeDecides(env: Setup, c: Call)
    requires c.op.Login? && LoginShape(env, c.events)
    ensures Accepted in c.events <==> LogsIn(c)
    ensures Rejected in c.events <==> LoginFails(c)
  {
    LoginWire(env, c.events);
    var es := c.events;
    if |es| >= 2 { assert es[1] in es; }
    if |es| >= 3 { assert es[2] in es; }
  }

  ghost predicate IsLoginPost(env: Setup, e: Event) {
    e.Sent? && e.request.verb == Post && e.request.url == Root(env) && e.response.error == []
      && SaysAccepted(e.response)
  }

  lemma {:induction false} ShapeAccepts(env: Setup, es: seq<Event>, k: nat)
    requires LoginShape(env, es) && k < |es| && es[k].Accepted?
    ensures k == 2 && IsLoginPost(env, es[1])
  {
  }

  lemma {:induction false} OthersDoNotAccept(env: Setup, s: State, c: Call, k: nat)
    requires CallOk(env, s, c) && !c.op.Login? && k < |c.events|
    ensures !c.events[k].Accepted?
  {
    if !c.op.Logout? { OtherHasShape(env, s, c); }
  }

  lemma {:induction false} CallAccepts(env: Setup, s: State, c: Call, k: nat)
    requires CallOk(env, s, c) && k < |c.events| && c.events[k].Accepted?
    ensures k == 2 && IsLoginPost(env, c.events[1])
  {
    if c.op.Login? {
      LoginHasShape(env, s, c.op.username, c.op.password, c.events, c.answer.outcome);
      ShapeAccepts(env, c.events, k);
    } else {
      OthersDoNotAccept(env, s, c, k);
    }
  }

  /** Where an event of a run's log belongs. */
  lemma {:induction false} LogPosition(run: seq<Call>, j: nat) returns (n: nat, k: nat)
    requires j < |RunLog(run)|
    ensures n < |run| && k < |run[n].events| && RunLog(run)[j] == run[n].events[k]
    ensures 0 < k <= j ==> RunLog(run)[j - 1] == run[n].events[k - 1]
    ensures k <= j
  {
    var init, last := run[..|run| - 1], run[|run| - 1];
    if j < |RunLog(init)| {
      n, k := LogPosition(init, j);
      assert run[n] == init[n];
    } else {
      n, k := |run| - 1, j - |RunLog(init)|;
    }
  }

  /** In every run the event Accepted comes only right after a post to the root page that was
      answered without error and accepted. */
  lemma {:induction false} AcceptedFollowsPost(env: Setup, run: seq<Call>, j: nat)
    requires IsRun(env, run) && j < |RunLog(run)| && RunLog(run)[j].Accepted?
    ensures j > 0 && IsLoginPost(env, RunLog(run)[j - 1])
  {
    var n, k := LogPosition(run, j);
    RunCall(env, run, n);
    CallAccepts(env, Replay(RunLog(run[..n])), run[n], k);
  }
}
