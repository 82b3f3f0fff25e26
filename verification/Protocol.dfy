/** What each operation of the router client may send, decide and answer, and what follows
    for every run of operations against every server. */
module Protocol {
  import opened Bytes
  import opened Numbers
  import opened Cookies
  import opened Http
  import opened Session
  import opened UrlForm
  import opened FormPatterns
  import opened LoginPage
  import opened StatusPage
  import opened DeviceTable
  import opened Acl

  /** The router's address and the hash function, neither of which ever changes. */
  datatype Setup = Setup(routerIp: ByteString, sha256Hex: ByteString -> ByteString)

  datatype Reason =
    | CredentialsRequired | LoginPageFailed | LoginRequestFailed | LoginRefused(status: int)
    | MacRequired | NotLoggedIn
    | ExpiredOnFetch | FetchFailed | FetchStatus(status: int)
    | TokenMissing | RowMissing
    | ExpiredOnPost | PostFailed | PostStatus(status: int)

  datatype Outcome = Success | Failure(reason: Reason)

  datatype Op =
    | Login(username: ByteString, password: ByteString)
    | Logout
    | GetRouterInfo
    | GetDevices
    | Block(mac: ByteString)
    | Unblock(mac: ByteString)

  datatype Answer = Result(outcome: Outcome) | Info(info: RouterInfo) | Devices(list: DeviceList)

  /** One operation: what it was, what happened during it, and what it returned. */
  datatype Call = Call(op: Op, events: seq<Event>, answer: Answer)

  // ---- Requests ----

  const ACL_PATH: ByteString := "/getpage.gch?pid=1002&" + "nextpage=net_wlanm_macfilter1_t.gch"
  const INFO_PATH: ByteString := "/getpage.gch?pid=1002&" + "nextpage=status_dev_info_t.gch"
  const DHCP_PATH: ByteString := "/getpage.gch?pid=1002&" + "nextpage=net_dhcp_dynamic_t.gch"
  const LOGOFF_PATH: ByteString := "/getpage.gch?pid=1001&" + "nextpage=logoff.gch"
  const FORM_TYPE: ByteString := "application/x-www-form-urlencoded"

  function BaseUrl(env: Setup): ByteString { "http://" + env.routerIp }

  function Root(env: Setup): ByteString { BaseUrl(env) + "/" }

  function GetRequest(env: Setup, jar: Jar, path: ByteString): Request {
    Request(Get, BaseUrl(env) + path, map["Referer" := Root(env)], jar, [], 10)
  }

  function PostRequest(env: Setup, jar: Jar, path: ByteString, body: ByteString): Request {
    Request(Post, BaseUrl(env) + path, map["Content-Type" := FORM_TYPE, "Referer" := Root(env)], jar, body, 10)
  }

  // ---- login ----

  function LoginRequest(env: Setup, jar: Jar, username: ByteString, password: ByteString, nonce: nat,
                        page: ByteString): Request {
    PostRequest(env, jar, "/", LoginBody(username, env.sha256Hex(password + Decimal(nonce)), Decimal(nonce),
                                         PageToken(page, LOGIN_TOKEN), PageToken(page, CHECK_TOKEN)))
  }

  predicate Redirects(r: Response) { r.statusCode == 301 || r.statusCode == 302 }

  predicate AcceptsLogin(r: Response) {
    || Redirects(r)
    || (r.statusCode == 200 && !Contains(r.body, LOGIN_FORM) && !Contains(r.body, "Username"))
  }

  /** The same, read off the reply: a redirect, or status 200 and no sign of the login page. */
  ghost predicate SaysAccepted(r: Response) {
    || r.statusCode == 301 || r.statusCode == 302
    || (r.statusCode == 200 && !Holds(r.body, "Frm_Logintoken") && !Holds(r.body, "Username"))
  }

  lemma {:induction false} AcceptsMeaning(r: Response)
    ensures AcceptsLogin(r) <==> SaysAccepted(r)
  {
    ContainsMeaning(r.body, "Frm_Logintoken");
    ContainsMeaning(r.body, "Username");
  }

  predicate Followed(r: Response) { Redirects(r) && LOCATION in r.headers }

  /** What follows the reply to the posted credentials. */
  ghost predicate LoginVerdict(env: Setup, s: State, r: Response, rest: seq<Event>, out: Outcome) {
    if r.error != [] then rest == [Rejected] && out == Failure(LoginRequestFailed)
    else if !AcceptsLogin(r) then rest == [Rejected] && out == Failure(LoginRefused(r.statusCode))
    else
      && out == Success
      && if Followed(r)
         then |rest| == 2 && rest[0] == Accepted && rest[1].Sent?
              && rest[1].request == GetRequest(env, s.cookies, r.headers[LOCATION])
         else rest == [Accepted]
  }

  ghost predicate LoginCall(env: Setup, s: State, username: ByteString, password: ByteString, es: seq<Event>,
                            out: Outcome) {
    if username == [] || password == [] then es == [] && out == Failure(CredentialsRequired)
    else
      && |es| >= 2 && es[0].Sent? && es[0].request == GetRequest(env, s.cookies, "/")
      && if es[0].response.error != [] then es == [es[0], Rejected] && out == Failure(LoginPageFailed)
         else
           var s1 := Apply(s, es[0]);
           && |es| >= 3 && es[1].Sent?
           && (exists nonce: nat ::
                 && IsNonce(nonce)
                 && es[1].request == LoginRequest(env, s1.cookies, username, password, nonce, es[0].response.body))
           && LoginVerdict(env, Apply(s1, es[1]), es[1].response, es[2..], out)
  }

  // ---- The reading operations ----

  ghost predicate LogoutCall(env: Setup, s: State, es: seq<Event>, out: Outcome) {
    && out == Success
    && if s.loggedIn
       then |es| == 2 && es[0].Sent? && es[0].request == GetRequest(env, s.cookies, LOGOFF_PATH) && es[1] == LoggedOut
       else es == [LoggedOut]
  }

  function InfoAnswer(s: State, r: Response): RouterInfo {
    if !s.loggedIn then BLANK.(wanStatus := "Session expired")
    else if r.error == [] && r.body != [] then InfoFrom(r.body)
    else BLANK
  }

  ghost predicate InfoCall(env: Setup, s: State, es: seq<Event>, info: RouterInfo) {
    if !s.loggedIn then es == [] && info == BLANK.(wanStatus := "Not logged in")
    else
      && |es| == 1 && es[0].Sent? && es[0].request == GetRequest(env, s.cookies, INFO_PATH)
      && info == InfoAnswer(Apply(s, es[0]), es[0].response)
  }

  function DevicesAnswer(s: State, r: Response): DeviceList {
    if !s.loggedIn || r.error != [] || r.body == [] then Listed([]) else DevicesOf(r.body)
  }

  ghost predicate DevicesCall(env: Setup, s: State, es: seq<Event>, list: DeviceList) {
    if !s.loggedIn then es == [] && list == Listed([])
    else
      && |es| == 1 && es[0].Sent? && es[0].request == GetRequest(env, s.cookies, DHCP_PATH)
      && list == DevicesAnswer(Apply(s, es[0]), es[0].response)
  }

  // ---- blockDevice and unblockDevice ----

  datatype Plan = Refuse(reason: Reason) | Submit(fields: seq<Field>)

  /** What the fetched page leads to. */
  function PlanFor(op: Op, fields: seq<Field>): Plan
    requires op.Block? || op.Unblock?
  {
    var token := Lookup(fields, TOKEN_NAME);
    if token == [] then Refuse(TokenMissing)
    else if op.Block? then Submit(BlockFields(fields, op.mac))
    else
      var index := AclIndex(fields, op.mac);
      if index == [] then Refuse(RowMissing)
      else Submit(UnblockUpdates(Lookup(fields, VIEW_ID), token, index, op.mac))
  }

  function PostOutcome(s: State, r: Response): Outcome {
    if !s.loggedIn then Failure(ExpiredOnPost)
    else if r.error != [] then Failure(PostFailed)
    else if 200 <= r.statusCode < 400 then Success
    else Failure(PostStatus(r.statusCode))
  }

  /** The fetch gave a page to work on. */
  predicate Fetched(s: State, r: Response) {
    s.loggedIn && r.error == [] && r.statusCode == 200
  }

  function FetchFailure(s: State, r: Response): Reason {
    if !s.loggedIn then ExpiredOnFetch
    else if r.error != [] then FetchFailed
    else FetchStatus(r.statusCode)
  }

  ghost predicate AclCall(env: Setup, s: State, op: Op, es: seq<Event>, out: Outcome)
    requires op.Block? || op.Unblock?
  {
    if op.mac == [] then es == [] && out == Failure(MacRequired)
    else if !s.loggedIn then es == [] && out == Failure(NotLoggedIn)
    else
      && |es| >= 1 && es[0].Sent? && es[0].request == GetRequest(env, s.cookies, ACL_PATH)
      && var r := es[0].response; var s1 := Apply(s, es[0]);
         if !Fetched(s1, r) then |es| == 1 && out == Failure(FetchFailure(s1, r))
         else match PlanFor(op, FormFieldsOf(r.body))
           case Refuse(why) => |es| == 1 && out == Failure(why)
           case Submit(fields) =>
             && |es| == 2 && es[1].Sent?
             && es[1].request == PostRequest(env, s1.cookies, ACL_PATH, BodyOf(fields))
             && out == PostOutcome(Apply(s1, es[1]), es[1].response)
  }

  ghost predicate CallOk(env: Setup, s: State, c: Call) {
    match c.op
    case Login(u, p) => c.answer.Result? && LoginCall(env, s, u, p, c.events, c.answer.outcome)
    case Logout => c.answer.Result? && LogoutCall(env, s, c.events, c.answer.outcome)
    case GetRouterInfo => c.answer.Info? && InfoCall(env, s, c.events, c.answer.info)
    case GetDevices => c.answer.Devices? && DevicesCall(env, s, c.events, c.answer.list)
    case Block(_) => c.answer.Result? && AclCall(env, s, c.op, c.events, c.answer.outcome)
    case Unblock(_) => c.answer.Result? && AclCall(env, s, c.op, c.events, c.answer.outcome)
  }

  // ---- Runs ----

  function RunLog(run: seq<Call>): seq<Event> {
    if run == [] then [] else RunLog(run[..|run| - 1]) + run[|run| - 1].events
  }

  /** Any sequence of operations, each as its specification allows, from a new client. */
  ghost predicate IsRun(env: Setup, run: seq<Call>) {
    run == [] ||
    (IsRun(env, run[..|run| - 1]) && CallOk(env, Replay(RunLog(run[..|run| - 1])), run[|run| - 1]))
  }

  lemma {:induction false} RunPrefix(env: Setup, run: seq<Call>, n: nat)
    requires IsRun(env, run) && n <= |run|
    ensures IsRun(env, run[..n])
    decreases |run|
  {
    if n < |run| {
      RunPrefix(env, run[..|run| - 1], n);
      assert run[..|run| - 1][..n] == run[..n];
    } else {
      assert run[..n] == run;
    }
  }

  /** Each call of a run meets its specification in the state the earlier calls left. */
  lemma {:induction false} RunCall(env: Setup, run: seq<Call>, n: nat)
    requires IsRun(env, run) && n < |run|
    ensures CallOk(env, Replay(RunLog(run[..n])), run[n])
  {
    RunPrefix(env, run, n + 1);
    assert run[..n + 1][..n] == run[..n];
  }

  lemma {:induction false} RunExtended(env: Setup, past: seq<Call>, c: Call)
    requires IsRun(env, past) && CallOk(env, Replay(RunLog(past)), c)
    ensures IsRun(env, past + [c])
    ensures RunLog(past + [c]) == RunLog(past) + c.events
    ensures Replay(RunLog(past + [c])) == ReplayFrom(Replay(RunLog(past)), c.events)
  {
    var run := past + [c];
    assert run[..|run| - 1] == past;
    ReplayConcat(FRESH, RunLog(past), c.events);
  }

  // ---- Order of requests ----

  lemma {:induction false} ReplayTake(s: State, es: seq<Event>, n: nat)
    requires n < |es|
    ensures ReplayFrom(s, es[..n + 1]) == Apply(ReplayFrom(s, es[..n]), es[n])
  {
    assert es[..n + 1] == es[..n] + [es[n]];
    ReplaySnoc(s, es[..n], es[n]);
  }

  lemma {:induction false} ReplayShort(s: State, es: seq<Event>)
    ensures ReplayFrom(s, []) == s
    ensures |es| >= 1 ==> ReplayFrom(s, es[..1]) == Apply(s, es[0])
    ensures |es| >= 2 ==> ReplayFrom(s, es[..2]) == Apply(Apply(s, es[0]), es[1])
    ensures |es| >= 3 ==> ReplayFrom(s, es[..3]) == Apply(Apply(Apply(s, es[0]), es[1]), es[2])
  {
    assert es[..0] == [];
    if |es| >= 1 { ReplayTake(s, es, 0); }
    if |es| >= 2 { ReplayTake(s, es, 1); }
    if |es| >= 3 { ReplayTake(s, es, 2); }
  }

  /** Orderliness of up to four events, one at a time. */
  lemma {:induction false} ShortInOrder(root: ByteString, s: State, es: seq<Event>)
    requires |es| <= 4
    requires |es| >= 1 ==> InOrder(root, s, es[0])
    requires |es| >= 2 ==> InOrder(root, Apply(s, es[0]), es[1])
    requires |es| >= 3 ==> InOrder(root, Apply(Apply(s, es[0]), es[1]), es[2])
    requires |es| >= 4 ==> InOrder(root, Apply(Apply(Apply(s, es[0]), es[1]), es[2]), es[3])
    ensures AllInOrder(root, s, es)
  {
    ReplayShort(s, es);
    assert es[..0] == [];
  }

  lemma {:induction false} CallInOrder(env: Setup, s: State, c: Call)
    requires CallOk(env, s, c)
    ensures AllInOrder(Root(env), s, c.events)
  {
    if c.op.Login? {
      LoginInOrder(env, s, c.op.username, c.op.password, c.events, c.answer.outcome);
    } else {
      ShortInOrder(Root(env), s, c.events);
    }
  }

  lemma {:induction false} LoginInOrder(env: Setup, s: State, username: ByteString, password: ByteString,
                                        es: seq<Event>, out: Outcome)
    requires LoginCall(env, s, username, password, es, out)
    ensures AllInOrder(Root(env), s, es)
  {
    if |es| > 2 && es[1].Sent? {
      VerdictShape(env, Apply(Apply(s, es[0]), es[1]), es[1].response, es[2..], out);
      assert es[2] == es[2..][0];
      if |es| == 4 { assert es[3] == es[2..][1]; }
    }
    ShortInOrder(Root(env), s, es);
  }

  /** A verdict is one decision, followed by at most the redirected page. */
  lemma {:induction false} VerdictShape(env: Setup, s: State, r: Response, rest: seq<Event>, out: Outcome)
    requires LoginVerdict(env, s, r, rest, out)
    ensures 1 <= |rest| <= 2 && !rest[0].Sent?
    ensures |rest| == 2 ==>
            Followed(r) && rest[0] == Accepted && rest[1].Sent?
              && rest[1].request == GetRequest(env, s.cookies, r.headers[LOCATION])
  {
  }

  /** In every run, each request carries exactly the jar of its moment, and apart from
      login's own requests to the root page it goes out only while logged in. */
  lemma {:induction false} RunInOrder(env: Setup, run: seq<Call>)
    requires IsRun(env, run)
    ensures AllInOrder(Root(env), FRESH, RunLog(run))
  {
    if run != [] {
      var init, c := run[..|run| - 1], run[|run| - 1];
      RunInOrder(env, init);
      CallInOrder(env, Replay(RunLog(init)), c);
      OrderConcat(Root(env), FRESH, RunLog(init), c.events);
    }
  }
}
