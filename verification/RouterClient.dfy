/** The router client: the class whose fields every response may change. */
module RouterClient {
  import opened Bytes
  import opened Numbers
  import opened Cookies
  import opened Http
  import opened Session
  import opened UrlForm
  import opened FormPatterns
  import opened LoginPage
  import opened StatusPage
  import opened DeviceTable
  import opened Acl
  import opened Protocol

  class ZteF670LRouterClient {
    const env: Setup
    const http: HttpClient
    var loggedIn: bool
    var sessionToken: ByteString
    var cookies: Jar

    /** The operations so far, and what had crossed the wire before this client. */
    ghost var run: seq<Call>
    ghost const before: seq<Exchange>

    ghost function Current(): State
      reads this
    {
      State(loggedIn, sessionToken, cookies)
    }

    /** The operations so far form a run, the fields are what that run left, and the wire has
        carried exactly its messages. */
    ghost predicate Valid()
      reads this, http
    {
      && IsRun(env, run)
      && Current() == Replay(RunLog(run))
      && http.wire == before + WireOf(RunLog(run))
    }

    /** One more operation has been done. */
    ghost predicate Did(past: seq<Call>, op: Op, answer: Answer)
      reads this
    {
      exists es :: run == past + [Call(op, es, answer)]
    }

    constructor (env: Setup, http: HttpClient)
      ensures Valid() && run == [] && this.env == env && this.http == http
      ensures !loggedIn && sessionToken == [] && cookies == map[]
    {
      this.env, this.http := env, http;
      loggedIn, sessionToken, cookies := false, [], map[];
      run, before := [], http.wire;
    }

    method MergeCookies(response: Response)
      modifies this`cookies
      ensures cookies == old(cookies) + response.cookies
    {
      var left := response.cookies.Keys;
      while left != {}
        invariant left <= response.cookies.Keys
        invariant cookies == old(cookies) + (map n | n in response.cookies && n !in left :: response.cookies[n])
        decreases |left|
      {
        var name: ByteString :| name in left;
        cookies := cookies[name := response.cookies[name]];
        left := left - {name};
      }
    }

    method CheckSessionExpiration(response: Response)
      modifies this`loggedIn, this`sessionToken, this`cookies
      ensures Current() == if old(loggedIn) && SaysExpired(response) then State(false, [], map[]) else old(Current())
    {
      ExpiredMeaning(response);
      if loggedIn {
        var isRedirectToLogin := LOCATION in response.headers && Contains(response.headers[LOCATION], "login");
        var bodyContainsLogin := Contains(response.body, LOGIN_FORM);
        if response.statusCode == 401 || isRedirectToLogin || bodyContainsLogin {
          loggedIn := false;
          sessionToken := [];
          cookies := map[];
        }
      }
    }

    method HttpGet(path: ByteString) returns (response: Response, ghost event: Event)
      modifies this`loggedIn, this`sessionToken, this`cookies, http
      ensures event == Sent(GetRequest(env, old(cookies), path), response)
      ensures Current() == Apply(old(Current()), event)
      ensures http.wire == old(http.wire) + [Exchange(event.request, response)]
    {
      var request := GetRequest(env, cookies, path);
      response := http.Send(request);
      event := Sent(request, response);
      MergeCookies(response);
      ExpiredMeaning(response);
      CheckSessionExpiration(response);
    }

    method HttpPost(path: ByteString, body: ByteString) returns (response: Response, ghost event: Event)
      modifies this`loggedIn, this`sessionToken, this`cookies, http
      ensures event == Sent(PostRequest(env, old(cookies), path, body), response)
      ensures Current() == Apply(old(Current()), event)
      ensures http.wire == old(http.wire) + [Exchange(event.request, response)]
    {
      var request := PostRequest(env, cookies, path, body);
      response := http.Send(request);
      event := Sent(request, response);
      MergeCookies(response);
      ExpiredMeaning(response);
      CheckSessionExpiration(response);
    }

    /** Enter a finished operation in the run. */
    ghost method Record(c: Call)
      requires IsRun(env, run + [c]) && Current() == Replay(RunLog(run + [c]))
      requires http.wire == before + WireOf(RunLog(run + [c]))
      modifies this`run
      ensures Valid() && run == old(run) + [c]
    {
      run := run + [c];
    }

    // Each operation comes in two layers: its steps, and the same with the run kept up to date.

    method LogoutSteps() returns (outcome: Outcome, ghost es: seq<Event>)
      modifies this`loggedIn, this`sessionToken, this`cookies, http
      ensures LogoutCall(env, old(Current()), es, outcome)
      ensures Current() == ReplayFrom(old(Current()), es) == FRESH
      ensures http.wire == old(http.wire) + WireOf(es)
    {
      es := [];
      if loggedIn {
        var response;
        ghost var event;
        response, event := HttpGet(LOGOFF_PATH);
        es := [event];
      }
      loggedIn := false;
      cookies := map[];
      sessionToken := [];
      es := es + [LoggedOut];
      outcome := Success;
      Effects(old(Current()), es);
    }

    method Logout() returns (outcome: Outcome)
      requires Valid()
      modifies this, http
      ensures Valid() && Did(old(run), Op.Logout, Result(outcome))
      ensures outcome == Success && Current() == FRESH
    {
      ghost var es;
      outcome, es := LogoutSteps();
      Finish(env, run, Call(Op.Logout, es, Result(outcome)), before);
      Record(Call(Op.Logout, es, Result(outcome)));
    }

    method RouterInfoSteps() returns (info: RouterInfo, ghost es: seq<Event>)
      modifies this`loggedIn, this`sessionToken, this`cookies, http
      ensures InfoCall(env, old(Current()), es, info)
      ensures Current() == ReplayFrom(old(Current()), es)
      ensures http.wire == old(http.wire) + WireOf(es)
    {
      info := BLANK;
      es := [];
      Effects(Current(), es);
      if !loggedIn {
        info := info.(wanStatus := "Not logged in");
        return;
      }
      var response;
      ghost var event;
      response, event := HttpGet(INFO_PATH);
      es := [event];
      Effects(old(Current()), es);
      if !loggedIn {
        info := info.(wanStatus := "Session expired");
        return;
      }
      if response.error == [] && response.body != [] {
        info := ReadInfo(response.body);
      }
    }

    method GetRouterInfo() returns (info: RouterInfo)
      requires Valid()
      modifies this, http
      ensures Valid() && Did(old(run), Op.GetRouterInfo, Info(info))
    {
      ghost var es;
      info, es := RouterInfoSteps();
      Finish(env, run, Call(Op.GetRouterInfo, es, Info(info)), before);
      Record(Call(Op.GetRouterInfo, es, Info(info)));
    }

    method DevicesSteps() returns (list: DeviceList, ghost es: seq<Event>)
      modifies this`loggedIn, this`sessionToken, this`cookies, http
      ensures DevicesCall(env, old(Current()), es, list)
      ensures Current() == ReplayFrom(old(Current()), es)
      ensures http.wire == old(http.wire) + WireOf(es)
    {
      list := Listed([]);
      es := [];
      Effects(Current(), es);
      if !loggedIn { return; }
      var response;
      ghost var event;
      response, event := HttpGet(DHCP_PATH);
      es := [event];
      Effects(old(Current()), es);
      if !loggedIn { return; }
      if response.error != [] || response.body == [] { return; }
      list := ParseDevices(response.body);
    }

    method ConnectedDevices() returns (list: DeviceList)
      requires Valid()
      modifies this, http
      ensures Valid() && Did(old(run), Op.GetDevices, Devices(list))
    {
      ghost var es;
      list, es := DevicesSteps();
      Finish(env, run, Call(Op.GetDevices, es, Devices(list)), before);
      Record(Call(Op.GetDevices, es, Devices(list)));
    }

    /** The fetch of the filter page, shared by blocking and unblocking. */
    method FetchAclPage() returns (reason: Option<Reason>, response: Response, ghost event: Event)
      requires loggedIn
      modifies this`loggedIn, this`sessionToken, this`cookies, http
      ensures event == Sent(GetRequest(env, old(cookies), ACL_PATH), response)
      ensures Current() == Apply(old(Current()), event)
      ensures http.wire == old(http.wire) + [Exchange(event.request, response)]
      ensures reason == if Fetched(Current(), response) then None else Some(FetchFailure(Current(), response))
    {
      response, event := HttpGet(ACL_PATH);
      reason := None;
      if !loggedIn { reason := Some(ExpiredOnFetch); }
      else if response.error != [] { reason := Some(FetchFailed); }
      else if response.statusCode != 200 { reason := Some(FetchStatus(response.statusCode)); }
    }

    /** The post, and how its reply is judged. */
    method PostAclForm(fields: FormFields) returns (outcome: Outcome, ghost event: Event)
      modifies this`loggedIn, this`sessionToken, this`cookies, http
      ensures event.Sent? && event.request == PostRequest(env, old(cookies), ACL_PATH, BodyOf(fields.items))
      ensures Current() == Apply(old(Current()), event)
      ensures http.wire == old(http.wire) + [Exchange(event.request, event.response)]
      ensures outcome == PostOutcome(Current(), event.response)
    {
      var body := fields.BuildFormBody();
      var response;
      response, event := HttpPost(ACL_PATH, body);
      if !loggedIn { return Failure(ExpiredOnPost), event; }
      if response.error != [] { return Failure(PostFailed), event; }
      if 200 <= response.statusCode < 400 { return Success, event; }
      return Failure(PostStatus(response.statusCode)), event;
    }

    method BlockSteps(mac: ByteString) returns (outcome: Outcome, ghost es: seq<Event>)
      modifies this`loggedIn, this`sessionToken, this`cookies, http
      ensures AclCall(env, old(Current()), Op.Block(mac), es, outcome)
      ensures Current() == ReplayFrom(old(Current()), es)
      ensures http.wire == old(http.wire) + WireOf(es)
    {
      es := [];
      Effects(Current(), es);
      if mac == [] { return Failure(MacRequired), es; }
      if !loggedIn { return Failure(NotLoggedIn), es; }
      var reason, page;
      ghost var fetched;
      reason, page, fetched := FetchAclPage();
      es := [fetched];
      Effects(old(Current()), es);
      if reason.Some? { return Failure(reason.value), es; }
      var fields := ExtractFormFields(page.body);
      reason := PrepareBlock(fields, mac);
      if reason.Some? { return Failure(reason.value), es; }
      ghost var posted;
      outcome, posted := PostAclForm(fields);
      es := [fetched, posted];
      Effects(old(Current()), es);
      WireAssoc(old(http.wire), MessageOf(fetched), MessageOf(posted));
    }

    method BlockDevice(mac: ByteString) returns (outcome: Outcome)
      requires Valid()
      modifies this, http
      ensures Valid() && Did(old(run), Op.Block(mac), Result(outcome))
    {
      ghost var es;
      outcome, es := BlockSteps(mac);
      Finish(env, run, Call(Op.Block(mac), es, Result(outcome)), before);
      Record(Call(Op.Block(mac), es, Result(outcome)));
    }

    method UnblockSteps(mac: ByteString) returns (outcome: Outcome, ghost es: seq<Event>)
      modifies this`loggedIn, this`sessionToken, this`cookies, http
      ensures AclCall(env, old(Current()), Op.Unblock(mac), es, outcome)
      ensures Current() == ReplayFrom(old(Current()), es)
      ensures http.wire == old(http.wire) + WireOf(es)
    {
      es := [];
      Effects(Current(), es);
      if mac == [] { return Failure(MacRequired), es; }
      if !loggedIn { return Failure(NotLoggedIn), es; }
      var reason, page;
      ghost var fetched;
      reason, page, fetched := FetchAclPage();
      es := [fetched];
      Effects(old(Current()), es);
      if reason.Some? { return Failure(reason.value), es; }
      var fields := ExtractFormFields(page.body);
      reason := PrepareUnblock(fields, mac);
      if reason.Some? { return Failure(reason.value), es; }
      ghost var posted;
      outcome, posted := PostAclForm(fields);
      es := [fetched, posted];
      Effects(old(Current()), es);
      WireAssoc(old(http.wire), MessageOf(fetched), MessageOf(posted));
    }

    method UnblockDevice(mac: ByteString) returns (outcome: Outcome)
      requires Valid()
      modifies this, http
      ensures Valid() && Did(old(run), Op.Unblock(mac), Result(outcome))
    {
      ghost var es;
      outcome, es := UnblockSteps(mac);
      Finish(env, run, Call(Op.Unblock(mac), es, Result(outcome)), before);
      Record(Call(Op.Unblock(mac), es, Result(outcome)));
    }

    /** Judging the reply to the posted credentials, and following a redirect. */
    method JudgeLogin(response: Response) returns (outcome: Outcome, ghost rest: seq<Event>)
      modifies this`loggedIn, this`sessionToken, this`cookies, http
      ensures LoginVerdict(env, old(Current()), response, rest, outcome)
      ensures |rest| <= 2 && Current() == ReplayFrom(old(Current()), rest)
      ensures http.wire == old(http.wire) + WireOf(rest)
    {
      rest := [Rejected];
      Effects(old(Current()), rest);
      if response.error != [] {
        loggedIn := false;
        return Failure(LoginRequestFailed), rest;
      }
      var isRedirect := response.statusCode == 301 || response.statusCode == 302;
      var bodyHasNoLoginForm := !Contains(response.body, LOGIN_FORM) && !Contains(response.body, "Username");
      if isRedirect || (response.statusCode == 200 && bodyHasNoLoginForm) {
        loggedIn := true;
        rest := [Accepted];
        Effects(old(Current()), rest);
        if isRedirect && LOCATION in response.headers {
          var page;
          ghost var event;
          page, event := HttpGet(response.headers[LOCATION]);
          rest := [Accepted, event];
          Effects(old(Current()), rest);
        }
        return Success, rest;
      }
      loggedIn := false;
      return Failure(LoginRefused(response.statusCode)), rest;
    }

    method LoginSteps(username: ByteString, password: ByteString) returns (outcome: Outcome, ghost es: seq<Event>)
      modifies this`loggedIn, this`sessionToken, this`cookies, http
      ensures LoginCall(env, old(Current()), username, password, es, outcome)
      ensures Current() == ReplayFrom(old(Current()), es)
      ensures http.wire == old(http.wire) + WireOf(es)
    {
      ghost var s := Current();
      es := [];
      Effects(s, es);
      if username == [] || password == [] { return Failure(CredentialsRequired), es; }
      var page;
      ghost var fetched;
      page, fetched := HttpGet("/");
      if page.error != [] {
        loggedIn := false;
        es := [fetched, Rejected];
        Effects(s, es);
        return Failure(LoginPageFailed), es;
      }
      var response;
      ghost var posted;
      response, posted := PostCredentials(username, password, page.body);
      ghost var rest;
      outcome, rest := JudgeLogin(response);
      es := [fetched, posted] + rest;
      Effects(s, [fetched, posted]);
      ReplayConcat(s, [fetched, posted], rest);
      WireConcat([fetched, posted], rest);
      WireAssoc(old(http.wire), MessageOf(fetched), MessageOf(posted));
      WireAssoc(old(http.wire), WireOf([fetched, posted]), WireOf(rest));
      assert es[2..] == rest;
    }

    /** Hashing the password with a fresh nonce and posting the credentials. */
    method PostCredentials(username: ByteString, password: ByteString, html: ByteString)
      returns (response: Response, ghost event: Event)
      modifies this`loggedIn, this`sessionToken, this`cookies, http
      ensures event.Sent? && event.response == response
      ensures exists nonce: nat ::
                && IsNonce(nonce)
                && event.request == LoginRequest(env, old(cookies), username, password, nonce, html)
      ensures Current() == Apply(old(Current()), event)
      ensures http.wire == old(http.wire) + [Exchange(event.request, response)]
    {
      var loginToken := PageToken(html, LOGIN_TOKEN);
      var checkToken := PageToken(html, CHECK_TOKEN);
      assert IsNonce(10000000);
      var nonce: nat :| IsNonce(nonce);
      var digits := Decimal(nonce);
      var body := BuildLoginBody(username, env.sha256Hex(password + digits), digits, loginToken, checkToken);
      response, event := HttpPost("/", body);
    }

    method Login(username: ByteString, password: ByteString) returns (outcome: Outcome)
      requires Valid()
      modifies this, http
      ensures Valid() && Did(old(run), Op.Login(username, password), Result(outcome))
    {
      ghost var es;
      outcome, es := LoginSteps(username, password);
      Finish(env, run, Call(Op.Login(username, password), es, Result(outcome)), before);
      Record(Call(Op.Login(username, password), es, Result(outcome)));
    }
  }

  lemma {:induction false} Finish(env: Setup, past: seq<Call>, c: Call, before: seq<Exchange>)
    requires IsRun(env, past) && CallOk(env, Replay(RunLog(past)), c)
    ensures IsRun(env, past + [c])
    ensures Replay(RunLog(past + [c])) == ReplayFrom(Replay(RunLog(past)), c.events)
    ensures before + WireOf(RunLog(past + [c])) == before + WireOf(RunLog(past)) + WireOf(c.events)
  {
    RunExtended(env, past, c);
    WireConcat(RunLog(past), c.events);
    WireAssoc(before, WireOf(RunLog(past)), WireOf(c.events));
  }

  lemma {:induction false} WireAssoc(a: seq<Exchange>, b: seq<Exchange>, c: seq<Exchange>)
    ensures a + (b + c) == a + b + c
  {
  }

  /** The page's fields become the fields to post, or there is a reason not to. */
  method PrepareBlock(fields: FormFields, mac: ByteString) returns (reason: Option<Reason>)
    modifies fields
    ensures match PlanFor(Op.Block(mac), old(fields.items))
            case Refuse(why) => reason == Some(why)
            case Submit(posted) => reason == None && fields.items == posted
  {
    var token := fields.GetField(TOKEN_NAME);
    if token == [] { return Some(TokenMissing); }
    OverrideForBlock(fields, mac);
    return None;
  }

  method PrepareUnblock(fields: FormFields, mac: ByteString) returns (reason: Option<Reason>)
    modifies fields
    ensures match PlanFor(Op.Unblock(mac), old(fields.items))
            case Refuse(why) => reason == Some(why)
            case Submit(posted) => reason == None && fields.items == posted
  {
    var token := fields.GetField(TOKEN_NAME);
    if token == [] { return Some(TokenMissing); }
    var index := FindAclIndexByMac(fields.items, mac);
    if index == [] { return Some(RowMissing); }
    var viewId := fields.GetField(VIEW_ID);
    SetForUnblock(fields, viewId, token, index, mac);
    return None;
  }
}
