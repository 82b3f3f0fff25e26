/** What holds in every run: sessions, cookies, and the requests that change the MAC filter. */
module Runs {
  import opened Bytes
  import opened Cookies
  import opened Http
  import opened Session
  import opened Numbers
  import opened UrlForm
  import opened FormPatterns
  import opened FormPage
  import opened HiddenPage
  import opened ScriptTokens
  import opened ScriptPage
  import opened TokenPages
  import opened PlainPages
  import opened Acl
  import opened Protocol
  import opened Logins

  // ---- Cookies ----

  /** Each request carries exactly the cookies last set since the last reset. */
  lemma {:induction false} CookiesSent(env: Setup, run: seq<Call>, i: nat, name: ByteString, value: ByteString)
    requires IsRun(env, run) && i < |RunLog(run)| && RunLog(run)[i].Sent?
    ensures var jar := RunLog(run)[i].request.cookies;
            (name in jar && jar[name] == value) <==> exists j :: LastSetAt(RunLog(run)[..i], j, name, value)
  {
    RunInOrder(env, run);
    JarMeaning(RunLog(run)[..i], name, value);
    assert InOrder(Root(env), Replay(RunLog(run)[..i]), RunLog(run)[i]);
  }

  /** After a reset a cookie is not sent again until some response sets it again. */
  lemma {:induction false} NoCookieAcrossReset(env: Setup, run: seq<Call>, r: nat, i: nat, name: ByteString)
    requires IsRun(env, run) && r < i < |RunLog(run)| && RunLog(run)[i].Sent? && ResetAt(RunLog(run), r)
    requires forall k :: r < k < i && RunLog(run)[k].Sent? ==> name !in RunLog(run)[k].response.cookies
    ensures name !in RunLog(run)[i].request.cookies
  {
    var log := RunLog(run);
    if name in log[i].request.cookies {
      CookiesSent(env, run, i, name, log[i].request.cookies[name]);
      var j :| LastSetAt(log[..i], j, name, log[i].request.cookies[name]);
      assert j <= r;
      assert log[..i][..r] == log[..r];
      assert ResetAt(log[..i], r);
    }
  }

  /** When every response's cookies come from parseCookies, the Cookie header of every request
      decodes to the session's jar. */
  lemma {:induction false} WireCarriesJar(env: Setup, run: seq<Call>, i: nat, names: seq<ByteString>)
    requires IsRun(env, run) && i < |RunLog(run)| && RunLog(run)[i].Sent?
    requires forall e :: e in RunLog(run) && e.Sent? ==>
             exists headers :: e.response.cookies == AllCookies(headers, 0, map[])
    requires Enumerates(RunLog(run)[i].request.cookies, names)
    ensures ParseCookieHeader(HeaderText(RunLog(run)[i].request.cookies, names)) == Replay(RunLog(run)[..i]).cookies
  {
    var log := RunLog(run);
    RunInOrder(env, run);
    assert InOrder(Root(env), Replay(log[..i]), log[i]);
    forall e | e in log[..i] && e.Sent? ensures WireSafe(e.response.cookies) {
      assert e in log;
      var headers :| e.response.cookies == AllCookies(headers, 0, map[]);
      ParsedIsSafe(headers, 0, map[]);
    }
    JarIsSafe(log[..i]);
    CookieRoundTrip(log[i].request.cookies, names);
  }

  // ---- Requests that change the MAC filter ----

  predicate IsAclPost(env: Setup, e: Event) {
    e.Sent? && e.request.verb == Post && e.request.url == BaseUrl(env) + ACL_PATH
  }

  /** Event `k` posts what event `k - 1` allowed: a fetch of the same page that succeeded, left
      the session alive and gave a token, and the token is in the post. */
  ghost predicate Granted(env: Setup, s: State, es: seq<Event>, k: nat)
    requires k < |es| && es[k].Sent?
  {
    && k >= 1 && es[k - 1].Sent?
    && var before := ReplayFrom(s, es[..k - 1]); var r := es[k - 1].response;
       && es[k - 1].request == GetRequest(env, before.cookies, ACL_PATH)
       && r.statusCode == 200 && r.error == []
       && ReplayFrom(s, es[..k]).loggedIn
       && Lookup(FormFieldsOf(r.body), TOKEN_NAME) != []
       && Lookup(ParseForm(es[k].request.body), TOKEN_NAME) == Lookup(FormFieldsOf(r.body), TOKEN_NAME)
  }

  lemma {:induction false} PathsDiffer(env: Setup)
    ensures BaseUrl(env) + ACL_PATH != Root(env)
  {
    var a: ByteString := "/";
    assert |BaseUrl(env) + ACL_PATH| > |BaseUrl(env) + a|;
  }

  lemma {:induction false} BlockTokenKept(fields: seq<Field>, mac: ByteString)
    ensures Lookup(BlockFields(fields, mac), TOKEN_NAME) == Lookup(fields, TOKEN_NAME)
  {
    BlockUpdatesDistinct(mac);
    BlockKeepsToken(mac);
    LookupUpdatedAll(fields, BlockUpdates(mac), TOKEN_NAME);
  }

  lemma {:induction false} UnblockTokenKept(viewId: ByteString, token: ByteString, index: ByteString, mac: ByteString)
    requires index != []
    ensures Lookup(UnblockUpdates(viewId, token, index, mac), TOKEN_NAME) == token
  {
    var us := UnblockUpdates(viewId, token, index, mac);
    UnblockUpdatesDistinct(viewId, token, index, mac);
    LookupIsFirst(us, TOKEN_NAME);
    assert us[5].name == TOKEN_NAME;
    assert FirstAt(us, TOKEN_NAME, 5);
  }

  lemma {:induction false} PlannedToken(op: Op, page: seq<Field>)
    requires (op.Block? || op.Unblock?) && PlanFor(op, page).Submit?
    ensures Lookup(page, TOKEN_NAME) != []
    ensures Lookup(PlanFor(op, page).fields, TOKEN_NAME) == Lookup(page, TOKEN_NAME)
  {
    if op.Block? {
      BlockTokenKept(page, op.mac);
    } else {
      UnblockTokenKept(Lookup(page, VIEW_ID), Lookup(page, TOKEN_NAME), AclIndex(page, op.mac), op.mac);
    }
  }

  lemma {:induction false} AclCallGranted(env: Setup, s: State, c: Call)
    requires CallOk(env, s, c) && (c.op.Block? || c.op.Unblock?) && |c.events| == 2
    ensures c.events[1].Sent? && Granted(env, s, c.events, 1)
  {
    var es := c.events;
    ReplayShort(s, es);
    assert es[..0] == [];
    var page := FormFieldsOf(es[0].response.body);
    PlannedToken(c.op, page);
    ParseBody(PlanFor(c.op, page).fields);
  }

  lemma {:induction false} LoginNeverPostsAcl(env: Setup, es: seq<Event>, k: nat)
    requires LoginShape(env, es) && k < |es|
    ensures !IsAclPost(env, es[k])
  {
    PathsDiffer(env);
  }

  lemma {:induction false} OnlyAclCallsPost(env: Setup, s: State, c: Call, k: nat)
    requires CallOk(env, s, c) && k < |c.events| && IsAclPost(env, c.events[k])
    ensures (c.op.Block? || c.op.Unblock?) && k == 1 && |c.events| == 2
  {
    if c.op.Login? {
      LoginHasShape(env, s, c.op.username, c.op.password, c.events, c.answer.outcome);
      LoginNeverPostsAcl(env, c.events, k);
    }
  }

  /** In every run, whenever the MAC filter page is posted to, the same call has just fetched
      it and been granted. */
  lemma {:induction false} AclPostsGranted(env: Setup, run: seq<Call>, n: nat, k: nat)
    requires IsRun(env, run) && n < |run| && k < |run[n].events| && IsAclPost(env, run[n].events[k])
    ensures Granted(env, Replay(RunLog(run[..n])), run[n].events, k)
  {
    RunCall(env, run, n);
    OnlyAclCallsPost(env, Replay(RunLog(run[..n])), run[n], k);
    AclCallGranted(env, Replay(RunLog(run[..n])), run[n]);
  }

  /** Blocking and unblocking succeed exactly when two requests went out, the second was
      answered without error by 200..399, and the session is still alive. */
  lemma {:induction false} AclSuccessMeaning(env: Setup, s: State, c: Call)
    requires CallOk(env, s, c) && (c.op.Block? || c.op.Unblock?)
    ensures c.answer == Result(Success) <==>
              && |c.events| == 2 && c.events[1].Sent?
              && c.events[1].response.error == [] && 200 <= c.events[1].response.statusCode < 400
              && ReplayFrom(s, c.events).loggedIn
  {
    AclSuccess(env, s, c.op, c.events, c.answer.outcome);
  }

  lemma {:induction false} AclSuccess(env: Setup, s: State, op: Op, es: seq<Event>, out: Outcome)
    requires (op.Block? || op.Unblock?) && AclCall(env, s, op, es, out)
    ensures out == Success <==>
              && |es| == 2 && es[1].Sent?
              && es[1].response.error == [] && 200 <= es[1].response.statusCode < 400
              && ReplayFrom(s, es).loggedIn
  {
    ReplayShort(s, es);
    if |es| == 2 { assert es[..2] == es; }
  }

  /** A session that expires on the fetch is reported as expired, never as a missing token or
      row, and nothing is posted. */
  lemma {:induction false} ExpiryReported(env: Setup, s: State, c: Call)
    requires CallOk(env, s, c) && (c.op.Block? || c.op.Unblock?) && c.op.mac != [] && s.loggedIn
    ensures |c.events| >= 1 && c.events[0].Sent?
    ensures SaysExpired(c.events[0].response) <==> c.answer == Result(Failure(ExpiredOnFetch))
    ensures SaysExpired(c.events[0].response) ==> |c.events| == 1 && ReplayFrom(s, c.events) == FRESH
  {
    AclExpiry(env, s, c.op, c.events, c.answer.outcome);
  }

  lemma {:induction false} AclExpiry(env: Setup, s: State, op: Op, es: seq<Event>, out: Outcome)
    requires (op.Block? || op.Unblock?) && AclCall(env, s, op, es, out) && op.mac != [] && s.loggedIn
    ensures |es| >= 1 && es[0].Sent?
    ensures SaysExpired(es[0].response) <==> out == Failure(ExpiredOnFetch)
    ensures SaysExpired(es[0].response) ==> |es| == 1 && ReplayFrom(s, es) == FRESH
  {
    var s1 := Apply(s, es[0]);
    ExpiredMeaning(es[0].response);
    assert s1.loggedIn <==> !SaysExpired(es[0].response);
    if |es| == 1 { ReplayOne(s, es); }
    if Fetched(s1, es[0].response) { PlanReasons(op, FormFieldsOf(es[0].response.body)); }
  }

  lemma {:induction false} ReplayOne(s: State, es: seq<Event>)
    requires |es| == 1
    ensures ReplayFrom(s, es) == Apply(s, es[0])
  {
    ReplaySnoc(s, [], es[0]);
    assert [] + [es[0]] == es;
  }

  lemma {:induction false} PlanReasons(op: Op, page: seq<Field>)
    requires op.Block? || op.Unblock?
    ensures var plan := PlanFor(op, page); plan.Refuse? ==> plan.reason == TokenMissing || plan.reason == RowMissing
  {
  }

  /** The first field of the token's name is there and not empty. */
  ghost predicate HoldsToken(fields: seq<Field>) {
    exists i :: FirstAt(fields, "_SESSION_TOKEN", i) && fields[i].value != []
  }

  lemma {:induction false} TokenIsFirst(fields: seq<Field>)
    ensures Lookup(fields, TOKEN_NAME) != [] <==> HoldsToken(fields)
  {
    LookupIsFirst(fields, TOKEN_NAME);
  }

  /** A missing token is reported exactly for a fetched page on which the first field of its name is
      empty, or there is none. */
  lemma {:induction false} MissingTokenMeaning(env: Setup, s: State, c: Call)
    requires CallOk(env, s, c) && (c.op.Block? || c.op.Unblock?) && c.op.mac != [] && s.loggedIn
    ensures |c.events| >= 1 && c.events[0].Sent?
    ensures c.answer == Result(Failure(TokenMissing)) <==>
              && Fetched(Apply(s, c.events[0]), c.events[0].response)
              && !HoldsToken(FormFieldsOf(c.events[0].response.body))
  {
    AclTokenMissing(env, s, c.op, c.events, c.answer.outcome);
    TokenIsFirst(FormFieldsOf(c.events[0].response.body));
  }

  /** The operation posts exactly when the page was fetched, its first field of the token's name is
      not empty and, for unblocking, it has the row. */
  lemma {:induction false} PostsMeaning(env: Setup, s: State, c: Call)
    requires CallOk(env, s, c) && (c.op.Block? || c.op.Unblock?) && c.op.mac != [] && s.loggedIn
    ensures |c.events| >= 1 && c.events[0].Sent?
    ensures |c.events| == 2 <==>
              && Fetched(Apply(s, c.events[0]), c.events[0].response)
              && Allows(c.op, FormFieldsOf(c.events[0].response.body))
  {
    AclPostsWhen(env, s, c.op, c.events, c.answer.outcome);
    PlanSubmits(c.op, FormFieldsOf(c.events[0].response.body));
  }

  lemma {:induction false} AclPostsWhen(env: Setup, s: State, op: Op, es: seq<Event>, out: Outcome)
    requires (op.Block? || op.Unblock?) && AclCall(env, s, op, es, out) && op.mac != [] && s.loggedIn
    ensures |es| >= 1 && es[0].Sent?
    ensures |es| == 2 <==>
              Fetched(Apply(s, es[0]), es[0].response) && PlanFor(op, FormFieldsOf(es[0].response.body)).Submit?
  {
  }

  lemma {:induction false} PlanSubmits(op: Op, page: seq<Field>)
    requires op.Block? || op.Unblock?
    ensures PlanFor(op, page).Submit? <==> Allows(op, page)
  {
    TokenIsFirst(page);
  }

  /** An empty static field hides a token delivered by script: both operations refuse the page. */
  lemma {:induction false} ShadowedTokenRefused(op: Op, token: ByteString)
    requires (op.Block? || op.Unblock?) && SimpleToken(token)
    ensures PlanFor(op, FormFieldsOf(ShadowedPage(token))) == Refuse(TokenMissing)
  {
    EmptyFieldShadows(token);
    PlanRefusesToken(op, FormFieldsOf(ShadowedPage(token)));
  }

  lemma {:induction false} AclRefusal(env: Setup, s: State, op: Op, es: seq<Event>, out: Outcome)
    requires (op.Block? || op.Unblock?) && AclCall(env, s, op, es, out) && op.mac != [] && s.loggedIn
    ensures |es| >= 1 && es[0].Sent?
    ensures out == Failure(TokenMissing) <==>
              && Fetched(Apply(s, es[0]), es[0].response)
              && PlanFor(op, FormFieldsOf(es[0].response.body)) == Refuse(TokenMissing)
  {
  }

  lemma {:induction false} AclTokenMissing(env: Setup, s: State, op: Op, es: seq<Event>, out: Outcome)
    requires (op.Block? || op.Unblock?) && AclCall(env, s, op, es, out) && op.mac != [] && s.loggedIn
    ensures |es| >= 1 && es[0].Sent?
    ensures out == Failure(TokenMissing) <==>
              Fetched(Apply(s, es[0]), es[0].response) && Lookup(FormFieldsOf(es[0].response.body), TOKEN_NAME) == []
  {
    AclRefusal(env, s, op, es, out);
    PlanRefusesToken(op, FormFieldsOf(es[0].response.body));
  }

  lemma {:induction false} PlanRefusesToken(op: Op, page: seq<Field>)
    requires op.Block? || op.Unblock?
    ensures PlanFor(op, page) == Refuse(TokenMissing) <==> Lookup(page, TOKEN_NAME) == []
  {
  }

  /** What a form says when it asks the router to add a row that bans the address. */
  ghost predicate AddsRow(posted: seq<Field>, mac: ByteString) {
    && Lookup(posted, "IF_ACTION") == "new" && Lookup(posted, "IF_INDEX") == "-1" && Lookup(posted, "IF_INSTNUM") == "0"
    && Lookup(posted, "IF_ERRORSTR") == "SUCC" && Lookup(posted, "IF_ERRORPARAM") == "SUCC"
    && Lookup(posted, "IF_ERRORTYPE") == "-1"
    && Lookup(posted, "ViewName") == "NULL" && Lookup(posted, "Interface") == "0"
    && Lookup(posted, "MACAddress") == mac && Lookup(posted, "ACLPolicy") == "Ban"
  }

  lemma {:induction false} OverridesAddRow(posted: seq<Field>, mac: ByteString)
    requires forall u :: u in BlockUpdates(mac) ==> Lookup(posted, u.name) == u.value
    ensures AddsRow(posted, mac)
  {
    var us := BlockUpdates(mac);
    forall k | 0 <= k < 10 ensures Lookup(posted, us[k].name) == us[k].value { assert us[k] in us; }
    assert Lookup(posted, us[0].name) == us[0].value && Lookup(posted, us[1].name) == us[1].value;
    assert Lookup(posted, us[2].name) == us[2].value && Lookup(posted, us[3].name) == us[3].value;
    assert Lookup(posted, us[4].name) == us[4].value && Lookup(posted, us[5].name) == us[5].value;
    assert Lookup(posted, us[6].name) == us[6].value && Lookup(posted, us[7].name) == us[7].value;
    assert Lookup(posted, us[8].name) == us[8].value && Lookup(posted, us[9].name) == us[9].value;
  }

  /** A block post decodes to the page's own fields with the ten overrides in place: each
      overrides the first field of its name, or is appended in order when there is none. */
  lemma {:induction false} BlockPostMeaning(env: Setup, s: State, c: Call)
    requires CallOk(env, s, c) && c.op.Block? && |c.events| == 2
    ensures c.events[0].Sent? && c.events[1].Sent?
    ensures var page := FormFieldsOf(c.events[0].response.body);
            var us := BlockUpdates(c.op.mac);
            var posted := ParseForm(c.events[1].request.body);
            && posted == Overrides(page, us) + Missing(page, us)
            && AddsRow(posted, c.op.mac)
            && forall name :: !HasName(us, name) ==> Lookup(posted, name) == Lookup(page, name)
  {
    var page := FormFieldsOf(c.events[0].response.body);
    BlockFieldsMeaning(page, c.op.mac);
    OverridesAddRow(BlockFields(page, c.op.mac), c.op.mac);
    ParseBody(BlockFields(page, c.op.mac));
  }

  lemma {:induction false} BlockFieldsMeaning(page: seq<Field>, mac: ByteString)
    ensures var us := BlockUpdates(mac);
            var posted := BlockFields(page, mac);
            && posted == Overrides(page, us) + Missing(page, us)
            && (forall u :: u in us ==> Lookup(posted, u.name) == u.value)
            && forall name :: !HasName(us, name) ==> Lookup(posted, name) == Lookup(page, name)
  {
    BlockUpdatesDistinct(mac);
    UpdatedAllMeaning(page, BlockUpdates(mac));
    OverridesRead(page, BlockUpdates(mac));
  }

  lemma {:induction false} OverridesRead(page: seq<Field>, us: seq<Field>)
    requires DistinctNames(us)
    ensures var posted := UpdatedAll(page, us);
            && (forall u :: u in us ==> Lookup(posted, u.name) == u.value)
            && forall name :: !HasName(us, name) ==> Lookup(posted, name) == Lookup(page, name)
  {
    forall name
      ensures Lookup(UpdatedAll(page, us), name) == if HasName(us, name) then Lookup(us, name) else Lookup(page, name)
    {
      LookupUpdatedAll(page, us, name);
    }
    forall u | u in us ensures Lookup(us, u.name) == u.value && HasName(us, u.name) {
      LookupIsFirst(us, u.name);
      var i :| 0 <= i < |us| && us[i] == u;
      assert FirstAt(us, u.name, i);
    }
  }

  /** From page to post: on a page rendered from tags, calls and scripts the block post decodes to
      the fields of the tags, those of the calls and the token of the first script that gives
      one, with the ten overrides in place. */
  lemma {:induction false} RenderedPageBlockPost(env: Setup, s: State, c: Call, page: ByteString,
                                                 lead: ByteString, items: seq<Item>,
                                                 start: ByteString, cs: seq<HiddenCall>,
                                                 head: ByteString, es: seq<Element>)
    requires CallOk(env, s, c) && c.op.Block? && |c.events| == 2
    requires c.events[0].Sent? && c.events[0].response.body == page
    requires IsInputPage(page, lead, items) && IsCallPage(page, start, cs) && IsScriptPage(page, head, es)
    ensures c.events[1].Sent?
    ensures var us := BlockUpdates(c.op.mac);
            var fields := FieldsOf(items) + CallFields(cs) + TokenOf(BodiesOf(es));
            ParseForm(c.events[1].request.body) == Overrides(fields, us) + Missing(fields, us)
  {
    MixedPage(page, lead, items, start, cs, head, es);
    BlockPostMeaning(env, s, c);
  }

  /** On a page of tags with plain values amid plain text, nothing more is needed. */
  lemma {:induction false} PlainPageBlockPost(env: Setup, s: State, c: Call, lead: ByteString, items: seq<Item>)
    requires CallOk(env, s, c) && c.op.Block? && |c.events| == 2
    requires c.events[0].Sent? && IsPlainPage(c.events[0].response.body, lead, items)
    ensures c.events[1].Sent?
    ensures var us := BlockUpdates(c.op.mac);
            ParseForm(c.events[1].request.body) == Overrides(FieldsOf(items), us) + Missing(FieldsOf(items), us)
  {
    PlainRoundTrip(c.events[0].response.body, lead, items);
    BlockPostMeaning(env, s, c);
  }

  /** What the fields of an unblock post say about the page: the index is that of the first row
      whose address is the argument up to case, and token and view id are the page's own. */
  ghost predicate DeletesRow(page: seq<Field>, mac: ByteString, posted: seq<Field>, row: nat) {
    && FirstRowAt(page, mac, row)
    && var index := RowIndex(page[row].name);
       && page[row].name == "MACAddress" + index && index != [] && AllDigits(index)
       && SaysDelete(posted) && SaysRow(posted, index, mac)
       && Field("IF_VIEWID", Lookup(page, "IF_VIEWID")) in posted
       && Field("_SESSION_TOKEN", Lookup(page, "_SESSION_TOKEN")) in posted
  }

  ghost predicate SaysDelete(posted: seq<Field>) {
    && Field("IF_ACTION", "delete") in posted && Field("IF_INSTNUM", "1") in posted
    && Field("IF_ERRORSTR", "SUCC") in posted && Field("IF_ERRORPARAM", "SUCC") in posted
    && Field("IF_ERRORTYPE", "-1") in posted
  }

  ghost predicate SaysRow(posted: seq<Field>, index: ByteString, mac: ByteString) {
    && Field("IF_INDEX", index) in posted && Field("MACAddress" + index, mac) in posted
    && Field("ViewName" + index, "IGD.ACL1") in posted && Field("Interface" + index, "0") in posted
  }

  lemma {:induction false} UnblockSays(viewId: ByteString, token: ByteString, index: ByteString, mac: ByteString)
    ensures var posted := UnblockUpdates(viewId, token, index, mac);
            && SaysDelete(posted) && SaysRow(posted, index, mac)
            && Field(VIEW_ID, viewId) in posted && Field(TOKEN_NAME, token) in posted
  {
    var posted := UnblockUpdates(viewId, token, index, mac);
    assert posted[0] in posted && posted[1] in posted && posted[2] in posted && posted[3] in posted;
    assert posted[4] in posted && posted[5] in posted && posted[6] in posted && posted[7] in posted;
    assert posted[8] in posted && posted[9] in posted && posted[10] in posted;
  }

  lemma {:induction false} RowNameSplit(name: ByteString)
    requires IsRowName(name)
    ensures name == MAC_FIELD + RowIndex(name) && AllDigits(RowIndex(name))
  {
    var index := RowIndex(name);
    assert name == name[..10] + name[10..];
    forall d | d in index ensures IsDigit(d) {
      var i :| 0 <= i < |index| && index[i] == d;
      assert d == name[i + 10];
    }
  }

  lemma {:induction false} UnblockPlanMeaning(page: seq<Field>, mac: ByteString) returns (row: nat)
    requires AclIndex(page, mac) != []
    ensures var viewId, token := Lookup(page, VIEW_ID), Lookup(page, TOKEN_NAME);
            DeletesRow(page, mac, UnblockUpdates(viewId, token, AclIndex(page, mac), mac), row)
  {
    AclIndexMeaning(page, mac);
    row :| FirstRowAt(page, mac, row);
    RowNameSplit(page[row].name);
    UnblockSays(Lookup(page, VIEW_ID), Lookup(page, TOKEN_NAME), AclIndex(page, mac), mac);
  }

  /** Unblocking deletes the right row: its post decodes to eleven fields of different names,
      and these are the fields that say so. */
  lemma {:induction false} UnblockPostMeaning(env: Setup, s: State, c: Call)
    requires CallOk(env, s, c) && c.op.Unblock? && |c.events| == 2
    ensures c.events[0].Sent? && c.events[1].Sent?
    ensures var posted := ParseForm(c.events[1].request.body);
            && |posted| == 11 && DistinctNames(posted)
            && exists row :: DeletesRow(FormFieldsOf(c.events[0].response.body), c.op.mac, posted, row)
  {
    var page := FormFieldsOf(c.events[0].response.body);
    UnblockPlanned(c.op, page);
    ParseBody(PlanFor(c.op, page).fields);
  }

  lemma {:induction false} UnblockPlanned(op: Op, page: seq<Field>)
    requires op.Unblock? && PlanFor(op, page).Submit?
    ensures var posted := PlanFor(op, page).fields;
            && |posted| == 11 && DistinctNames(posted)
            && exists row :: DeletesRow(page, op.mac, posted, row)
  {
    UnblockUpdatesDistinct(Lookup(page, VIEW_ID), Lookup(page, TOKEN_NAME), AclIndex(page, op.mac), op.mac);
    var row := UnblockPlanMeaning(page, op.mac);
  }

  // ---- Runs that succeed ----

  /** The page's fields allow the operation: the first of the token's name is not empty and, for
      unblocking, they have the row. */
  ghost predicate Allows(op: Op, fields: seq<Field>) {
    HoldsToken(fields) && (op.Unblock? ==> AclIndex(fields, op.mac) != [])
  }

  /** While logged in, any page that is not the login page and whose fields allow the operation is
      enough for some server to let it post and succeed. */
  lemma {:induction false} AclSucceeds(env: Setup, s: State, op: Op, body: ByteString) returns (c: Call)
    requires (op.Block? || op.Unblock?) && op.mac != [] && s.loggedIn
    requires !Contains(body, LOGIN_FORM) && Allows(op, FormFieldsOf(body))
    ensures c.op == op && CallOk(env, s, c) && c.answer == Result(Success)
    ensures |c.events| == 2 && IsAclPost(env, c.events[1])
    ensures c.events[0].Sent? && c.events[0].response.body == body
  {
    var page := Response(200, map[], map[], body, []);
    BlankIsAlive();
    PlanSubmits(op, FormFieldsOf(body));
    c := AclCallFrom(env, s, op, page, FormFieldsOf(body));
  }

  lemma {:induction false} AclCallFrom(env: Setup, s: State, op: Op, page: Response, fields: seq<Field>)
    returns (c: Call)
    requires (op.Block? || op.Unblock?) && op.mac != [] && s.loggedIn
    requires page.statusCode == 200 && page.error == [] && !Expired(page) && !Expired(BLANK_PAGE)
    requires FormFieldsOf(page.body) == fields && PlanFor(op, fields).Submit?
    ensures c.op == op && CallOk(env, s, c) && c.answer == Result(Success)
    ensures |c.events| == 2 && IsAclPost(env, c.events[1])
    ensures c.events[0].Sent? && c.events[0].response == page
  {
    var e0 := Sent(GetRequest(env, s.cookies, ACL_PATH), page);
    var s1 := Apply(s, e0);
    var e1 := Sent(PostRequest(env, s1.cookies, ACL_PATH, BodyOf(PlanFor(op, fields).fields)), BLANK_PAGE);
    AclPosts(env, s, op, e0, e1, fields);
    assert PostOutcome(Apply(s1, e1), BLANK_PAGE) == Success;
    c := Call(op, [e0, e1], Result(Success));
  }

  /** A page that plans a submission and any reply to it make up a call. */
  lemma {:induction false} AclPosts(env: Setup, s: State, op: Op, e0: Event, e1: Event, fields: seq<Field>)
    requires (op.Block? || op.Unblock?) && op.mac != [] && s.loggedIn && e0.Sent? && e1.Sent?
    requires e0.request == GetRequest(env, s.cookies, ACL_PATH) && Fetched(Apply(s, e0), e0.response)
    requires FormFieldsOf(e0.response.body) == fields && PlanFor(op, fields).Submit?
    requires e1.request == PostRequest(env, Apply(s, e0).cookies, ACL_PATH, BodyOf(PlanFor(op, fields).fields))
    ensures AclCall(env, s, op, [e0, e1], PostOutcome(Apply(Apply(s, e0), e1), e1.response))
  {
    var es := [e0, e1];
    assert es[0] == e0 && es[1] == e1;
  }

  /** So there are runs that log in and then change the filter, with any such page. */
  lemma {:induction false} SomeRunPosts(env: Setup, username: ByteString, password: ByteString, op: Op,
                                        body: ByteString)
    returns (run: seq<Call>)
    requires username != [] && password != [] && (op.Block? || op.Unblock?) && op.mac != []
    requires !Contains(body, LOGIN_FORM) && Allows(op, FormFieldsOf(body))
    ensures IsRun(env, run) && |run| == 2 && run[0].op == Login(username, password) && run[1].op == op
    ensures |run[1].events| == 2 && IsAclPost(env, run[1].events[1]) && run[1].answer == Result(Success)
    ensures run[1].events[0].Sent? && run[1].events[0].response.body == body
  {
    var login := LoginSucceeds(env, FRESH, username, password);
    assert RunLog([]) == [];
    RunExtended(env, [], login);
    assert [] + [login] == [login];
    var posting := AclSucceeds(env, Replay(RunLog([login])), op, body);
    RunExtended(env, [login], posting);
    run := [login] + [posting];
  }

  /** A run that logs in and blocks a device with a page that delivers the token only by script:
      the token is posted, followed by the ten overrides. */
  lemma {:induction false} ScriptTokenIsPosted(env: Setup, username: ByteString, password: ByteString,
                                               mac: ByteString, token: ByteString)
    returns (run: seq<Call>)
    requires username != [] && password != [] && mac != [] && SimpleToken(token) && token != []
    ensures IsRun(env, run) && |run| == 2 && run[0].op == Login(username, password) && run[1].op == Op.Block(mac)
    ensures |run[1].events| == 2 && IsAclPost(env, run[1].events[1]) && run[1].answer == Result(Success)
    ensures run[1].events[0].Sent? && run[1].events[0].response.body == TokenPage(token)
    ensures ParseForm(run[1].events[1].request.body) == [Field(TOKEN_NAME, token)] + BlockUpdates(mac)
  {
    TokenByScript(token);
    TokenIsFirst(FormFieldsOf(TokenPage(token)));
    LoginFormFirst();
    TokenPageHasNoForm(token, LOGIN_FORM);
    run := SomeRunPosts(env, username, password, Op.Block(mac), TokenPage(token));
    RunCall(env, run, 1);
    BlockPostMeaning(env, Replay(RunLog(run[..1])), run[1]);
    BlockKeepsToken(mac);
    OneFieldKept(Field(TOKEN_NAME, token), BlockUpdates(mac));
  }

  lemma {:induction false} LoginFormFirst()
    ensures LOGIN_FORM != [] && LOGIN_FORM[0] == 'F'
  {
    assert LOGIN_FORM == "Frm_Logintoken";
  }

  lemma {:induction false} AllMissing(f: Field, us: seq<Field>)
    requires !HasName(us, f.name)
    ensures Missing([f], us) == us
  {
    if us != [] {
      var init, u := us[..|us| - 1], us[|us| - 1];
      assert us == init + [u] && u in us;
      forall v | v in init ensures v.name != f.name { assert v in us; }
      AllMissing(f, init);
    }
  }

  lemma {:induction false} OneFieldKept(f: Field, us: seq<Field>)
    requires !HasName(us, f.name)
    ensures Overrides([f], us) + Missing([f], us) == [f] + us
  {
    AllMissing(f, us);
  }
}
