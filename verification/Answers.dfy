/** What each operation sends and answers, read off its messages. */
module Answers {
  import opened Bytes
  import opened Numbers
  import opened Http
  import opened Session
  import opened UrlForm
  import opened FormPatterns
  import opened Escapes
  import opened DhcpRecords
  import opened DeviceTable
  import opened DevicePage
  import opened StatusPage
  import opened Acl
  import opened Protocol
  import opened Logins
  import opened Runs

  // ---- blockDevice and unblockDevice ----

  /** Some row of the page holds the address. */
  ghost predicate HasRow(page: seq<Field>, mac: ByteString) {
    exists f :: f in page && IsRowOf(f, mac)
  }

  /** The messages of the operation. */
  lemma {:induction false} FilterMessages(env: Setup, s: State, op: Op, es: seq<Event>, out: Outcome)
    requires (op.Block? || op.Unblock?) && AclCall(env, s, op, es, out)
    ensures |WireOf(es)| == |es| <= 2
    ensures forall k :: 0 <= k < |es| ==> es[k].Sent? && WireOf(es)[k] == Exchange(es[k].request, es[k].response)
    ensures es != [] <==> op.mac != [] && s.loggedIn
  {
    AclIsOneOrTwo(env, s, op, es, out);
    AtMostTwo(s, es);
    OtherWire(s, es);
  }

  /** Without an address or a login nothing is sent, and the answer says which is missing. */
  lemma {:induction false} FilterRefused(env: Setup, s: State, op: Op, es: seq<Event>, out: Outcome)
    requires (op.Block? || op.Unblock?) && AclCall(env, s, op, es, out)
    ensures op.mac == [] ==> es == [] && out == Failure(MacRequired)
    ensures op.mac != [] && !s.loggedIn ==> es == [] && out == Failure(NotLoggedIn)
  {
  }

  /** What the reply to the fetch leads to. */
  lemma {:induction false} FetchLeads(env: Setup, s: State, op: Op, es: seq<Event>, out: Outcome)
    requires (op.Block? || op.Unblock?) && AclCall(env, s, op, es, out) && op.mac != [] && s.loggedIn
    ensures 1 <= |es| <= 2 && es[0].Sent?
    ensures var r := es[0].response; var page := FormFieldsOf(r.body);
            if SaysExpired(r) then |es| == 1 && out == Failure(ExpiredOnFetch)
            else if r.error != [] then |es| == 1 && out == Failure(FetchFailed)
            else if r.statusCode != 200 then |es| == 1 && out == Failure(FetchStatus(r.statusCode))
            else match PlanFor(op, page)
              case Refuse(why) => |es| == 1 && out == Failure(why)
              case Submit(_) => |es| == 2
  {
    ExpiredMeaning(es[0].response);
  }

  /** What the page leads to. */
  lemma {:induction false} PageLeads(op: Op, page: seq<Field>)
    requires op.Block? || op.Unblock?
    ensures PlanFor(op, page) == Refuse(TokenMissing) <==> !HoldsToken(page)
    ensures PlanFor(op, page) == Refuse(RowMissing) <==> HoldsToken(page) && op.Unblock? && !HasRow(page, op.mac)
    ensures PlanFor(op, page).Submit? <==> HoldsToken(page) && (op.Unblock? ==> HasRow(page, op.mac))
  {
    TokenIsFirst(page);
    AclIndexMeaning(page, op.mac);
    if !HasRow(page, op.mac) { assert forall f :: f in page ==> !IsRowOf(f, op.mac); }
  }

  /** What the reply to the post leads to. */
  lemma {:induction false} PostLeads(env: Setup, s: State, op: Op, es: seq<Event>, out: Outcome)
    requires (op.Block? || op.Unblock?) && AclCall(env, s, op, es, out) && |es| == 2
    ensures es[1].Sent?
    ensures var r := es[1].response;
            out == if SaysExpired(r) then Failure(ExpiredOnPost)
                   else if r.error != [] then Failure(PostFailed)
                   else if 200 <= r.statusCode <= 399 then Success
                   else Failure(PostStatus(r.statusCode))
  {
    ExpiredMeaning(es[0].response);
    ExpiredMeaning(es[1].response);
  }

  lemma {:induction false} FilterEvents(env: Setup, s: State, c: Call)
    requires CallOk(env, s, c) && (c.op.Block? || c.op.Unblock?)
    ensures c.answer.Result? && AclCall(env, s, c.op, c.events, c.answer.outcome)
  {
  }

  /** Without an address nothing is sent, whatever the state; neither is anything without a login. */
  lemma {:induction false} FilterNeeds(env: Setup, s: State, c: Call)
    requires CallOk(env, s, c) && (c.op.Block? || c.op.Unblock?)
    ensures c.op.mac == [] ==> Wire(c) == [] && c.answer == Result(Failure(MacRequired))
    ensures c.op.mac != [] && !s.loggedIn ==> Wire(c) == [] && c.answer == Result(Failure(NotLoggedIn))
    ensures c.op.mac != [] && s.loggedIn ==> Wire(c) != []
  {
    FilterEvents(env, s, c);
    FilterRefused(env, s, c.op, c.events, c.answer.outcome);
    FilterMessages(env, s, c.op, c.events, c.answer.outcome);
  }

  /** The same case by case, on events of which the wire holds the messages. */
  lemma {:induction false} CasesOnWire(op: Op, es: seq<Event>, out: Outcome, wire: seq<Exchange>)
    requires op.Block? || op.Unblock?
    requires 1 <= |es| <= 2 && |wire| == |es|
    requires forall k :: 0 <= k < |es| ==> es[k].Sent? && wire[k] == Exchange(es[k].request, es[k].response)
    requires var r := es[0].response; var page := FormFieldsOf(r.body);
             if SaysExpired(r) then |es| == 1 && out == Failure(ExpiredOnFetch)
             else if r.error != [] then |es| == 1 && out == Failure(FetchFailed)
             else if r.statusCode != 200 then |es| == 1 && out == Failure(FetchStatus(r.statusCode))
             else match PlanFor(op, page)
               case Refuse(why) => |es| == 1 && out == Failure(why)
               case Submit(_) => |es| == 2
    ensures var r := wire[0].response; var page := FormFieldsOf(r.body);
            if SaysExpired(r) then |wire| == 1 && out == Failure(ExpiredOnFetch)
            else if r.error != [] then |wire| == 1 && out == Failure(FetchFailed)
            else if r.statusCode != 200 then |wire| == 1 && out == Failure(FetchStatus(r.statusCode))
            else if !HoldsToken(page) then |wire| == 1 && out == Failure(TokenMissing)
            else if op.Unblock? && !HasRow(page, op.mac) then |wire| == 1 && out == Failure(RowMissing)
            else |wire| == 2
  {
    PageLeads(op, FormFieldsOf(es[0].response.body));
  }

  /** What the operation answers, with an address and a login: each answer exactly in its case. */
  lemma {:induction false} FilterAnswerMeaning(env: Setup, s: State, c: Call)
    requires CallOk(env, s, c) && (c.op.Block? || c.op.Unblock?) && c.op.mac != [] && s.loggedIn
    ensures 1 <= |Wire(c)| <= 2
    ensures var r := Wire(c)[0].response; var page := FormFieldsOf(r.body);
            if SaysExpired(r) then |Wire(c)| == 1 && c.answer == Result(Failure(ExpiredOnFetch))
            else if r.error != [] then |Wire(c)| == 1 && c.answer == Result(Failure(FetchFailed))
            else if r.statusCode != 200 then |Wire(c)| == 1 && c.answer == Result(Failure(FetchStatus(r.statusCode)))
            else if !HoldsToken(page) then |Wire(c)| == 1 && c.answer == Result(Failure(TokenMissing))
            else if c.op.Unblock? && !HasRow(page, c.op.mac) then
              |Wire(c)| == 1 && c.answer == Result(Failure(RowMissing))
            else |Wire(c)| == 2
    ensures |Wire(c)| == 2 ==>
            var r := Wire(c)[1].response;
            c.answer == Result(if SaysExpired(r) then Failure(ExpiredOnPost)
                               else if r.error != [] then Failure(PostFailed)
                               else if 200 <= r.statusCode <= 399 then Success
                               else Failure(PostStatus(r.statusCode)))
  {
    FilterEvents(env, s, c);
    FilterMessages(env, s, c.op, c.events, c.answer.outcome);
    FetchLeads(env, s, c.op, c.events, c.answer.outcome);
    CasesOnWire(c.op, c.events, c.answer.outcome, Wire(c));
    if |c.events| == 2 { PostLeads(env, s, c.op, c.events, c.answer.outcome); }
  }

  /** Only these two operations post to the filter page, and only their second message does. */
  lemma {:induction false} FilterPostIsSecond(env: Setup, s: State, c: Call, k: nat)
    requires CallOk(env, s, c) && k < |Wire(c)| && Wire(c)[k].request.verb == Post
    requires Wire(c)[k].request.url == BaseUrl(env) + ACL_PATH
    ensures (c.op.Block? || c.op.Unblock?) && |c.events| == |Wire(c)| == 2 && k == 1
    ensures c.events[1].Sent? && Wire(c)[1].request == c.events[1].request
  {
    var j := MessageEvent(c.events, k);
    OnlyAclCallsPost(env, s, c, j);
    FilterEvents(env, s, c);
    SecondIsPost(env, s, c.op, c.events, c.answer.outcome, Wire(c), k);
  }

  lemma {:induction false} SecondIsPost(env: Setup, s: State, op: Op, es: seq<Event>, out: Outcome,
                                        wire: seq<Exchange>, k: nat)
    requires (op.Block? || op.Unblock?) && AclCall(env, s, op, es, out) && |es| == 2 && wire == WireOf(es)
    requires k < |wire| && wire[k].request.verb == Post
    ensures |wire| == 2 && k == 1 && es[1].Sent? && wire[1].request == es[1].request
  {
    FilterMessages(env, s, op, es, out);
    FirstIsGet(env, s, op, es, out);
    PostComesSecond(es, wire, k);
  }

  lemma {:induction false} PostComesSecond(es: seq<Event>, wire: seq<Exchange>, k: nat)
    requires |es| == |wire| == 2 && k < 2
    requires forall i :: 0 <= i < 2 ==> es[i].Sent? && wire[i] == Exchange(es[i].request, es[i].response)
    requires es[0].request.verb == Get && wire[k].request.verb == Post
    ensures k == 1 && wire[1].request == es[1].request
  {
    assert wire[0] == Exchange(es[0].request, es[0].response);
  }

  lemma {:induction false} FirstIsGet(env: Setup, s: State, op: Op, es: seq<Event>, out: Outcome)
    requires (op.Block? || op.Unblock?) && AclCall(env, s, op, es, out) && es != []
    ensures es[0].Sent? && es[0].request.verb == Get
  {
  }

  /** The fields give the address as that of a row: under the name MACAddress followed by its index. */
  ghost predicate NamesRow(posted: seq<Field>, mac: ByteString) {
    exists index: ByteString :: index != [] && AllDigits(index) && Field("MACAddress" + index, mac) in posted
  }

  lemma {:induction false} DeletingNames(page: seq<Field>, mac: ByteString, posted: seq<Field>)
    requires exists row :: DeletesRow(page, mac, posted, row)
    ensures NamesRow(posted, mac)
  {
    var row: nat :| DeletesRow(page, mac, posted, row);
    assert FirstRowAt(page, mac, row);
    assert SaysRow(posted, RowIndex(page[row].name), mac);
    assert Field("MACAddress" + RowIndex(page[row].name), mac) in posted;
  }

  /** In every run whatever is posted to the filter page names a device: the address that the operation
      was given, which is not empty. */
  lemma {:induction false} FilterPostsName(env: Setup, run: seq<Call>, n: nat, k: nat)
    requires IsRun(env, run) && n < |run| && k < |Wire(run[n])| && Wire(run[n])[k].request.verb == Post
    requires Wire(run[n])[k].request.url ==
             "http://" + env.routerIp + ("/getpage.gch?pid=1002&" + "nextpage=net_wlanm_macfilter1_t.gch")
    ensures (run[n].op.Block? || run[n].op.Unblock?) && run[n].op.mac != []
    ensures var posted := ParseForm(Wire(run[n])[k].request.body);
            if run[n].op.Block? then Lookup(posted, "MACAddress") == run[n].op.mac
            else NamesRow(posted, run[n].op.mac)
  {
    var s, c := Replay(RunLog(run[..n])), run[n];
    RunCall(env, run, n);
    FilterPostIsSecond(env, s, c, k);
    FilterNeeds(env, s, c);
    if c.op.Block? {
      BlockPostMeaning(env, s, c);
    } else {
      UnblockPostMeaning(env, s, c);
      DeletingNames(FormFieldsOf(c.events[0].response.body), c.op.mac, ParseForm(c.events[1].request.body));
    }
  }

  /** One fetch and nothing else. */
  lemma {:induction false} OneMessage(s: State, es: seq<Event>)
    requires |es| == 1 && es[0].Sent?
    ensures WireOf(es) == [Exchange(es[0].request, es[0].response)] && ReplayFrom(s, es) == Apply(s, es[0])
  {
    Effects(s, es);
  }

  // ---- logout ----

  lemma {:induction false} LogoutEvents(env: Setup, s: State, es: seq<Event>, out: Outcome)
    requires LogoutCall(env, s, es, out)
    ensures ReplayFrom(s, es) == State(false, [], map[])
    ensures if s.loggedIn
            then |WireOf(es)| == 1 && WireOf(es)[0].request == GetRequest(env, s.cookies, LOGOFF_PATH)
            else WireOf(es) == []
  {
    Effects(s, es);
  }

  /** A logout while logged in sends one request, for the logoff page; otherwise none. It always succeeds
      and leaves nothing of the session. */
  lemma {:induction false} LogoutMeaning(env: Setup, s: State, c: Call)
    requires CallOk(env, s, c) && c.op.Logout?
    ensures c.answer == Result(Success) && ReplayFrom(s, c.events) == State(false, [], map[])
    ensures !s.loggedIn ==> Wire(c) == []
    ensures s.loggedIn ==>
            && |Wire(c)| == 1
            && Wire(c)[0].request ==
               Request(Get, "http://" + env.routerIp + ("/getpage.gch?pid=1001&" + "nextpage=logoff.gch"),
                       map["Referer" := "http://" + env.routerIp + "/"], s.cookies, [], 10)
  {
    LogoutEvents(env, s, c.events, c.answer.outcome);
  }

  // ---- routerInfo ----

  lemma {:induction false} InfoEvents(env: Setup, s: State, es: seq<Event>, info: RouterInfo)
    requires InfoCall(env, s, es, info)
    ensures !s.loggedIn ==> WireOf(es) == [] && info == RouterInfo("ZTE F670L", "Unknown", "Unknown", "Not logged in")
    ensures s.loggedIn ==>
            && |WireOf(es)| == 1 && WireOf(es)[0].request == GetRequest(env, s.cookies, INFO_PATH)
            && var r := WireOf(es)[0].response;
               info == if SaysExpired(r) then RouterInfo("ZTE F670L", "Unknown", "Unknown", "Session expired")
                       else if r.error != [] || r.body == [] then
                         RouterInfo("ZTE F670L", "Unknown", "Unknown", "Unknown")
                       else InfoFrom(r.body)
  {
    if s.loggedIn {
      OneMessage(s, es);
      ExpiredMeaning(es[0].response);
    }
  }

  /** What the router information says: the status names the case, and only a page that came back
      without error, in a session still alive, gives the two cells. */
  lemma {:induction false} InfoMeaning(env: Setup, s: State, c: Call)
    requires CallOk(env, s, c) && c.op.GetRouterInfo?
    ensures !s.loggedIn ==>
            Wire(c) == [] && c.answer == Info(RouterInfo("ZTE F670L", "Unknown", "Unknown", "Not logged in"))
    ensures s.loggedIn ==> |Wire(c)| == 1
    ensures s.loggedIn ==>
            var r := Wire(c)[0].response;
            if SaysExpired(r) then c.answer == Info(RouterInfo("ZTE F670L", "Unknown", "Unknown", "Session expired"))
            else if r.error != [] || r.body == [] then
              c.answer == Info(RouterInfo("ZTE F670L", "Unknown", "Unknown", "Unknown"))
            else forall version, uptime :: Cells(r.body, version, uptime) ==>
                   c.answer == Info(RouterInfo("ZTE F670L", if version == [] then "Unknown" else HtmlText(version),
                                               if uptime == [] then "Unknown" else uptime, "Session active"))
  {
    InfoEvents(env, s, c.events, c.answer.info);
    if s.loggedIn {
      var r := Wire(c)[0].response;
      forall version, uptime | Cells(r.body, version, uptime)
        ensures InfoFrom(r.body) == RouterInfo("ZTE F670L", if version == [] then "Unknown" else HtmlText(version),
                                               if uptime == [] then "Unknown" else uptime, "Session active")
      {
        StatusMeaning(r.body, version, uptime);
      }
    }
  }

  /** What the two cells of a status page hold. */
  ghost predicate Cells(page: ByteString, version: ByteString, uptime: ByteString) {
    && CellHolds(page, "id=\"Frm_SoftwareVer\" " + "name=\"Frm_SoftwareVer\" " + "class=\"tdright\">", version)
    && CellHolds(page, "id=\"Frm_UpTime\" " + "name=\"Frm_UpTime\" " + "class=\"tdright\">", uptime)
  }

  lemma {:induction false} CellsExist(page: ByteString)
    ensures exists version, uptime :: Cells(page, version, uptime)
  {
    var version := ExtractBetween(page, FIRMWARE_MARK, CELL_END);
    var uptime := ExtractBetween(page, UPTIME_MARK, CELL_END);
    ExtractBetweenMeaning(page, FIRMWARE_MARK, CELL_END, version);
    ExtractBetweenMeaning(page, UPTIME_MARK, CELL_END, uptime);
    assert Cells(page, version, uptime);
  }

  /** A status page with both cells, the version printed as entities, is reported byte for byte. */
  lemma {:induction false} InfoRoundTrip(env: Setup, s: State, c: Call, p: nat, version: ByteString, q: nat,
                                         uptime: ByteString)
    requires CallOk(env, s, c) && c.op.GetRouterInfo? && |Wire(c)| == 1
    requires var r := Wire(c)[0].response;
             && !SaysExpired(r) && r.error == []
             && CellStands(r.body, FIRMWARE_MARK, p, HtmlEscaped(version)) && CellStands(r.body, UPTIME_MARK, q, uptime)
    requires version != [] && uptime != [] && '<' !in uptime
    ensures c.answer == Info(RouterInfo("ZTE F670L", version, uptime, "Session active"))
  {
    InfoEvents(env, s, c.events, c.answer.info);
    var page := Wire(c)[0].response.body;
    FirmwareRoundTrip(page, p, version);
    UptimeRoundTrip(page, q, uptime);
    assert page != [];
  }

  // ---- connectedDevices ----

  lemma {:induction false} DevicesEvents(env: Setup, s: State, es: seq<Event>, list: DeviceList)
    requires DevicesCall(env, s, es, list)
    ensures !s.loggedIn ==> WireOf(es) == [] && list == Listed([])
    ensures s.loggedIn ==>
            && |WireOf(es)| == 1 && WireOf(es)[0].request == GetRequest(env, s.cookies, DHCP_PATH)
            && var r := WireOf(es)[0].response;
               list == if SaysExpired(r) || r.error != [] || r.body == [] then Listed([]) else DevicesOf(r.body)
  {
    if s.loggedIn {
      OneMessage(s, es);
      ExpiredMeaning(es[0].response);
    }
  }

  /** What a device list says, for every page: nothing without a login, after an expiry, an error or an
      empty page; otherwise stoi throws exactly when some record's index exceeds 2147483647, and else
      the devices that the records describe are listed by increasing index. */
  lemma {:induction false} DeviceListMeaning(env: Setup, s: State, c: Call, ps: seq<nat>, rs: seq<RawRecord>)
    requires CallOk(env, s, c) && c.op.GetDevices?
    ensures !s.loggedIn ==> Wire(c) == [] && c.answer == Devices(Listed([]))
    ensures s.loggedIn ==> |Wire(c)| == 1
    ensures s.loggedIn ==>
            var r := Wire(c)[0].response;
            if SaysExpired(r) || r.error != [] || r.body == [] then c.answer == Devices(Listed([]))
            else AreRecords(r.body, 0, ps, rs) ==> ListsRecords(rs, c.answer.list)
  {
    DevicesEvents(env, s, c.events, c.answer.list);
    if s.loggedIn { RecordsListed(Wire(c)[0].response.body, ps, rs); }
  }

  lemma {:induction false} RecordsListed(page: ByteString, ps: seq<nat>, rs: seq<RawRecord>)
    ensures AreRecords(page, 0, ps, rs) ==> ListsRecords(rs, DevicesOf(page))
  {
    if AreRecords(page, 0, ps, rs) {
      DevicesMeaning(page, ps, rs);
      RecordsScanned(page, 0, ps, rs);
      ScannedIsRaw(page, 0);
    }
  }

  ghost predicate ListsRecords(rs: seq<RawRecord>, list: DeviceList) {
    && (forall r :: r in rs ==> AllDigits(r.index))
    && match list
       case IndexOutOfRange => exists r :: r in rs && DigitsValue(r.index) > 2147483647
       case Listed(devices) =>
         (forall r :: r in rs ==> DigitsValue(r.index) <= 2147483647) && ListsDescribed(ReadAll(rs), devices)
  }

  /** From printed table to answer: any table, its records in any order and amid any other text, comes
      back as its devices by increasing index. */
  lemma {:induction false} DeviceListRoundTrip(env: Setup, s: State, c: Call, lead: ByteString, rows: seq<Row>,
                                               rs: seq<RawRecord>, gaps: seq<ByteString>)
    requires CallOk(env, s, c) && c.op.GetDevices? && |Wire(c)| == 1 && IsRowTable(rows)
    requires var r := Wire(c)[0].response;
             !SaysExpired(r) && r.error == [] && IsTablePage(r.body, lead, rows, rs, gaps)
    ensures c.answer.list.Listed? && exists ks :: ShowsTable(rows, c.answer.list.devices, ks)
  {
    DevicesEvents(env, s, c.events, c.answer.list);
    var page := Wire(c)[0].response.body;
    DevicePageRoundTrip(page, lead, rows, rs, gaps);
    EmptyPageLists();
  }

  // ---- Requests ----

  /** The requests of a login, each described by its own cookies and body. */
  lemma {:induction false} LoginSends(env: Setup, s: State, username: ByteString, password: ByteString,
                                      es: seq<Event>, out: Outcome)
    requires LoginCall(env, s, username, password, es, out)
    ensures SendsLogin(env, es)
  {
    LoginStops(env, s, username, password, es, out);
    if |es| >= 3 {
      VerdictShape(env, Apply(Apply(s, es[0]), es[1]), es[1].response, es[2..], out);
      assert |es| == 4 ==> es[3] == es[2..][1];
    }
  }

  predicate IsGet(env: Setup, q: Request, path: ByteString) { q == GetRequest(env, q.cookies, path) }

  predicate IsPost(env: Setup, q: Request, path: ByteString) { q == PostRequest(env, q.cookies, path, q.body) }

  lemma {:induction false} GetMeaning(env: Setup, q: Request, path: ByteString)
    requires IsGet(env, q, path)
    ensures q.verb == Get && q.url == "http://" + env.routerIp + path && q.body == [] && q.timeoutSeconds == 10
    ensures q.headers == map["Referer" := "http://" + env.routerIp + "/"]
  {
  }

  lemma {:induction false} PostMeaning(env: Setup, q: Request, path: ByteString)
    requires IsPost(env, q, path)
    ensures q.verb == Post && q.url == "http://" + env.routerIp + path && q.timeoutSeconds == 10
    ensures q.headers == map["Content-Type" := "application/x-www-form-urlencoded",
                             "Referer" := "http://" + env.routerIp + "/"]
  {
  }

  /** The events of a login send these requests. */
  ghost predicate SendsLogin(env: Setup, es: seq<Event>) {
    && (|es| >= 2 ==> es[0].Sent? && IsGet(env, es[0].request, "/"))
    && (|es| >= 3 ==> es[1].Sent? && IsPost(env, es[1].request, "/"))
    && (|es| == 4 ==> es[3].Sent? && LOCATION in es[1].response.headers
                      && IsGet(env, es[3].request, es[1].response.headers[LOCATION]))
  }

  lemma {:induction false} ShapeMessages(env: Setup, es: seq<Event>, k: nat)
    requires LoginShape(env, es) && SendsLogin(env, es) && k < |WireOf(es)|
    ensures k == 0 ==> IsGet(env, WireOf(es)[k].request, "/")
    ensures k == 1 ==> IsPost(env, WireOf(es)[k].request, "/")
    ensures k >= 2 ==> k == 2 && LOCATION in WireOf(es)[1].response.headers
                       && IsGet(env, WireOf(es)[k].request, WireOf(es)[1].response.headers[LOCATION])
  {
    LoginWire(env, es);
  }

  lemma {:induction false} LoginMessages(env: Setup, s: State, username: ByteString, password: ByteString,
                                         es: seq<Event>, out: Outcome, k: nat)
    requires LoginCall(env, s, username, password, es, out) && k < |WireOf(es)|
    ensures k == 0 ==> IsGet(env, WireOf(es)[k].request, "/")
    ensures k == 1 ==> IsPost(env, WireOf(es)[k].request, "/")
    ensures k >= 2 ==> k == 2 && LOCATION in WireOf(es)[1].response.headers
                       && IsGet(env, WireOf(es)[k].request, WireOf(es)[1].response.headers[LOCATION])
  {
    LoginHasShape(env, s, username, password, es, out);
    LoginSends(env, s, username, password, es, out);
    ShapeMessages(env, es, k);
  }

  lemma {:induction false} FilterSends(env: Setup, s: State, op: Op, es: seq<Event>, out: Outcome, k: nat)
    requires (op.Block? || op.Unblock?) && AclCall(env, s, op, es, out) && k < |WireOf(es)|
    ensures k == 0 ==> IsGet(env, WireOf(es)[k].request, ACL_PATH)
    ensures k >= 1 ==> k == 1 && IsPost(env, WireOf(es)[k].request, ACL_PATH)
  {
    FilterMessages(env, s, op, es, out);
    FilterRequests(env, s, op, es, out);
  }

  lemma {:induction false} FilterRequests(env: Setup, s: State, op: Op, es: seq<Event>, out: Outcome)
    requires (op.Block? || op.Unblock?) && AclCall(env, s, op, es, out)
    ensures |es| >= 1 ==> es[0].Sent? && IsGet(env, es[0].request, ACL_PATH)
    ensures |es| >= 2 ==> es[1].Sent? && IsPost(env, es[1].request, ACL_PATH)
  {
  }

  /** The request that an operation sends as its message `k`: method, address and what it carries
      besides cookies and form. */
  lemma {:induction false} RequestMeaning(env: Setup, s: State, c: Call, k: nat)
    requires CallOk(env, s, c) && k < |Wire(c)|
    ensures var q, site := Wire(c)[k].request, "http://" + env.routerIp;
            && q.timeoutSeconds == 10
            && (if k == 1 then q.verb == Post else q.verb == Get && q.body == [])
            && q.headers == (if k == 1
                             then map["Content-Type" := "application/x-www-form-urlencoded", "Referer" := site + "/"]
                             else map["Referer" := site + "/"])
            && match c.op
               case Login(_, _) => k < 2 ==> q.url == site + "/"
               case Logout => q.url == site + ("/getpage.gch?pid=1001&" + "nextpage=logoff.gch")
               case GetRouterInfo => q.url == site + ("/getpage.gch?pid=1002&" + "nextpage=status_dev_info_t.gch")
               case GetDevices => q.url == site + ("/getpage.gch?pid=1002&" + "nextpage=net_dhcp_dynamic_t.gch")
               case Block(_) => q.url == site + ("/getpage.gch?pid=1002&" + "nextpage=net_wlanm_macfilter1_t.gch")
               case Unblock(_) => q.url == site + ("/getpage.gch?pid=1002&" + "nextpage=net_wlanm_macfilter1_t.gch")
  {
    var path := CallSends(env, s, c, k);
    if k == 1 { PostMeaning(env, Wire(c)[k].request, path); } else { GetMeaning(env, Wire(c)[k].request, path); }
  }

  lemma {:induction false} CallSends(env: Setup, s: State, c: Call, k: nat) returns (path: ByteString)
    requires CallOk(env, s, c) && k < |Wire(c)|
    ensures if k == 1 then IsPost(env, Wire(c)[k].request, path) else IsGet(env, Wire(c)[k].request, path)
    ensures match c.op
            case Login(_, _) => k < 2 ==> path == "/"
            case Logout => path == LOGOFF_PATH
            case GetRouterInfo => path == INFO_PATH
            case GetDevices => path == DHCP_PATH
            case Block(_) => path == ACL_PATH
            case Unblock(_) => path == ACL_PATH
  {
    match c.op
    case Login(u, p) =>
      LoginMessages(env, s, u, p, c.events, c.answer.outcome, k);
      path := if k < 2 then "/" else Wire(c)[1].response.headers[LOCATION];
    case Logout =>
      LogoutEvents(env, s, c.events, c.answer.outcome);
      path := LOGOFF_PATH;
    case GetRouterInfo =>
      InfoEvents(env, s, c.events, c.answer.info);
      path := INFO_PATH;
    case GetDevices =>
      DevicesEvents(env, s, c.events, c.answer.list);
      path := DHCP_PATH;
    case Block(_) =>
      FilterSends(env, s, c.op, c.events, c.answer.outcome, k);
      path := ACL_PATH;
    case Unblock(_) =>
      FilterSends(env, s, c.op, c.events, c.answer.outcome, k);
      path := ACL_PATH;
  }
}
