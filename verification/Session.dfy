/** The client's session as a function of what has happened, and what that function means. */
module Session {
  import opened Bytes
  import opened Cookies
  import opened Http

  /** What the client did: an exchange, or a decision about the login. */
  datatype Event =
    | Sent(request: Request, response: Response)
    | Accepted
    | Rejected
    | LoggedOut

  /** The mutable fields loggedIn_, sessionToken_ and cookies_. */
  datatype State = State(loggedIn: bool, sessionToken: ByteString, cookies: Jar)

  const FRESH: State := State(false, [], map[])

  const LOCATION: ByteString := "Location"
  const LOGIN_FORM: ByteString := "Frm_Logintoken"

  /** A response that means the session is over. */
  predicate Expired(r: Response) {
    || r.statusCode == 401
    || (LOCATION in r.headers && Contains(r.headers[LOCATION], "login"))
    || Contains(r.body, LOGIN_FORM)
  }

  /** The same, read off the response: status 401, a redirect to a login page, or a login form. */
  ghost predicate SaysExpired(r: Response) {
    || r.statusCode == 401
    || ("Location" in r.headers && Holds(r.headers["Location"], "login"))
    || Holds(r.body, "Frm_Logintoken")
  }

  lemma {:induction false} ExpiredMeaning(r: Response)
    ensures Expired(r) <==> SaysExpired(r)
  {
    if "Location" in r.headers { ContainsMeaning(r.headers["Location"], "login"); }
    ContainsMeaning(r.body, "Frm_Logintoken");
  }

  /** mergeCookies, then checkSessionExpiration. */
  function Receive(s: State, r: Response): State {
    var merged := s.(cookies := s.cookies + r.cookies);
    if s.loggedIn && Expired(r) then FRESH else merged
  }

  function Apply(s: State, e: Event): State {
    match e
    case Sent(_, r) => Receive(s, r)
    case Accepted => s.(loggedIn := true)
    case Rejected => s.(loggedIn := false)
    case LoggedOut => FRESH
  }

  /** What a response does to the session: all three fields are cleared exactly when the client was
      logged in and the response says that the session is over; otherwise its cookies are merged. */
  lemma {:induction false} ResponseMeaning(s: State, request: Request, r: Response)
    ensures var after := Apply(s, Sent(request, r));
            if s.loggedIn
               && (|| r.statusCode == 401
                   || ("Location" in r.headers && exists p :: OccursAt(r.headers["Location"], "login", p))
                   || exists p :: OccursAt(r.body, "Frm_Logintoken", p))
            then after == State(false, [], map[])
            else after == State(s.loggedIn, s.sessionToken, s.cookies + r.cookies)
  {
    ExpiredMeaning(r);
  }

  function ReplayFrom(s: State, log: seq<Event>): State {
    if log == [] then s else Apply(ReplayFrom(s, log[..|log| - 1]), log[|log| - 1])
  }

  function Replay(log: seq<Event>): State {
    ReplayFrom(FRESH, log)
  }

  lemma {:induction false} ReplaySnoc(s: State, log: seq<Event>, e: Event)
    ensures ReplayFrom(s, log + [e]) == Apply(ReplayFrom(s, log), e)
  {
    assert (log + [e])[..|log|] == log;
  }

  lemma {:induction false} ReplayConcat(s: State, a: seq<Event>, b: seq<Event>)
    ensures ReplayFrom(s, a + b) == ReplayFrom(ReplayFrom(s, a), b)
  {
    if b == [] {
      assert a + b == a;
    } else {
      var init, l := b[..|b| - 1], b[|b| - 1];
      assert a + b == (a + init) + [l];
      ReplayConcat(s, a, init);
      ReplaySnoc(s, a + init, l);
    }
  }

  // ---- The messages among the events ----

  ghost function MessageOf(e: Event): seq<Exchange> {
    if e.Sent? then [Exchange(e.request, e.response)] else []
  }

  ghost function WireOf(log: seq<Event>): seq<Exchange> {
    if log == [] then [] else WireOf(log[..|log| - 1]) + MessageOf(log[|log| - 1])
  }

  lemma {:induction false} WireConcat(a: seq<Event>, b: seq<Event>)
    ensures WireOf(a + b) == WireOf(a) + WireOf(b)
  {
    if b == [] {
      assert a + b == a;
    } else {
      assert (a + b)[..|a + b| - 1] == a + b[..|b| - 1];
      WireConcat(a, b[..|b| - 1]);
    }
  }

  /** Every message is that of some event. */
  lemma {:induction false} MessageEvent(log: seq<Event>, k: nat) returns (j: nat)
    requires k < |WireOf(log)|
    ensures j < |log| && log[j].Sent? && WireOf(log)[k] == Exchange(log[j].request, log[j].response)
  {
    var init := log[..|log| - 1];
    if k < |WireOf(init)| { j := MessageEvent(init, k); } else { j := |log| - 1; }
  }

  /** The state and the messages of up to four events. */
  lemma {:induction false} Effects(s: State, es: seq<Event>)
    requires |es| <= 4
    ensures es == [] ==> ReplayFrom(s, es) == s && WireOf(es) == []
    ensures |es| == 1 ==> ReplayFrom(s, es) == Apply(s, es[0]) && WireOf(es) == MessageOf(es[0])
    ensures |es| == 2 ==> ReplayFrom(s, es) == Apply(Apply(s, es[0]), es[1])
                          && WireOf(es) == MessageOf(es[0]) + MessageOf(es[1])
    ensures |es| == 3 ==> ReplayFrom(s, es) == Apply(Apply(Apply(s, es[0]), es[1]), es[2])
                          && WireOf(es) == MessageOf(es[0]) + MessageOf(es[1]) + MessageOf(es[2])
    ensures |es| == 4 ==> ReplayFrom(s, es) == Apply(Apply(Apply(Apply(s, es[0]), es[1]), es[2]), es[3])
                          && WireOf(es) == MessageOf(es[0]) + MessageOf(es[1]) + MessageOf(es[2]) + MessageOf(es[3])
    decreases |es|
  {
    if es != [] { Effects(s, es[..|es| - 1]); }
  }

  // ---- Being logged in ----

  /** An event after which no login survives: stated on the event alone. */
  ghost predicate Ends(e: Event) {
    match e
    case Sent(_, r) => SaysExpired(r)
    case Accepted => false
    case Rejected => true
    case LoggedOut => true
  }

  /** The login accepted at `j` has not ended since. */
  ghost predicate AliveSince(log: seq<Event>, j: int) {
    && 0 <= j < |log| && log[j].Accepted?
    && forall k :: j < k < |log| ==> !Ends(log[k])
  }

  ghost predicate Alive(log: seq<Event>) {
    exists j :: AliveSince(log, j)
  }

  /** The client is logged in exactly when some accepted login has not ended since. */
  lemma {:induction false} LoggedInMeaning(log: seq<Event>)
    ensures Replay(log).loggedIn <==> Alive(log)
  {
    if log != [] {
      var init, e := log[..|log| - 1], log[|log| - 1];
      assert log == init + [e];
      LoggedInMeaning(init);
      if e.Sent? { ExpiredMeaning(e.response); }
      if j :| AliveSince(init, j) {
        if !Ends(e) { assert AliveSince(log, j); }
      }
      if e.Accepted? { assert AliveSince(log, |log| - 1); }
      if j :| AliveSince(log, j) {
        if j < |init| { assert AliveSince(init, j); }
      }
    }
  }

  /** The field sessionToken_ never holds anything. */
  lemma {:induction false} TokenStaysEmpty(log: seq<Event>)
    ensures Replay(log).sessionToken == []
  {
    if log != [] { TokenStaysEmpty(log[..|log| - 1]); }
  }

  // ---- The cookie jar ----

  /** Event `k` empties the jar: a logout, or an expiry noticed while logged in. */
  ghost predicate ResetAt(log: seq<Event>, k: int)
    requires 0 <= k < |log|
  {
    log[k].LoggedOut? || (log[k].Sent? && SaysExpired(log[k].response) && Alive(log[..k]))
  }

  /** Response `j` set the cookie, and since then nothing reset the jar or set it again. */
  ghost predicate LastSetAt(log: seq<Event>, j: int, name: ByteString, value: ByteString) {
    && 0 <= j < |log| && log[j].Sent?
    && name in log[j].response.cookies && log[j].response.cookies[name] == value
    && (forall k :: j <= k < |log| ==> !ResetAt(log, k))
    && forall k :: j < k < |log| && log[k].Sent? ==> name !in log[k].response.cookies
  }

  /** The jar holds exactly the cookies last set since the last reset. */
  lemma {:induction false} JarMeaning(log: seq<Event>, name: ByteString, value: ByteString)
    ensures (name in Replay(log).cookies && Replay(log).cookies[name] == value)
            <==> exists j :: LastSetAt(log, j, name, value)
  {
    if log != [] {
      var n := |log| - 1;
      var init, e := log[..n], log[n];
      assert log == init + [e];
      JarMeaning(init, name, value);
      LoggedInMeaning(init);
      if e.Sent? { ExpiredMeaning(e.response); }
      assert log[..n] == init;
      forall k | 0 <= k < n ensures ResetAt(log, k) == ResetAt(init, k) {
        assert log[..k] == init[..k];
      }
      if j :| LastSetAt(init, j, name, value) {
        if !ResetAt(log, n) && !(e.Sent? && name in e.response.cookies) { assert LastSetAt(log, j, name, value); }
      }
      if e.Sent? && name in e.response.cookies && e.response.cookies[name] == value && !ResetAt(log, n) {
        assert LastSetAt(log, n, name, value);
      }
      if j :| LastSetAt(log, j, name, value) {
        if j < n {
          assert LastSetAt(init, j, name, value);
          assert !ResetAt(log, n);
        }
      }
    }
  }

  /** If every response's cookies are safe on the wire, so is the jar. */
  lemma {:induction false} JarIsSafe(log: seq<Event>)
    requires forall e :: e in log && e.Sent? ==> WireSafe(e.response.cookies)
    ensures WireSafe(Replay(log).cookies)
  {
    if log != [] {
      var e := log[|log| - 1];
      assert e in log;
      JarIsSafe(log[..|log| - 1]);
    }
  }

  // ---- Logs whose requests are in order ----

  /** A request carries the jar of its moment; and only login's own requests go out while
      not logged in. */
  predicate InOrder(root: ByteString, s: State, e: Event) {
    e.Sent? ==> e.request.cookies == s.cookies && (s.loggedIn || e.request.url == root)
  }

  ghost predicate AllInOrder(root: ByteString, s: State, log: seq<Event>) {
    forall i :: 0 <= i < |log| ==> InOrder(root, ReplayFrom(s, log[..i]), log[i])
  }

  lemma {:induction false} TakeConcat(a: seq<Event>, b: seq<Event>, i: nat)
    requires i < |a + b|
    ensures i < |a| ==> (a + b)[..i] == a[..i] && (a + b)[i] == a[i]
    ensures i >= |a| ==> (a + b)[..i] == a + b[..i - |a|] && (a + b)[i] == b[i - |a|]
  {
  }

  lemma {:induction false} OrderConcat(root: ByteString, s: State, a: seq<Event>, b: seq<Event>)
    requires AllInOrder(root, s, a) && AllInOrder(root, ReplayFrom(s, a), b)
    ensures AllInOrder(root, s, a + b)
  {
    forall i: nat | i < |a + b| ensures InOrder(root, ReplayFrom(s, (a + b)[..i]), (a + b)[i]) {
      TakeConcat(a, b, i);
      if i >= |a| { ReplayConcat(s, a, b[..i - |a|]); }
    }
  }
}
