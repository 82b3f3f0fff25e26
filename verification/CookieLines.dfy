/** What the jar read from response headers holds, stated on the text of the headers. */
module CookieLines {
  import opened Bytes
  import opened Cookies

  // ---- One line ----

  /** The cookie that stands at `p`: a name, an equals sign and a value, ended by a semicolon, the end of
      the line or the end of the text, and no end of a line before that. */
  ghost predicate CookieStands(t: ByteString, p: nat, name: ByteString, value: ByteString) {
    && '=' !in name && ';' !in name && ';' !in value
    && PairEnds(t, p, name + ("=" + value), p + |name| + 1 + |value|)
  }

  ghost predicate PairEnds(t: ByteString, p: nat, pair: ByteString, e: nat) {
    && OccursAt(t, pair, p)
    && (forall j :: p <= j < e ==> !OccursAt(t, "\r\n", j))
    && (e == |t| || OccursAt(t, ";", e) || OccursAt(t, "\r\n", e))
  }

  /** The text before a pattern, or all of it. */
  lemma {:induction false} UptoMeaning(text: ByteString, pattern: ByteString, u: ByteString)
    ensures Upto(text, pattern) == u <==>
              && u <= text && (forall j :: 0 <= j < |u| ==> !OccursAt(text, pattern, j))
              && (OccursAt(text, pattern, |u|) || (u == text && !OccursAt(text, pattern, |u|)
                                                   && forall j :: 0 <= j ==> !OccursAt(text, pattern, j)))
  {
    var k := Find(text, pattern, 0);
    if u <= text && OccursAt(text, pattern, |u|) && forall j :: 0 <= j < |u| ==> !OccursAt(text, pattern, j) {
      FindIs(text, pattern, 0, |u|);
      assert text[..|u|] == u;
    }
  }

  lemma {:induction false} OccursInRest(t: ByteString, p: nat, pattern: ByteString, j: nat)
    requires p <= |t|
    ensures OccursAt(t[p..], pattern, j) <==> OccursAt(t, pattern, p + j)
  {
    if p + j + |pattern| <= |t| { assert t[p..][j..j + |pattern|] == t[p + j..p + j + |pattern|]; }
  }

  /** Where the line that begins at `p` ends. */
  lemma {:induction false} LineEnds(t: ByteString, p: nat)
    requires p <= |t|
    ensures var e := p + |LineAt(t, p)|;
            && e <= |t| && LineAt(t, p) == t[p..e]
            && (forall j :: p <= j < e ==> !OccursAt(t, "\r\n", j))
            && (e == |t| || OccursAt(t, "\r\n", e))
  {
    var line := LineAt(t, p);
    UptoMeaning(t[p..], "\r\n", line);
    forall j | p <= j < p + |line| ensures !OccursAt(t, "\r\n", j) { OccursInRest(t, p, "\r\n", j - p); }
    OccursInRest(t, p, "\r\n", |line|);
  }

  /** What a line gives before its first semicolon. */
  lemma {:induction false} PartEnds(line: ByteString, u: ByteString)
    ensures Upto(line, ";") == u <==>
              u <= line && ';' !in u && (u == line || line[|u|] == ';')
  {
    UptoMeaning(line, ";", u);
    forall j | 0 <= j < |line| ensures OccursAt(line, ";", j) <==> line[j] == ';' {
      assert line[j..j + 1] == [line[j]];
    }
    if u <= line { assert forall j :: 0 <= j < |u| ==> u[j] == line[j]; }
  }

  lemma {:induction false} SplitMeaning(part: ByteString, name: ByteString, value: ByteString)
    ensures (match Find(part, "=", 0) case None => false case Some(k) => part[..k] == name && part[k + 1..] == value)
            <==> '=' !in name && part == name + ("=" + value)
  {
    if '=' !in name && part == name + ("=" + value) {
      assert part[|name|] == '=' && part[0..|name|] == name;
      FindSeparator(part, '=', 0, |name|);
      assert part[|name| + 1..] == value;
    }
    match Find(part, "=", 0)
    case None =>
    case Some(k) =>
      assert part[k..k + 1] == "=";
      assert part == part[..k] + ([part[k]] + part[k + 1..]);
      forall j | 0 <= j < k ensures part[j] != '=' {
        assert !OccursAt(part, "=", j);
        assert part[j..j + 1] == [part[j]];
      }
  }

  lemma {:induction false} LineGives(line: ByteString, name: ByteString, value: ByteString)
    ensures PairOf(line) == Some(Cookie(name, value)) <==>
            '=' !in name && Upto(line, ";") == name + ("=" + value)
  {
    SplitMeaning(Upto(line, ";"), name, value);
  }

  lemma {:induction false} PairOnLine(t: ByteString, p: nat, u: ByteString, e: nat)
    requires p <= |t| && e == p + |u| && ';' !in u
    ensures Upto(LineAt(t, p), ";") == u <==> PairEnds(t, p, u, e)
  {
    var line := LineAt(t, p);
    LineEnds(t, p);
    PartEnds(line, u);
    assert OccursAt(t, ";", e) <==> e < |t| && t[e] == ';' by {
      if e < |t| { assert t[e..e + 1] == [t[e]]; }
    }
    if |u| <= |line| {
      assert line[..|u|] == t[p..e];
      assert |u| < |line| ==> line[|u|] == t[e];
    }
  }

  /** What the client reads at `p` is the cookie that stands there. */
  lemma {:induction false} CookieAtMeaning(t: ByteString, p: nat, name: ByteString, value: ByteString)
    requires p <= |t|
    ensures CookieAt(t, p) == Some(Cookie(name, value)) <==> CookieStands(t, p, name, value)
  {
    var u := name + ("=" + value);
    LineGives(LineAt(t, p), name, value);
    PartEnds(LineAt(t, p), u);
    SemicolonIn(name, value);
    if ';' !in u { PairOnLine(t, p, u, p + |u|); }
  }

  lemma {:induction false} SemicolonIn(name: ByteString, value: ByteString)
    ensures ';' in name + ("=" + value) <==> ';' in name || ';' in value
  {
    var u := name + ("=" + value);
    assert u[..|name|] == name && u[|name| + 1..] == value && u[|name|] == '=';
  }

  // ---- All of them ----

  /** A header line at `q` gives the name this value. */
  ghost predicate SetsAt(t: ByteString, q: nat, name: ByteString, value: ByteString) {
    OccursAt(t, "Set-Cookie: ", q) && CookieStands(t, q + 12, name, value)
  }

  ghost predicate NamedAt(t: ByteString, q: nat, name: ByteString) {
    exists value :: SetsAt(t, q, name, value)
  }

  /** No line from `i` on gives the name a value. */
  ghost predicate NotNamed(t: ByteString, i: nat, name: ByteString) {
    forall q: nat :: i <= q ==> !NamedAt(t, q, name)
  }

  /** The last line from `i` on that gives the name a value gives this one. */
  ghost predicate LastSets(t: ByteString, i: nat, name: ByteString, value: ByteString) {
    exists q: nat :: i <= q && SetsAt(t, q, name, value) && NotNamed(t, q + 1, name)
  }

  ghost predicate Maps(jar: Jar, name: ByteString, value: ByteString) {
    name in jar && jar[name] == value
  }

  lemma {:induction false} NotNamedStep(t: ByteString, i: nat, name: ByteString)
    ensures NotNamed(t, i, name) <==> !NamedAt(t, i, name) && NotNamed(t, i + 1, name)
  {
  }

  lemma {:induction false} LastSetsStep(t: ByteString, i: nat, name: ByteString, value: ByteString)
    ensures LastSets(t, i, name, value) <==>
            LastSets(t, i + 1, name, value) || (SetsAt(t, i, name, value) && NotNamed(t, i + 1, name))
  {
    if q: nat :| i + 1 <= q && SetsAt(t, q, name, value) && NotNamed(t, q + 1, name) {}
  }

  /** One line's effect on the jar, for one name. */
  lemma {:induction false} StoredMeaning(t: ByteString, i: nat, jar: Jar, name: ByteString, value: ByteString)
    requires OccursAt(t, SET_COOKIE, i)
    ensures Maps(Stored(jar, CookieAt(t, i + 12)), name, value) <==>
            SetsAt(t, i, name, value) || (!NamedAt(t, i, name) && Maps(jar, name, value))
  {
    CookieAtMeaning(t, i + 12, name, value);
    match CookieAt(t, i + 12)
    case None => forall v ensures !SetsAt(t, i, name, v) { CookieAtMeaning(t, i + 12, name, v); }
    case Some(c) =>
      CookieAtMeaning(t, i + 12, c.name, c.value);
      assert SetsAt(t, i, c.name, c.value);
      forall v ensures SetsAt(t, i, name, v) <==> c == Cookie(name, v) { CookieAtMeaning(t, i + 12, name, v); }
  }

  /** Beyond the text nothing stands. */
  lemma {:induction false} NothingBeyond(t: ByteString, i: nat, name: ByteString)
    requires i >= |t|
    ensures NotNamed(t, i, name)
  {
  }

  /** A cookie read from the headers is the last that a line gives its name; other names stay as they
      were. */
  lemma {:induction false} CookiesFromMeaning(t: ByteString, i: nat, jar: Jar, name: ByteString, value: ByteString)
    ensures Maps(AllCookies(t, i, jar), name, value) <==>
            LastSets(t, i, name, value) || (NotNamed(t, i, name) && Maps(jar, name, value))
    decreases |t| - i
  {
    if i >= |t| {
      NothingBeyond(t, i, name);
    } else {
      NotNamedStep(t, i, name);
      LastSetsStep(t, i, name, value);
      if OccursAt(t, SET_COOKIE, i) {
        CookiesFromMeaning(t, i + 1, Stored(jar, CookieAt(t, i + 12)), name, value);
        StoredMeaning(t, i, jar, name, value);
      } else {
        CookiesFromMeaning(t, i + 1, jar, name, value);
      }
    }
  }
}
