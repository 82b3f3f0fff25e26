/** Cookies on the wire: reading Set-Cookie headers and writing the Cookie header. */
module Cookies {
  import opened Bytes

  /** A std::map from cookie names to values. */
  type Jar = map<ByteString, ByteString>

  datatype Cookie = Cookie(name: ByteString, value: ByteString)

  // ---- Reading Set-Cookie headers ----

  const SET_COOKIE: ByteString := "Set-Cookie: "

  /** The text before the first `pattern`, or all of it. */
  function Upto(text: ByteString, pattern: ByteString): ByteString {
    match Find(text, pattern, 0) case Some(k) => text[..k] case None => text
  }

  /** The cookie of a line: the text up to its first `;`, split at its first `=`. Without an `=` there
      is none. */
  function PairOf(line: ByteString): Option<Cookie> {
    var part := Upto(line, ";");
    match Find(part, "=", 0)
    case Some(k) => Some(Cookie(part[..k], part[k + 1..]))
    case None => None
  }

  /** The line that begins at `p`. */
  function LineAt(headers: ByteString, p: nat): ByteString
    requires p <= |headers|
  {
    Upto(headers[p..], "\r\n")
  }

  function CookieAt(headers: ByteString, p: nat): Option<Cookie>
    requires p <= |headers|
  {
    PairOf(LineAt(headers, p))
  }

  function Stored(jar: Jar, c: Option<Cookie>): Jar {
    match c case Some(k) => jar[k.name := k.value] case None => jar
  }

  /** Every occurrence of the prefix from position `i` on, later ones winning. */
  function AllCookies(headers: ByteString, i: nat, jar: Jar): Jar
    decreases |headers| - i
  {
    if i >= |headers| then jar
    else if OccursAt(headers, SET_COOKIE, i) then AllCookies(headers, i + 1, Stored(jar, CookieAt(headers, i + 12)))
    else AllCookies(headers, i + 1, jar)
  }

  /** The prefix does not overlap itself. */
  lemma {:induction false} NoOverlap(headers: ByteString, k: nat, j: nat)
    requires OccursAt(headers, SET_COOKIE, k) && k < j < k + 12
    ensures !OccursAt(headers, SET_COOKIE, j)
  {
    assert headers[j] == headers[k..k + 12][j - k];
    assert SET_COOKIE[j - k] != 'S';
    if j + 12 <= |headers| { assert headers[j..j + 12][0] == headers[j]; }
  }

  lemma {:induction false} SkipGap(headers: ByteString, i: nat, k: nat, jar: Jar)
    requires i <= k && forall j :: i <= j < k ==> !OccursAt(headers, SET_COOKIE, j)
    ensures AllCookies(headers, i, jar) == AllCookies(headers, k, jar)
    decreases k - i
  {
    if i < k { SkipGap(headers, i + 1, k, jar); }
  }

  lemma {:induction false} SkipPrefix(headers: ByteString, k: nat, jar: Jar)
    requires OccursAt(headers, SET_COOKIE, k)
    ensures k + 12 <= |headers|
    ensures AllCookies(headers, k, jar) == AllCookies(headers, k + 12, Stored(jar, CookieAt(headers, k + 12)))
  {
    forall j | k + 1 <= j < k + 12 ensures !OccursAt(headers, SET_COOKIE, j) { NoOverlap(headers, k, j); }
    SkipGap(headers, k + 1, k + 12, Stored(jar, CookieAt(headers, k + 12)));
  }

  lemma {:induction false} NextCookie(headers: ByteString, pos: nat, k: nat, jar: Jar)
    requires Find(headers, SET_COOKIE, pos) == Some(k)
    ensures k + 12 <= |headers|
    ensures AllCookies(headers, pos, jar) == AllCookies(headers, k + 12, Stored(jar, CookieAt(headers, k + 12)))
  {
    SkipGap(headers, pos, k, jar);
    SkipPrefix(headers, k, jar);
  }

  lemma {:induction false} NoMoreCookies(headers: ByteString, pos: nat, jar: Jar)
    requires pos <= |headers| && Find(headers, SET_COOKIE, pos) == None
    ensures AllCookies(headers, pos, jar) == jar
  {
    SkipGap(headers, pos, |headers|, jar);
  }

  /** One turn of the loop: the next prefix, and the cookie behind it. */
  method TakeCookie(headers: ByteString, pos: nat, jar: Jar) returns (next: Option<nat>, longer: Jar)
    requires pos <= |headers|
    ensures next.Some? ==> pos < next.value <= |headers|
    ensures next.Some? ==> AllCookies(headers, pos, jar) == AllCookies(headers, next.value, longer)
    ensures next.None? ==> longer == jar == AllCookies(headers, pos, jar)
  {
    var found := Find(headers, SET_COOKIE, pos);
    if found.None? {
      NoMoreCookies(headers, pos, jar);
      return None, jar;
    }
    var k := found.value;
    NextCookie(headers, pos, k, jar);
    var cookie := ReadCookie(headers, k + 12);
    longer := Stored(jar, cookie);
    next := Some(k + 12);
  }

  /** Advancing past each prefix misses no occurrence. */
  method ParseCookies(headers: ByteString, before: Jar) returns (jar: Jar)
    ensures jar == AllCookies(headers, 0, before)
  {
    var pos := 0;
    var next;
    next, jar := TakeCookie(headers, pos, before);
    while next.Some?
      invariant pos <= |headers| && (next.Some? ==> pos < next.value <= |headers|)
      invariant next.Some? ==> AllCookies(headers, 0, before) == AllCookies(headers, next.value, jar)
      invariant next.None? ==> AllCookies(headers, 0, before) == jar
      decreases next.Some?, |headers| - pos
    {
      pos := next.value;
      next, jar := TakeCookie(headers, pos, jar);
    }
  }

  method ReadCookie(headers: ByteString, pos: nat) returns (cookie: Option<Cookie>)
    requires pos <= |headers|
    ensures cookie == CookieAt(headers, pos)
  {
    var part := headers[pos..];
    var eol := Find(part, "\r\n", 0);
    if eol.Some? { part := part[..eol.value]; }
    var semi := Find(part, ";", 0);
    if semi.Some? { part := part[..semi.value]; }
    var eq := Find(part, "=", 0);
    if eq.Some? { return Some(Cookie(part[..eq.value], part[eq.value + 1..])); }
    return None;
  }

  // ---- What such a jar can hold ----

  predicate SafeCookie(name: ByteString, value: ByteString) {
    '=' !in name && ';' !in name && ';' !in value
  }

  ghost predicate WireSafe(jar: Jar) {
    forall n :: n in jar ==> SafeCookie(n, jar[n])
  }

  lemma {:induction false} BeforeFound(text: ByteString, sep: byte)
    ensures sep !in Upto(text, [sep])
  {
    var u := Upto(text, [sep]);
    if sep in u {
      var j :| 0 <= j < |u| && u[j] == sep;
      assert text[j..j + 1] == [sep];
      assert OccursAt(text, [sep], j);
    }
  }

  lemma {:induction false} CookieIsSafe(headers: ByteString, p: nat)
    requires p <= |headers| && CookieAt(headers, p).Some?
    ensures var c := CookieAt(headers, p).value; SafeCookie(c.name, c.value)
  {
    var line := Upto(headers[p..], "\r\n");
    var part := Upto(line, ";");
    BeforeFound(line, ';');
    BeforeFound(part, '=');
  }

  lemma {:induction false} ParsedIsSafe(headers: ByteString, i: nat, jar: Jar)
    requires WireSafe(jar)
    ensures WireSafe(AllCookies(headers, i, jar))
    decreases |headers| - i
  {
    if i < |headers| {
      if OccursAt(headers, SET_COOKIE, i) {
        var c := CookieAt(headers, i + 12);
        if c.Some? { CookieIsSafe(headers, i + 12); }
        ParsedIsSafe(headers, i + 1, Stored(jar, c));
      } else {
        ParsedIsSafe(headers, i + 1, jar);
      }
    }
  }

  lemma {:induction false} MergedIsSafe(a: Jar, b: Jar)
    requires WireSafe(a) && WireSafe(b)
    ensures WireSafe(a + b)
  {
  }

  // ---- Writing the Cookie header ----

  /** std::string's order: by the first differing byte, a proper prefix first. */
  predicate LexLess(a: ByteString, b: ByteString) {
    b != [] && (a == [] || a[0] < b[0] || (a[0] == b[0] && LexLess(a[1..], b[1..])))
  }

  /** Names agree up to some position, where the first ends or has the smaller byte. */
  ghost predicate SmallerAt(a: ByteString, b: ByteString, k: nat) {
    k <= |a| && k < |b| && a[..k] == b[..k] && (k == |a| || a[k] < b[k])
  }

  lemma {:induction false} LexMeaning(a: ByteString, b: ByteString)
    ensures LexLess(a, b) <==> exists k: nat :: SmallerAt(a, b, k)
  {
    forall k: nat | SmallerAt(a, b, k) ensures k == 0 || SameHead(a, b) { SmallerHead(a, b, k); }
    if !SameHead(a, b) {
      if b != [] && (a == [] || a[0] < b[0]) { assert SmallerAt(a, b, 0); }
    } else {
      LexMeaning(a[1..], b[1..]);
      if k: nat :| SmallerAt(a[1..], b[1..], k) { SmallerLater(a, b, k); }
      if k: nat :| SmallerAt(a, b, k) { SmallerEarlier(a, b, k); }
    }
  }

  predicate SameHead(a: ByteString, b: ByteString) { a != [] && b != [] && a[0] == b[0] }

  lemma {:induction false} SmallerHead(a: ByteString, b: ByteString, k: nat)
    requires SmallerAt(a, b, k)
    ensures k == 0 || SameHead(a, b)
  {
    if k > 0 { assert a[0] == a[..k][0] && b[0] == b[..k][0]; }
  }

  lemma {:induction false} SmallerLater(a: ByteString, b: ByteString, k: nat)
    requires a != [] && b != [] && a[0] == b[0] && SmallerAt(a[1..], b[1..], k)
    ensures SmallerAt(a, b, k + 1)
  {
    assert a[..k + 1] == [a[0]] + a[1..][..k] && b[..k + 1] == [b[0]] + b[1..][..k];
  }

  lemma {:induction false} SmallerEarlier(a: ByteString, b: ByteString, k: nat)
    requires a != [] && b != [] && a[0] == b[0] && SmallerAt(a, b, k)
    ensures k > 0 && SmallerAt(a[1..], b[1..], k - 1)
  {
    assert a[1..][..k - 1] == a[..k][1..] && b[1..][..k - 1] == b[..k][1..];
  }

  lemma {:induction false} LexTotal(a: ByteString, b: ByteString)
    ensures a == b || LexLess(a, b) || LexLess(b, a)
    ensures !(LexLess(a, b) && LexLess(b, a)) && !LexLess(a, a)
  {
    if a != [] { LexSelf(a); }
    if a != [] && b != [] && a[0] == b[0] {
      LexTotal(a[1..], b[1..]);
      assert a == [a[0]] + a[1..] && b == [b[0]] + b[1..];
    }
  }

  lemma {:induction false} LexSelf(a: ByteString)
    ensures !LexLess(a, a)
  {
    if a != [] { LexSelf(a[1..]); }
  }

  lemma {:induction false} LexTransitive(a: ByteString, b: ByteString, c: ByteString)
    requires LexLess(a, b) && LexLess(b, c)
    ensures LexLess(a, c)
  {
    if a != [] && a[0] == b[0] == c[0] { LexTransitive(a[1..], b[1..], c[1..]); }
  }

  predicate IsLeastName(names: set<ByteString>, m: ByteString) {
    m in names && forall k :: k in names ==> k == m || LexLess(m, k)
  }

  lemma {:induction false} LeastNameExists(names: set<ByteString>)
    requires names != {}
    ensures exists m :: IsLeastName(names, m)
    decreases |names|
  {
    var m :| m in names;
    var rest := names - {m};
    assert forall k :: k in names <==> k in rest || k == m;
    if rest == {} {
      assert IsLeastName(names, m);
    } else {
      LeastNameExists(rest);
      var l :| IsLeastName(rest, l);
      LexTotal(l, m);
      if LexLess(l, m) {
        assert IsLeastName(names, l);
      } else {
        forall k | k in names ensures k == m || LexLess(m, k) {
          if k in rest && k != l { LexTransitive(m, l, k); }
        }
        assert IsLeastName(names, m);
      }
    }
  }

  /** The names of a jar in increasing order, as std::map iterates. */
  ghost predicate Ordered(names: seq<ByteString>) {
    forall i, j :: 0 <= i < j < |names| ==> LexLess(names[i], names[j])
  }

  ghost predicate Enumerates(jar: Jar, names: seq<ByteString>) {
    Ordered(names) && forall n :: n in names <==> n in jar
  }

  function PairText(jar: Jar, n: ByteString): ByteString
    requires n in jar
  {
    n + "=" + jar[n]
  }

  function HeaderText(jar: Jar, names: seq<ByteString>): ByteString
    requires forall n :: n in names ==> n in jar
  {
    if names == [] then []
    else if |names| == 1 then PairText(jar, names[0])
    else PairText(jar, names[0]) + "; " + HeaderText(jar, names[1..])
  }

  /** How the header of two cookies reads. */
  lemma {:induction false} TwoCookieHeader(jar: Jar, m: ByteString, n: ByteString)
    requires m in jar && n in jar
    ensures HeaderText(jar, [m, n]) == (m + "=" + jar[m]) + "; " + (n + "=" + jar[n])
  {
    assert [m, n][1..] == [n];
  }

  lemma {:induction false} HeaderSnoc(jar: Jar, names: seq<ByteString>, n: ByteString)
    requires n in jar && forall k :: k in names ==> k in jar
    ensures HeaderText(jar, [n]) == PairText(jar, n)
    ensures names != [] ==> HeaderText(jar, names) != []
    ensures names != [] ==> HeaderText(jar, names + [n]) == HeaderText(jar, names) + "; " + PairText(jar, n)
  {
    if names != [] {
      assert (names + [n])[1..] == names[1..] + [n];
      HeaderSnoc(jar, names[1..], n);
      if |names| > 1 {
        var a, b, c := PairText(jar, names[0]), HeaderText(jar, names[1..]), PairText(jar, n);
        assert a + "; " + (b + "; " + c) == (a + "; " + b) + "; " + c;
      }
    }
  }

  // ---- What a server reads from it ----

  function ReadPair(t: ByteString): Cookie {
    match Find(t, "=", 0)
    case Some(k) => Cookie(t[..k], t[k + 1..])
    case None => Cookie(t, [])
  }

  function ReadPairs(t: ByteString): seq<Cookie> {
    match Find(t, "; ", 0)
    case Some(k) => [ReadPair(t[..k])] + ReadPairs(t[k + 2..])
    case None => [ReadPair(t)]
  }

  function JarOf(cs: seq<Cookie>): Jar {
    if cs == [] then map[] else JarOf(cs[..|cs| - 1])[cs[|cs| - 1].name := cs[|cs| - 1].value]
  }

  /** Split at `; `, then at the first `=` (section 4.2.1 of RFC 6265). */
  function ParseCookieHeader(t: ByteString): Jar {
    if t == [] then map[] else JarOf(ReadPairs(t))
  }

  lemma {:induction false} FindSemicolon(a: ByteString, b: ByteString)
    requires ';' !in a
    ensures Find(a + "; " + b, "; ", 0) == Some(|a|)
    ensures Find(a, "; ", 0) == None
  {
    var sep: ByteString := "; ";
    var t := a + sep + b;
    assert sep[0] == ';';
    assert t[|a|..|a| + 2] == sep && OccursAt(t, sep, |a|);
    forall j | 0 <= j < |a| ensures !OccursAt(t, sep, j) {
      if j + 2 <= |t| { assert t[j..j + 2][0] == a[j]; }
    }
    forall j | 0 <= j && j + 2 <= |a| ensures !OccursAt(a, sep, j) { assert a[j..j + 2][0] == a[j]; }
  }

  lemma {:induction false} ReadPairText(jar: Jar, n: ByteString)
    requires n in jar && SafeCookie(n, jar[n])
    ensures ReadPair(PairText(jar, n)) == Cookie(n, jar[n]) && ';' !in PairText(jar, n) && PairText(jar, n) != []
  {
    var t := PairText(jar, n);
    assert t[..|n|] == n && t[|n| + 1..] == jar[n];
    FindSeparator(t, '=', 0, |n|);
  }

  function CookiesOf(jar: Jar, names: seq<ByteString>): seq<Cookie>
    requires forall n :: n in names ==> n in jar
  {
    seq(|names|, i requires 0 <= i < |names| => assert names[i] in names; Cookie(names[i], jar[names[i]]))
  }

  lemma {:induction false} CookiesCons(jar: Jar, names: seq<ByteString>)
    requires names != [] && forall n :: n in names ==> n in jar
    ensures names[0] in jar && forall n :: n in names[1..] ==> n in jar
    ensures CookiesOf(jar, names) == [Cookie(names[0], jar[names[0]])] + CookiesOf(jar, names[1..])
  {
  }

  lemma {:induction false} ReadHeader(jar: Jar, names: seq<ByteString>)
    requires WireSafe(jar) && names != [] && forall n :: n in names ==> n in jar
    ensures ReadPairs(HeaderText(jar, names)) == CookiesOf(jar, names)
  {
    CookiesCons(jar, names);
    ReadPairText(jar, names[0]);
    ReadRest(jar, names, PairText(jar, names[0]));
    if |names| > 1 { ReadHeader(jar, names[1..]); }
  }

  lemma {:induction false} ReadRest(jar: Jar, names: seq<ByteString>, p: ByteString)
    requires names != [] && (forall n :: n in names ==> n in jar) && p == PairText(jar, names[0]) && ';' !in p
    ensures |names| == 1 ==> ReadPairs(HeaderText(jar, names)) == [ReadPair(p)] && names[1..] == []
    ensures |names| > 1 ==> ReadPairs(HeaderText(jar, names)) == [ReadPair(p)] + ReadPairs(HeaderText(jar, names[1..]))
  {
    if |names| == 1 {
      FindSemicolon(p, []);
    } else {
      ReadFirst(p, HeaderText(jar, names[1..]));
    }
  }

  lemma {:induction false} ReadFirst(p: ByteString, rest: ByteString)
    requires ';' !in p
    ensures ReadPairs(p + "; " + rest) == [ReadPair(p)] + ReadPairs(rest)
  {
    var t := p + "; " + rest;
    FindSemicolon(p, rest);
    assert t[..|p|] == p && t[|p| + 2..] == rest;
  }

  lemma {:induction false} JarOfCookies(jar: Jar, names: seq<ByteString>)
    requires forall n :: n in names ==> n in jar
    ensures JarOf(CookiesOf(jar, names)) == map n | n in names :: jar[n]
  {
    if names != [] {
      var init, l := names[..|names| - 1], names[|names| - 1];
      JarOfCookies(jar, init);
      var cs := CookiesOf(jar, names);
      assert cs[..|cs| - 1] == CookiesOf(jar, init);
      assert forall n :: n in names <==> n in init || n == l;
    }
  }

  /** The header of a jar read back is the jar. */
  lemma {:induction false} CookieRoundTrip(jar: Jar, names: seq<ByteString>)
    requires WireSafe(jar) && Enumerates(jar, names)
    ensures ParseCookieHeader(HeaderText(jar, names)) == jar
  {
    if names == [] {
      assert jar == map[] by { assert forall n :: n !in jar; }
    } else {
      ReadHeader(jar, names);
      HeaderSnoc(jar, names, names[0]);
      JarOfCookies(jar, names);
    }
  }

  // ---- buildCookieHeader ----

  method BuildCookieHeader(jar: Jar) returns (result: ByteString)
    ensures exists names :: Enumerates(jar, names) && result == HeaderText(jar, names)
    ensures WireSafe(jar) ==> ParseCookieHeader(result) == jar
  {
    result := [];
    ghost var names: seq<ByteString> := [];
    var left := jar.Keys;
    while left != {}
      invariant forall n :: n in jar <==> n in left || n in names
      invariant forall n, k :: n in names && k in left ==> LexLess(n, k)
      invariant Ordered(names)
      invariant result == HeaderText(jar, names)
      decreases |left|
    {
      LeastNameExists(left);
      var name: ByteString :| IsLeastName(left, name);
      HeaderSnoc(jar, names, name);
      if result != [] { result := result + "; "; }
      result := result + (name + "=" + jar[name]);
      names := names + [name];
      left := left - {name};
    }
    assert Enumerates(jar, names);
    if WireSafe(jar) { CookieRoundTrip(jar, names); }
  }

  lemma {:induction false} OrderedUnique(a: seq<ByteString>, b: seq<ByteString>)
    requires Ordered(a) && Ordered(b) && forall n :: n in a <==> n in b
    ensures a == b
  {
    if a == [] || b == [] {
      NoElements(a, b);
      NoElements(b, a);
    } else {
      HeadLeast(a);
      HeadLeast(b);
      LexTotal(a[0], b[0]);
      assert a[0] in b && b[0] in a;
      assert a[0] == b[0];
      TailHas(a);
      TailHas(b);
      OrderedUnique(a[1..], b[1..]);
      assert a == [a[0]] + a[1..] && b == [b[0]] + b[1..];
    }
  }

  lemma {:induction false} NoElements(a: seq<ByteString>, b: seq<ByteString>)
    requires forall n :: n in a ==> n in b
    ensures b == [] ==> a == []
  {
    if a != [] { assert a[0] in b; }
  }

  lemma {:induction false} HeadLeast(a: seq<ByteString>)
    requires a != [] && Ordered(a)
    ensures forall n :: n in a ==> n == a[0] || LexLess(a[0], n)
  {
  }

  lemma {:induction false} TailHas(a: seq<ByteString>)
    requires a != [] && Ordered(a)
    ensures forall n :: n in a[1..] <==> n in a && n != a[0]
    ensures Ordered(a[1..])
  {
    LexSelf(a[0]);
  }

  /** The header is a function of the jar: one order of names, one text. */
  lemma {:induction false} HeaderUnique(jar: Jar, a: seq<ByteString>, b: seq<ByteString>)
    requires Enumerates(jar, a) && Enumerates(jar, b)
    ensures HeaderText(jar, a) == HeaderText(jar, b)
  {
    OrderedUnique(a, b);
  }
}
