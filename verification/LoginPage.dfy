/** The login page's tokens, and the body that login posts. */
module LoginPage {
  import opened Bytes
  import opened Numbers
  import opened Regex
  import opened UrlForm
  import opened FormPatterns

  const LOGIN_TOKEN: ByteString := "Frm_Logintoken"
  const CHECK_TOKEN: ByteString := "Frm_Loginchecktoken"

  // ---- Tokens ----

  // WORD\s*=\s*["']   (icase)
  function OpeningPart(word: ByteString, next: Regex): Regex {
    Literal(word, true, Spaced("=", Star(Spaces, false, One(Quotes, next))))
  }

  // value\s*=\s*["']([^"']*)["']   (icase)
  function ValuePart(next: Regex): Regex {
    OpeningPart("value", ValueText(next))
  }

  function ValueText(next: Regex): Regex {
    Mark(0, Star(NotQuotes, false, ValueClose(next)))
  }

  function ValueClose(next: Regex): Regex {
    Mark(1, One(Quotes, next))
  }

  // name\s*=\s*["']NAME["']   (icase)
  function NamePart(name: ByteString, next: Regex): Regex {
    OpeningPart("name", Literal(name, true, One(Quotes, next)))
  }

  function InTagStar(next: Regex): Regex {
    Star(NotGreater, false, next)
  }

  /** `<input ... name="NAME" ... value="VALUE"`. */
  function NameFirst(name: ByteString): Regex {
    Literal("<input", true, InTagStar(NamePart(name, InTagStar(ValuePart(Accept)))))
  }

  /** `<input ... value="VALUE" ... name="NAME"`. */
  function ValueFirst(name: ByteString): Regex {
    Literal("<input", true, InTagStar(ValuePart(InTagStar(NamePart(name, Accept)))))
  }

  // createHiddenInput\("NAME",\s*"([^"]+)"\)
  function HiddenCall(name: ByteString): Regex {
    Literal(CallHead(name), false, Spaced("\"", CALL_TEXT))
  }

  function CallHead(name: ByteString): ByteString {
    "createHiddenInput(\"" + name + "\","
  }

  const CALL_TEXT: Regex := Mark(0, One(NotDouble, Star(NotDouble, false, CALL_END)))
  const CALL_END: Regex := Mark(1, Literal("\")", false, Accept))

  function Captured(html: ByteString, re: Regex): Option<ByteString> {
    match Search(re, html, 0)
    case Some(m) => Some(Between(html, m.marks, 0, 1))
    case None => None
  }

  function InputValue(html: ByteString, name: ByteString): ByteString {
    match Captured(html, NameFirst(name))
    case Some(v) => v
    case None => match Captured(html, ValueFirst(name)) case Some(v) => v case None => []
  }

  /** A token of the login page: an input's value or, when that is empty, a call's. */
  function PageToken(html: ByteString, name: ByteString): ByteString {
    var v := InputValue(html, name);
    if v != [] then v
    else match Captured(html, HiddenCall(name)) case Some(t) => t case None => []
  }

  // ---- The body ----

  /** The nonce of a login: eight digits, the first not zero. */
  predicate IsNonce(n: nat) { 10000000 <= n <= 99999999 }

  lemma {:induction false} NonceMeaning(n: nat)
    ensures IsNonce(n) <==> |Decimal(n)| == 8
  {
    DecimalLength(n, 8);
    DecimalLength(n, 7);
    assert TenTo(3) == 1000;
    assert TenTo(5) == 100000;
    assert TenTo(7) == 10000000;
  }

  function TenTo(k: nat): (t: nat)
    ensures t >= 1
  {
    if k == 0 then 1 else 10 * TenTo(k - 1)
  }

  /** A numeral has at most `k` digits exactly when its value is below the power. */
  lemma {:induction false} DecimalLength(n: nat, k: nat)
    requires k > 0
    ensures |Decimal(n)| <= k <==> n < TenTo(k)
  {
    assert TenTo(1) == 10;
    if n >= 10 && k > 1 {
      DecimalLength(n / 10, k - 1);
      assert n < 10 * TenTo(k - 1) <==> n / 10 < TenTo(k - 1);
    }
  }

  function TokenFields(loginToken: ByteString, checkToken: ByteString): seq<Field> {
    (if loginToken == [] then [] else [Field("Frm_Logintoken", loginToken)])
    + (if checkToken == [] then [] else [Field("Frm_Loginchecktoken", checkToken)])
  }

  /** What a login request means. */
  function LoginFields(username: ByteString, hash: ByteString, nonce: ByteString, loginToken: ByteString,
                       checkToken: ByteString): seq<Field> {
    FixedFields(username, hash, nonce) + TokenFields(loginToken, checkToken)
  }

  function FixedFields(username: ByteString, hash: ByteString, nonce: ByteString): seq<Field> {
    [Field("action", "login"), Field("Username", username), Field("Password", hash), Field("UserRandomNum", nonce)]
  }

  /** A body whose names are written as they are, and only the values encoded. */
  function RawBody(fields: seq<Field>): ByteString {
    if fields == [] then []
    else
      var init, f := fields[..|fields| - 1], fields[|fields| - 1];
      (if init == [] then [] else RawBody(init) + "&") + f.name + "=" + Encoded(f.value)
  }

  ghost predicate Plain(s: ByteString) {
    forall c :: c in s ==> IsUnreserved(c)
  }

  ghost predicate PlainNames(fields: seq<Field>) {
    forall i :: 0 <= i < |fields| ==> Plain(fields[i].name)
  }

  lemma {:induction false} RawStep(init: seq<Field>, f: Field, fields: seq<Field>)
    requires fields == init + [f] && RawBody(init) == BodyOf(init) && Plain(f.name)
    ensures RawBody(fields) == BodyOf(fields)
  {
    BodySnoc(init, f);
    EncodedUnreserved(f.name);
    RawSnoc(init, f.name, f.value);
    RawPair(RawBody(init), "&", f.name, Encoded(f.value));
  }

  lemma {:induction false} RawIsBody(fields: seq<Field>)
    requires PlainNames(fields)
    ensures RawBody(fields) == BodyOf(fields)
  {
    if fields != [] {
      var init, f := fields[..|fields| - 1], fields[|fields| - 1];
      RawIsBody(init);
      RawStep(init, f, fields);
    }
  }

  lemma {:induction false} RawPair(a: ByteString, b: ByteString, name: ByteString, value: ByteString)
    ensures a + (b + name + "=" + value) == a + b + (name + "=" + value)
  {
  }

  /** A body with plain names decodes to its fields. */
  lemma {:induction false} RawParses(fields: seq<Field>)
    requires PlainNames(fields)
    ensures ParseForm(RawBody(fields)) == fields
  {
    RawIsBody(fields);
    ParseBody(fields);
  }

  function TokenText(name: ByteString, token: ByteString): ByteString {
    if token == [] then [] else "&" + name + "=" + Encoded(token)
  }

  /** The text that login concatenates. */
  function LoginBody(username: ByteString, hash: ByteString, nonce: ByteString, loginToken: ByteString,
                     checkToken: ByteString): ByteString {
    FixedText(Encoded(username), Encoded(hash), Encoded(nonce))
    + TokenText(LOGIN_TOKEN, loginToken) + TokenText(CHECK_TOKEN, checkToken)
  }

  function FixedText(u: ByteString, p: ByteString, r: ByteString): ByteString {
    "action=login" + "&Username=" + u + "&Password=" + p + "&UserRandomNum=" + r
  }

  method BuildLoginBody(username: ByteString, hash: ByteString, nonce: ByteString, loginToken: ByteString,
                        checkToken: ByteString)
    returns (body: ByteString)
    ensures body == LoginBody(username, hash, nonce, loginToken, checkToken)
  {
    var u := UrlEncode(username);
    var p := UrlEncode(hash);
    var r := UrlEncode(nonce);
    body := AppendTokens(FixedText(u, p, r), loginToken, checkToken);
  }

  method AppendTokens(fixed: ByteString, loginToken: ByteString, checkToken: ByteString) returns (body: ByteString)
    ensures body == fixed + TokenText(LOGIN_TOKEN, loginToken) + TokenText(CHECK_TOKEN, checkToken)
  {
    body := AppendToken(fixed, LOGIN_TOKEN, loginToken);
    body := AppendToken(body, CHECK_TOKEN, checkToken);
  }

  method AppendToken(body: ByteString, name: ByteString, token: ByteString) returns (longer: ByteString)
    ensures longer == body + TokenText(name, token)
  {
    longer := body;
    if token != [] {
      var t := UrlEncode(token);
      longer := body + ("&" + name + "=" + t);
    }
  }

  lemma {:induction false} RawSnoc(fields: seq<Field>, name: ByteString, value: ByteString)
    ensures fields != [] ==>
            RawBody(fields + [Field(name, value)]) == RawBody(fields) + ("&" + name + "=" + Encoded(value))
    ensures fields == [] ==> RawBody(fields + [Field(name, value)]) == name + "=" + Encoded(value)
  {
    var more := fields + [Field(name, value)];
    assert more[..|more| - 1] == fields;
    assert RawBody(fields) + "&" + name + "=" + Encoded(value) == RawBody(fields) + ("&" + name + "=" + Encoded(value));
  }

  lemma {:induction false} FourRaw(a: ByteString, l: ByteString, b: ByteString, u: ByteString, c: ByteString,
                                   p: ByteString, d: ByteString, r: ByteString)
    ensures RawBody([Field(a, l), Field(b, u), Field(c, p), Field(d, r)])
         == (a + "=" + Encoded(l)) + ("&" + b + "=" + Encoded(u)) + ("&" + c + "=" + Encoded(p))
            + ("&" + d + "=" + Encoded(r))
  {
    RawSnoc([], a, l);
    RawSnoc([Field(a, l)], b, u);
    RawSnoc([Field(a, l), Field(b, u)], c, p);
    RawSnoc([Field(a, l), Field(b, u), Field(c, p)], d, r);
    assert [] + [Field(a, l)] == [Field(a, l)];
    assert [Field(a, l)] + [Field(b, u)] == [Field(a, l), Field(b, u)];
    assert [Field(a, l), Field(b, u)] + [Field(c, p)] == [Field(a, l), Field(b, u), Field(c, p)];
    assert [Field(a, l), Field(b, u), Field(c, p)] + [Field(d, r)] ==
      [Field(a, l), Field(b, u), Field(c, p), Field(d, r)];
  }

  /** Text laid out as four pairs, whatever the names. */
  lemma {:induction false} FourText(a: ByteString, l: ByteString, b: ByteString, u: ByteString, c: ByteString,
                                    p: ByteString, d: ByteString, r: ByteString,
                                    al: ByteString, bt: ByteString, ct: ByteString, dt: ByteString)
    requires Plain(l) && al == a + "=" + l && bt == "&" + b + "=" && ct == "&" + c + "=" && dt == "&" + d + "="
    ensures al + bt + Encoded(u) + ct + Encoded(p) + dt + Encoded(r) ==
            RawBody([Field(a, l), Field(b, u), Field(c, p), Field(d, r)])
  {
    FourRaw(a, l, b, u, c, p, d, r);
    EncodedUnreserved(l);
    Regroup(al, bt, Encoded(u), ct, Encoded(p), dt, Encoded(r));
  }

  lemma {:induction false} Regroup(a: ByteString, b: ByteString, x: ByteString, c: ByteString, y: ByteString,
                                   d: ByteString, z: ByteString)
    ensures a + b + x + c + y + d + z == a + (b + x) + (c + y) + (d + z)
  {
    assert a + b + x == a + (b + x);
    assert (a + (b + x)) + c + y == (a + (b + x)) + (c + y);
    var e := a + (b + x) + (c + y);
    assert e + d + z == e + (d + z);
  }

  lemma {:induction false} FixedIsRaw(username: ByteString, hash: ByteString, nonce: ByteString)
    ensures FixedText(Encoded(username), Encoded(hash), Encoded(nonce)) == RawBody(FixedFields(username, hash, nonce))
  {
    LoginPlain();
    assert "action" + "=" + "login" == "action=login";
    assert "&" + "Username" + "=" == "&Username=";
    assert "&" + "Password" + "=" == "&Password=";
    assert "&" + "UserRandomNum" + "=" == "&UserRandomNum=";
    FourText("action", "login", "Username", username, "Password", hash, "UserRandomNum", nonce,
             "action=login", "&Username=", "&Password=", "&UserRandomNum=");
  }

  lemma {:induction false} TokenIsRaw(fields: seq<Field>, name: ByteString, token: ByteString)
    requires fields != []
    ensures RawBody(fields) + TokenText(name, token) ==
            RawBody(fields + (if token == [] then [] else [Field(name, token)]))
  {
    if token == [] {
      assert fields + [] == fields;
      assert RawBody(fields) + [] == RawBody(fields);
    } else {
      RawSnoc(fields, name, token);
    }
  }

  lemma {:induction false} LoginIsRaw(username: ByteString, hash: ByteString, nonce: ByteString,
                                      loginToken: ByteString, checkToken: ByteString)
    ensures LoginBody(username, hash, nonce, loginToken, checkToken) ==
            RawBody(LoginFields(username, hash, nonce, loginToken, checkToken))
  {
    FixedIsRaw(username, hash, nonce);
    TwoTokensRaw(FixedFields(username, hash, nonce), LOGIN_TOKEN, loginToken, CHECK_TOKEN, checkToken);
  }

  lemma {:induction false} TwoTokensRaw(fields: seq<Field>, m: ByteString, s: ByteString, n: ByteString, t: ByteString)
    requires fields != []
    ensures RawBody(fields) + TokenText(m, s) + TokenText(n, t)
         == RawBody(fields + ((if s == [] then [] else [Field(m, s)]) + (if t == [] then [] else [Field(n, t)])))
  {
    var a: seq<Field> := if s == [] then [] else [Field(m, s)];
    var b: seq<Field> := if t == [] then [] else [Field(n, t)];
    TokenIsRaw(fields, m, s);
    TokenIsRaw(fields + a, n, t);
    assert fields + a + b == fields + (a + b);
  }

  lemma {:induction false} LoginPlain()
    ensures Plain("action") && Plain("login")
  {
  }

  lemma {:induction false} CredentialNamesPlain()
    ensures Plain("Username") && Plain("Password") && Plain("UserRandomNum")
  {
  }

  lemma {:induction false} TokenNamesPlain()
    ensures Plain(LOGIN_TOKEN) && Plain(CHECK_TOKEN)
  {
  }

  lemma {:induction false} PlainConcat(a: seq<Field>, b: seq<Field>)
    requires PlainNames(a) && PlainNames(b)
    ensures PlainNames(a + b)
  {
  }

  lemma {:induction false} FixedPlain(username: ByteString, hash: ByteString, nonce: ByteString)
    ensures PlainNames(FixedFields(username, hash, nonce))
  {
    LoginPlain();
    CredentialNamesPlain();
  }

  lemma {:induction false} TokensPlain(loginToken: ByteString, checkToken: ByteString)
    ensures PlainNames(TokenFields(loginToken, checkToken))
  {
    TokenNamesPlain();
  }

  /** What the router decodes from a login body: the four fixed fields, then whichever tokens
      are not empty, for any bytes in any of them. */
  lemma {:induction false} LoginBodyMeaning(username: ByteString, hash: ByteString, nonce: ByteString,
                                            loginToken: ByteString, checkToken: ByteString)
    ensures ParseForm(LoginBody(username, hash, nonce, loginToken, checkToken))
         == [Field("action", "login"), Field("Username", username), Field("Password", hash),
             Field("UserRandomNum", nonce)]
            + ((if loginToken == [] then [] else [Field("Frm_Logintoken", loginToken)])
               + (if checkToken == [] then [] else [Field("Frm_Loginchecktoken", checkToken)]))
  {
    FixedPlain(username, hash, nonce);
    TokensPlain(loginToken, checkToken);
    PlainConcat(FixedFields(username, hash, nonce), TokenFields(loginToken, checkToken));
    LoginIsRaw(username, hash, nonce, loginToken, checkToken);
    RawParses(LoginFields(username, hash, nonce, loginToken, checkToken));
  }

  predicate IsLowerHex(c: byte) { IsDigit(c) || 'a' <= c <= 'f' }

  /** The nonce and a lowercase hexadecimal hash stand in the body as they are. */
  lemma {:induction false} NonceAndHashPlain(nonce: nat, hash: ByteString)
    requires forall c :: c in hash ==> IsLowerHex(c)
    ensures Encoded(Decimal(nonce)) == Decimal(nonce) && Encoded(hash) == hash
  {
    EncodedUnreserved(Decimal(nonce));
    EncodedUnreserved(hash);
  }
}
