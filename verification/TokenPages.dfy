/** A page that delivers the session token only by script. */
module TokenPages {
  import opened Bytes
  import opened Pages
  import opened UrlForm
  import opened FormPatterns
  import opened FormMeaning
  import opened FormPage
  import opened HiddenPage
  import opened ScriptTokens
  import opened TokenScripts
  import opened ScriptPage

  /** A byte that begins no tag and is in none of the words createHiddenInput and Frm_Logintoken. */
  predicate QuietByte(c: byte) { c != '<' && c != 'h' && c != 'H' && c != 'F' }

  ghost predicate Calm(s: ByteString) {
    forall k :: 0 <= k < |s| ==> QuietByte(s[k])
  }

  ghost predicate AllCalm(words: seq<ByteString>) {
    forall k :: 0 <= k < |words| ==> Calm(words[k])
  }

  /** A token of digits, for one. */
  ghost predicate SimpleToken(token: ByteString) {
    PlainToken(token) && Calm(token)
  }

  function TokenElement(token: ByteString): Element {
    Element([], TokenScript(token, [], []), [], [])
  }

  /** <script>var session_token="TOKEN";x.setAttribute(...);x.setAttribute(...)</script> */
  function TokenPage(token: ByteString): ByteString {
    ElementText(TokenElement(token))
  }

  lemma {:induction false} CalmJoin(a: ByteString, b: ByteString)
    requires Calm(a) && Calm(b)
    ensures Calm(a + b)
  {
  }

  lemma {:induction false} CalmConcat(words: seq<ByteString>)
    requires AllCalm(words)
    ensures Calm(Concat(words))
  {
    if words != [] {
      CalmConcat(words[1..]);
      CalmJoin(words[0], Concat(words[1..]));
    }
  }

  lemma {:induction false} CalmQuoted(s: ByteString)
    requires Calm(s)
    ensures Calm(Quoted('\"', s))
  {
  }

  lemma {:induction false} DeclaredIsCalm(token: ByteString)
    requires Calm(token)
    ensures Calm(Declared(token))
  {
    var word := Quoted('\"', token);
    CalmQuoted(token);
    assert Declaration(word) == ["session_token", "=", word, ";"];
    CalmConcat(Declaration(word));
    CalmJoin("var ", Concat(Declaration(word)));
  }

  lemma {:induction false} CallIsCalm(key: ByteString, value: ByteString)
    requires Calm(key) && Calm(value)
    ensures Calm(Concat(SetCall(key, value)))
  {
    assert SetCall(key, value) == [".", "setAttribute", "(", key, ",", value, ")"];
    CalmConcat(SetCall(key, value));
  }

  lemma {:induction false} CallsAreCalm()
    ensures Calm(Naming()) && Calm(Valuing())
  {
    CalmQuoted("name");
    CalmQuoted(TOKEN_NAME);
    CalmQuoted("value");
    CallIsCalm(Quoted('\"', "name"), Quoted('\"', TOKEN_NAME));
    CallIsCalm(Quoted('\"', "value"), "session_token");
  }

  lemma {:induction false} ScriptIsCalm(token: ByteString)
    requires Calm(token)
    ensures Calm(TokenScript(token, [], []))
  {
    DeclaredIsCalm(token);
    CallsAreCalm();
    var semicolon: ByteString := ";";
    CalmJoin(X, Valuing());
    CalmJoin([], X + Valuing());
    CalmJoin(semicolon, [] + (X + Valuing()));
    CalmJoin(Naming(), semicolon + ([] + (X + Valuing())));
    CalmJoin(X, Naming() + (semicolon + ([] + (X + Valuing()))));
    CalmJoin([], X + (Naming() + (semicolon + ([] + (X + Valuing())))));
    CalmJoin(Declared(token), [] + (X + (Naming() + (semicolon + ([] + (X + Valuing()))))));
  }

  /** A script element with calm text: `<` stands in it twice, each time before no `i`. */
  ghost predicate CalmElement(page: ByteString, body: ByteString) {
    && |page| == 17 + |body|
    && page[0] == '<' && page[1] == 's' && page[8 + |body|] == '<' && page[9 + |body|] == '/'
    && forall k :: 0 < k < |page| && k != 8 + |body| ==> QuietByte(page[k])
  }

  lemma {:induction false} PageIsCalm(body: ByteString)
    requires Calm(body)
    ensures CalmElement(ElementText(Element([], body, [], [])), body)
  {
    var head: ByteString := "<script>";
    var tail: ByteString := "</script>";
    var page := ElementText(Element([], body, [], []));
    assert page == head + body + tail;
    forall k | 0 < k < |page| && k != 8 + |body| ensures QuietByte(page[k]) {
      if k < 8 { assert page[k] == head[k]; }
      else if k < 8 + |body| { assert page[k] == body[k - 8]; }
      else { assert page[k] == tail[k - 8 - |body|]; }
    }
  }

  lemma {:induction false} NoTagOn(page: ByteString, body: ByteString, j: nat)
    requires CalmElement(page, body)
    ensures !SomeTagAt(page, j)
  {
    LiteralMismatch(page, "<input", true, j, if j == 0 || j == 8 + |body| then 1 else 0);
  }

  lemma {:induction false} NoCallOn(page: ByteString, body: ByteString, j: nat)
    requires CalmElement(page, body)
    ensures !SomeCallAt(page, j)
  {
    LiteralMismatch(page, CALL_WORD, true, j, 6);
  }

  lemma {:induction false} CalmIsClosable(body: ByteString)
    requires Calm(body)
    ensures Closable(Element([], body, [], []))
  {
    var e := Element([], body, [], []);
    forall j: nat | j < |body| ensures !ClosingAt(body + ClosingText(e), j) {
      assert (body + ClosingText(e))[j] == body[j];
      LiteralMismatch(body + ClosingText(e), "</script", true, j, 0);
    }
  }

  /** A page that is one calm script gives what that script gives. */
  lemma {:induction false} OneScript(body: ByteString)
    requires Calm(body)
    ensures FormFieldsOf(ElementText(Element([], body, [], []))) == TokenOf([body])
  {
    var e := Element([], body, [], []);
    var page := ElementText(e);
    PageIsCalm(body);
    CalmIsClosable(body);
    forall j: nat ensures !SomeTagAt(page, j) && !SomeCallAt(page, j) {
      NoTagOn(page, body, j);
      NoCallOn(page, body, j);
    }
    OnlyLead(page);
    assert Tags([]) == [] && Calls([]) == [];
    OnePiece(page, Elements([e]));
    MixedPage(page, page, [], page, [], [], [e]);
    assert BodiesOf([e]) == [body];
  }

  lemma {:induction false} CalmHasNoForm(page: ByteString, body: ByteString, form: ByteString)
    requires CalmElement(page, body) && form != [] && form[0] == 'F'
    ensures !Contains(page, form)
  {
    forall p: nat ensures !OccursAt(page, form, p) {
      if p + |form| <= |page| { assert page[p..p + |form|][0] == page[p]; }
    }
  }

  lemma {:induction false} OneToken(script: ByteString, token: ByteString)
    requires ScriptToken(script) == Some(token)
    ensures TokenOf([script]) == [Field(TOKEN_NAME, token)]
  {
  }

  /** Such a page gives the token. */
  lemma {:induction false} TokenByScript(token: ByteString)
    requires SimpleToken(token)
    ensures FormFieldsOf(TokenPage(token)) == [Field(TOKEN_NAME, token)]
  {
    ScriptIsCalm(token);
    OneScript(TokenScript(token, [], []));
    TokenOfScript(token);
  }

  /** It does not look like the login page. */
  lemma {:induction false} TokenPageHasNoForm(token: ByteString, form: ByteString)
    requires SimpleToken(token) && form != [] && form[0] == 'F'
    ensures !Contains(TokenPage(token), form)
  {
    ScriptIsCalm(token);
    PageIsCalm(TokenScript(token, [], []));
    CalmHasNoForm(TokenPage(token), TokenScript(token, [], []), form);
  }

  // ---- A token behind an empty field ----

  const EMPTY: Field := Field(TOKEN_NAME, [])

  /** An empty static input of the token's name, and then the script. */
  function ShadowedPage(token: ByteString): ByteString {
    Tag(EMPTY) + TokenPage(token)
  }

  lemma {:induction false} TagHasNoH(t: ByteString, f: Field, n: nat, v: nat, j: nat)
    requires TagLayout(t, f, n, v) && 'h' !in f.name && 'H' !in f.name && f.value == [] && j < |t|
    ensures t[j] != 'h' && t[j] != 'H'
  {
    if j < 13 { HeadBytes(t, 0); }
    else if j < n { PieceByte(t, f.name, 13); }
    else if j < v { MiddleBytes(t, n); }
    else { EndBytes(t, v); }
  }

  lemma {:induction false} TokenNameBytes()
    ensures TOKEN_NAME != [] && forall c :: c in TOKEN_NAME ==> IsWord(c) && c != 'h' && c != 'H'
  {
  }

  lemma {:induction false} EmptyIsRenderable()
    ensures Renderable(EMPTY) && 'h' !in TOKEN_NAME && 'H' !in TOKEN_NAME
  {
    TokenNameBytes();
  }

  lemma {:induction false} EmptyTag()
    ensures 'h' !in Tag(EMPTY) && 'H' !in Tag(EMPTY)
    ensures |Tag(EMPTY)| > 1 && Tag(EMPTY)[0] == '<' && Tag(EMPTY)[1] == 'i'
    ensures forall k :: 0 < k < |Tag(EMPTY)| ==> Tag(EMPTY)[k] != '<'
  {
    var t, n := Tag(EMPTY), 13 + |EMPTY.name|;
    EmptyIsRenderable();
    TagHasLayout(EMPTY);
    HeadBytes(t, 0);
    forall j: nat | j < |t| ensures t[j] != 'h' && t[j] != 'H' { TagHasNoH(t, EMPTY, n, n + 9, j); }
    forall k: nat | 0 < k < |t| ensures t[k] != '<' {
      if k < |t| - 1 { TagByte(t, EMPTY, n, n + 9, k); } else { EndBytes(t, n + 9); }
    }
  }

  /** A page of a tag and a calm script element. */
  ghost predicate TagThenCalm(page: ByteString, t: ByteString, u: ByteString, body: ByteString) {
    && page == t + u && CalmElement(u, body) && |t| > 1 && t[0] == '<' && t[1] == 'i'
    && (forall k :: 0 < k < |t| ==> t[k] != '<') && 'h' !in t && 'H' !in t
  }

  lemma {:induction false} ByteOfBoth(page: ByteString, t: ByteString, u: ByteString, body: ByteString, j: nat)
    requires TagThenCalm(page, t, u, body) && j < |page|
    ensures page[j] != 'h' && page[j] != 'H'
    ensures page[j] == '<' ==>
              j + 1 < |page| && if j < |t| then page[j + 1] == 'i' else page[j + 1] == 's' || page[j + 1] == '/'
  {
    if j < |t| { assert page[j] == t[j] && page[1] == t[1]; } else { assert page[j] == u[j - |t|]; }
  }

  lemma {:induction false} NoCallOnBoth(page: ByteString, t: ByteString, u: ByteString, body: ByteString, j: nat)
    requires TagThenCalm(page, t, u, body)
    ensures !SomeCallAt(page, j)
  {
    if j + 6 < |page| { ByteOfBoth(page, t, u, body, j + 6); }
    LiteralMismatch(page, CALL_WORD, true, j, 6);
  }

  lemma {:induction false} NoTagInScript(page: ByteString, t: ByteString, u: ByteString, body: ByteString, j: nat)
    requires TagThenCalm(page, t, u, body) && |t| <= j
    ensures !SomeTagAt(page, j)
  {
    if j < |page| { ByteOfBoth(page, t, u, body, j); }
    LiteralMismatch(page, "<input", true, j, if j < |page| && page[j] == '<' then 1 else 0);
  }

  lemma {:induction false} NoScriptInTag(page: ByteString, t: ByteString, u: ByteString, body: ByteString, j: nat)
    requires TagThenCalm(page, t, u, body) && j < |t|
    ensures !SomeScriptAt(page, j)
  {
    ByteOfBoth(page, t, u, body, j);
    LiteralMismatch(page, "<script", true, j, if page[j] == '<' then 1 else 0);
  }

  lemma {:induction false} BothInputs(page: ByteString, t: ByteString, u: ByteString, body: ByteString, f: Field)
    requires TagThenCalm(page, t, u, body) && t == Tag(f) && Renderable(f)
    ensures IsInputPage(page, [], [Item(f, u)])
  {
    var ps := Tags([Item(f, u)]);
    JoinOne(ps, t, u);
    assert page == [] + Join(ps);
    forall j: nat | InGap([], ps, j) ensures !SomeTagAt(page, j) { NoTagInScript(page, t, u, body, j); }
  }

  lemma {:induction false} BothCalls(page: ByteString, t: ByteString, u: ByteString, body: ByteString)
    requires TagThenCalm(page, t, u, body)
    ensures IsCallPage(page, page, [])
  {
    OnlyLead(page);
    assert Calls([]) == [];
    forall j: nat ensures !SomeCallAt(page, j) { NoCallOnBoth(page, t, u, body, j); }
  }

  lemma {:induction false} BothScripts(page: ByteString, t: ByteString, u: ByteString, body: ByteString, e: Element)
    requires TagThenCalm(page, t, u, body) && u == ElementText(e) && Closable(e) && e.after == []
    ensures IsScriptPage(page, t, [e])
  {
    var ps := Elements([e]);
    JoinOne(ps, u, []);
    assert page == t + Join(ps);
    forall j: nat | InGap(t, ps, j) ensures !SomeScriptAt(page, j) {
      OnePieceAfter(t, ps, u, j);
      NoScriptInTag(page, t, u, body, j);
    }
  }

  lemma {:induction false} BothRead(page: ByteString, t: ByteString, u: ByteString, body: ByteString, f: Field,
                                    e: Element)
    requires TagThenCalm(page, t, u, body) && t == Tag(f) && Renderable(f)
    requires u == ElementText(e) && Closable(e) && e.after == [] && e.body == body
    ensures FormFieldsOf(page) == [f] + TokenOf([body])
  {
    BothInputs(page, t, u, body, f);
    BothCalls(page, t, u, body);
    BothScripts(page, t, u, body, e);
    MixedPage(page, [], [Item(f, u)], page, [], t, [e]);
    assert FieldsOf([Item(f, u)]) == [f] && CallFields([]) == [] && BodiesOf([e]) == [body];
  }

  lemma {:induction false} OnePieceAfter(lead: ByteString, ps: seq<Piece>, u: ByteString, j: nat)
    requires ps == [Piece(u, [])] && InGap(lead, ps, j)
    ensures j < |lead|
  {
  }

  lemma {:induction false} JoinOne(ps: seq<Piece>, t: ByteString, after: ByteString)
    requires ps == [Piece(t, after)]
    ensures Join(ps) == t + after
  {
    assert Join(ps[1..]) == [];
  }

  lemma {:induction false} ShadowedIsBoth(token: ByteString)
    requires SimpleToken(token)
    ensures TagThenCalm(ShadowedPage(token), Tag(EMPTY), TokenPage(token), TokenScript(token, [], []))
    ensures Closable(TokenElement(token))
  {
    ScriptIsCalm(token);
    PageIsCalm(TokenScript(token, [], []));
    CalmIsClosable(TokenScript(token, [], []));
    EmptyTag();
  }

  lemma {:induction false} EmptyFieldFirst(token: ByteString)
    requires SimpleToken(token)
    ensures FormFieldsOf(ShadowedPage(token)) == [EMPTY] + TokenOf([TokenScript(token, [], [])])
  {
    ShadowedIsBoth(token);
    EmptyIsRenderable();
    BothRead(ShadowedPage(token), Tag(EMPTY), TokenPage(token), TokenScript(token, [], []), EMPTY, TokenElement(token));
  }

  lemma {:induction false} TokenOfScript(token: ByteString)
    requires SimpleToken(token)
    ensures TokenOf([TokenScript(token, [], [])]) == [Field(TOKEN_NAME, token)]
  {
    var script, n := SameVariableGives(token);
    OneToken(script, token);
  }

  /** A token delivered by script comes after an empty static field of its name. */
  lemma {:induction false} EmptyFieldShadows(token: ByteString)
    requires SimpleToken(token)
    ensures FormFieldsOf(ShadowedPage(token)) == [Field(TOKEN_NAME, []), Field(TOKEN_NAME, token)]
  {
    EmptyFieldFirst(token);
    TokenOfScript(token);
  }
}
