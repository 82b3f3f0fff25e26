/** Scripts that name and value one identifier, in any layout: any white space between the words,
    quotes of either kind, other text before the second call and after it. */
module StyledScripts {
  import opened Bytes
  import opened Regex
  import opened FormPatterns
  import opened Pages
  import opened FormPage
  import opened ScriptTokens
  import opened Variables
  import opened TokenScripts

  // ---- Words with white space before them ----

  function Spread(gaps: seq<ByteString>, words: seq<ByteString>): ByteString
    requires |gaps| == |words|
  {
    if words == [] then [] else gaps[0] + (words[0] + Spread(gaps[1..], words[1..]))
  }

  predicate Blank(s: ByteString) {
    forall k :: 0 <= k < |s| ==> IsSpace(s[k])
  }

  predicate AllBlank(gaps: seq<ByteString>) {
    forall k :: 0 <= k < |gaps| ==> Blank(gaps[k])
  }

  lemma {:induction false} BlankIn(text: ByteString, s: ByteString, i: nat)
    requires Blank(s) && OccursAt(text, s, i)
    ensures AllIn(text, Spaces, i, i + |s|)
  {
    forall j | i <= j < i + |s| ensures InClass(text[j], Spaces) { assert text[j] == text[i..i + |s|][j - i]; }
  }

  lemma {:induction false} SpreadWords(text: ByteString, i: nat, gaps: seq<ByteString>, words: seq<ByteString>)
    requires |gaps| == |words| && AllBlank(gaps) && OccursAt(text, Spread(gaps, words), i)
    ensures Words(text, i, words, i + |Spread(gaps, words)|)
    decreases |words|
  {
    if words != [] {
      var g, w, rest := gaps[0], words[0], Spread(gaps[1..], words[1..]);
      SplitOccurs(text, i, g, w + rest);
      SplitOccurs(text, i + |g|, w, rest);
      BlankIn(text, g, i);
      SpreadWords(text, i + |g| + |w|, gaps[1..], words[1..]);
      assert SpaceTo(text, i, i + |g|, w);
    }
  }

  // ---- The script ----

  /** The identifier, the white space, the quotes and the other text of a script. */
  datatype Style = Style(id: ByteString, lead: ByteString, space: byte, declared: seq<ByteString>, gap: ByteString,
                         named: seq<ByteString>, between: ByteString, pause: ByteString, valued: seq<ByteString>,
                         after: ByteString, tokenQuote: byte, nameQuote: byte, fieldQuote: byte, valueQuote: byte)

  predicate IsStyle(st: Style) {
    && IsIdentifier(st.id) && '$' !in st.id
    && Blank(st.lead) && IsSpace(st.space) && Blank(st.gap) && Blank(st.pause)
    && |st.declared| == 4 && AllBlank(st.declared)
    && |st.named| == 7 && AllBlank(st.named) && |st.valued| == 7 && AllBlank(st.valued)
    && IsQuote(st.tokenQuote) && IsQuote(st.nameQuote) && IsQuote(st.fieldQuote) && IsQuote(st.valueQuote)
  }

  function DeclaredText(st: Style, token: ByteString): ByteString
    requires IsStyle(st)
  {
    "var" + ([st.space] + Spread(st.declared, Declaration(Quoted(st.tokenQuote, token))))
  }

  function NamedText(st: Style): ByteString
    requires IsStyle(st)
  {
    Spread(st.named, SetCall(Quoted(st.nameQuote, "name"), Quoted(st.fieldQuote, TOKEN_NAME)))
  }

  function ValuedText(st: Style): ByteString
    requires IsStyle(st)
  {
    Spread(st.valued, SetCall(Quoted(st.valueQuote, "value"), "session_token"))
  }

  /** var session_token = "TOKEN"; ID.setAttribute("name", "_SESSION_TOKEN") ... ;
      ID.setAttribute("value", session_token) ... */
  function StyledScript(st: Style, token: ByteString): ByteString
    requires IsStyle(st)
  {
    st.lead + (DeclaredText(st, token) + (st.gap + (st.id +
      (NamedText(st) + (st.between + (";" + (st.pause + (st.id + (ValuedText(st) + st.after)))))))))
  }

  /** Where some pieces of a text lie: the second from `d` to `e`, the fourth at `n` and again at `v`,
      and a semicolon before `w`. */
  ghost predicate PiecesLie(text: ByteString, a: ByteString, b: ByteString, c: ByteString, x: ByteString,
                            f: ByteString, p: ByteString, q: ByteString, d: nat, e: nat, n: nat, w: nat, v: nat) {
    && d == |a| && e == d + |b| && n == e + |c| && v == w + |p| && 0 < w
    && OccursAt(text, a, 0) && OccursAt(text, b, d) && OccursAt(text, c, e)
    && OccursAt(text, x, n) && OccursAt(text, f, n + |x|)
    && OccursAt(text, ";", w - 1) && OccursAt(text, p, w) && OccursAt(text, x, v) && OccursAt(text, q, v + |x|)
  }

  /** Where the parts of the script lie: the declaration from `d` to `e`, the identifier at `n` and at
      `v`, and a semicolon before `w`. */
  ghost predicate StyleLies(script: ByteString, st: Style, token: ByteString, d: nat, e: nat, n: nat, w: nat, v: nat)
    requires IsStyle(st)
  {
    PiecesLie(script, st.lead, DeclaredText(st, token), st.gap, st.id, NamedText(st), st.pause, ValuedText(st),
              d, e, n, w, v)
  }

  lemma {:induction false} LatePieces(text: ByteString, i: nat, f: ByteString, g: ByteString, h: ByteString,
                                      p: ByteString, x: ByteString, q: ByteString, r: ByteString, w: nat, v: nat)
    requires OccursAt(text, f + (g + (h + (p + (x + (q + r))))), i)
    requires w == i + |f| + |g| + 1 && |h| == 1 && v == w + |p|
    ensures OccursAt(text, f, i) && OccursAt(text, h, w - 1) && OccursAt(text, p, w)
    ensures OccursAt(text, x, v) && OccursAt(text, q, v + |x|)
  {
    FivePieces(text, i, f, g, h, p, x + (q + r));
    SplitOccurs(text, v, x, q + r);
    SplitOccurs(text, v + |x|, q, r);
  }

  lemma {:induction false} TenPieces(text: ByteString, a: ByteString, b: ByteString, c: ByteString, x: ByteString,
                                     rest: ByteString, f: ByteString, g: ByteString, h: ByteString, p: ByteString,
                                     q: ByteString, r: ByteString, d: nat, e: nat, n: nat, w: nat, v: nat)
    requires text == a + (b + (c + (x + rest))) && rest == f + (g + (h + (p + (x + (q + r))))) && h == ";"
    requires d == |a| && e == d + |b| && n == e + |c| && w == n + |x| + |f| + |g| + 1 && v == w + |p|
    ensures PiecesLie(text, a, b, c, x, f, p, q, d, e, n, w, v)
  {
    assert OccursAt(text, text, 0);
    FivePieces(text, 0, a, b, c, x, rest);
    LatePieces(text, n + |x|, f, g, h, p, x, q, r, w, v);
  }

  lemma {:induction false} StyledLies(st: Style, token: ByteString) returns (d: nat, e: nat, n: nat, w: nat, v: nat)
    requires IsStyle(st)
    ensures StyleLies(StyledScript(st, token), st, token, d, e, n, w, v)
  {
    var declared, named, valued := DeclaredText(st, token), NamedText(st), ValuedText(st);
    d := |st.lead|;
    e := d + |declared|;
    n := e + |st.gap|;
    w := n + |st.id| + |named| + |st.between| + 1;
    v := w + |st.pause|;
    var rest := named + (st.between + (";" + (st.pause + (st.id + (valued + st.after)))));
    TenPieces(StyledScript(st, token), st.lead, declared, st.gap, st.id, rest, named, st.between, ";", st.pause, valued,
              st.after, d, e, n, w, v);
  }

  // ---- The declaration ----

  /** `var` stands at `d`, white space after it, and then the words of a declaration up to `e`; its
      literal is quoted from `k` to `f`. */
  ghost predicate DeclarationLies(script: ByteString, d: nat, e: nat, token: ByteString, a: nat, b: nat, k: nat,
                                  f: nat) {
    && OccursAt(script, "var", d) && d + 3 < |script| && IsSpace(script[d + 3]) && 0 < e <= |script|
    && DeclaredLies(script, d + 4, "session_token", "=", ";", a, b, k, f, e - 1) && script[k + 1..f] == token
  }

  lemma {:induction false} DeclaredWords(script: ByteString, st: Style, token: ByteString, d: nat)
    requires IsStyle(st) && OccursAt(script, DeclaredText(st, token), d)
    ensures OccursAt(script, "var", d) && d + 3 < |script| && IsSpace(script[d + 3])
    ensures Words(script, d + 4, Declaration(Quoted(st.tokenQuote, token)), d + |DeclaredText(st, token)|)
  {
    var words := Declaration(Quoted(st.tokenQuote, token));
    FourPieces(script, d, "var", [st.space], Spread(st.declared, words), []);
    assert "var" + ([st.space] + (Spread(st.declared, words) + [])) == DeclaredText(st, token);
    FirstOfPiece(script, [st.space], d + 3);
    SpreadWords(script, d + 4, st.declared, words);
  }

  lemma {:induction false} DeclarationParts(script: ByteString, st: Style, token: ByteString, d: nat, e: nat)
    returns (a: nat, b: nat, k: nat, f: nat)
    requires IsStyle(st) && NoQuotes(token)
    requires OccursAt(script, DeclaredText(st, token), d) && e == d + |DeclaredText(st, token)|
    ensures DeclarationLies(script, d, e, token, a, b, k, f)
  {
    var word := Quoted(st.tokenQuote, token);
    DeclaredWords(script, st, token, d);
    var l;
    a, b, k, f, l := WordsGiveLies(script, d + 4, "session_token", "=", ";", word, token, e);
  }

  lemma {:induction false} SpaceByte(text: ByteString, i: nat, k: nat, word: ByteString, j: nat)
    requires SpaceTo(text, i, k, word) && i <= j < k
    ensures IsSpace(text[j])
  {
    assert InClass(text[j], Spaces);
  }

  /** A byte of a word of the declaration. */
  predicate Wordly(c: byte) { c != '.' && !IsQuote(c) }

  lemma {:induction false} WordlyPiece(text: ByteString, word: ByteString, i: nat, j: nat)
    requires OccursAt(text, word, i) && i <= j < i + |word| && forall c :: c in word ==> Wordly(c)
    ensures Wordly(text[j])
  {
    PieceByte(text, word, i);
  }

  /** In the declaration dots stand in the literal only, and its quotes are the only ones. */
  lemma {:induction false} DeclaredByte(script: ByteString, d: nat, e: nat, token: ByteString, a: nat, b: nat, k: nat,
                                        f: nat, j: nat)
    requires DeclarationLies(script, d, e, token, a, b, k, f) && d <= j < e
    ensures j == k || j == f || !IsQuote(script[j])
    ensures k < j < f || script[j] != '.'
  {
    if j < d + 3 { WordlyPiece(script, "var", d, j); }
    else if j == d + 3 { }
    else if j < a { SpaceByte(script, d + 4, a, "session_token", j); }
    else if j < a + 13 { WordlyPiece(script, "session_token", a, j); }
    else if j < b { SpaceByte(script, a + 13, b, "=", j); }
    else { LateByte(script, d, e, token, a, b, k, f, j); }
  }

  lemma {:induction false} LateByte(script: ByteString, d: nat, e: nat, token: ByteString, a: nat, b: nat, k: nat,
                                    f: nat, j: nat)
    requires DeclarationLies(script, d, e, token, a, b, k, f) && b <= j < e
    ensures j == k || j == f || !IsQuote(script[j])
    ensures k < j < f || script[j] != '.'
  {
    if j == b { FirstOfPiece(script, "=", b); }
    else if j < k { SpaceByte(script, b + 1, k, Quoted(script[k], script[k + 1..f]), j); }
    else if j == k || j == f { QuotesEnd(script, k, f); }
    else if j < f { assert script[j] == script[k + 1..f][j - k - 1]; }
    else if j < e - 1 { SpaceByte(script, f + 1, e - 1, ";", j); }
    else { FirstOfPiece(script, ";", e - 1); }
  }

  lemma {:induction false} QuotesEnd(script: ByteString, k: nat, f: nat)
    requires k < f < |script| && IsQuote(script[k]) && OccursAt(script, Quoted(script[k], script[k + 1..f]), k)
    ensures IsQuote(script[f])
  {
    var word := Quoted(script[k], script[k + 1..f]);
    assert |word| == f + 1 - k && word[f - k] == script[k];
    assert script[k..k + |word|][f - k] == script[f];
  }

  lemma {:induction false} SpacesHaveNoVar(script: ByteString, lead: ByteString, j: nat, t: ByteString)
    requires OccursAt(script, lead, 0) && Blank(lead) && j < |lead|
    ensures !DeclaresAt(script, j, t)
  {
    BlankIn(script, lead, 0);
    assert InClass(script[j], Spaces);
    if OccursAt(script, "var", j) { FirstOfPiece(script, "var", j); }
  }

  lemma {:induction false} IsFirstDeclared(script: ByteString, lead: ByteString, word: ByteString, token: ByteString,
                                           d: nat, e: nat)
    requires OccursAt(script, lead, 0) && Blank(lead) && d == |lead|
    requires OccursAt(script, "var", d) && d + 3 < |script| && IsSpace(script[d + 3])
    requires NoQuotes(token) && QuotedForm(word, token) && Words(script, d + 4, Declaration(word), e)
    ensures FirstDeclares(script, d, token)
  {
    FirstOfPiece(script, "var", d);
    BlankIn(script, lead, 0);
    assert d > 0 ==> InClass(script[d - 1], Spaces);
    assert DeclaredWith(script, d, token, word, e);
    forall j: nat, t | j < d ensures !DeclaresAt(script, j, t) { SpacesHaveNoVar(script, lead, j, t); }
  }

  // ---- The first name ----

  /** From its identifier up to the quote of its key a call has no quote and no semicolon. */
  ghost predicate Unbroken(script: ByteString, i: nat, k: nat) {
    i <= k <= |script| && forall x :: i <= x < k ==> !IsQuote(script[x]) && script[x] != ';'
  }

  lemma {:induction false} UnbrokenWord(script: ByteString, i: nat, k: nat, word: ByteString)
    requires SpaceTo(script, i, k, word) && forall c :: c in word ==> !IsQuote(c) && c != ';'
    ensures Unbroken(script, i, k + |word|)
  {
    PieceByte(script, word, k);
    forall x | i <= x < k + |word| ensures !IsQuote(script[x]) && script[x] != ';' {
      if x < k { assert InClass(script[x], Spaces); } else { assert script[x] in word; }
    }
  }

  lemma {:induction false} UnbrokenGap(script: ByteString, i: nat, k: nat, word: ByteString)
    requires SpaceTo(script, i, k, word)
    ensures Unbroken(script, i, k)
  {
    forall x | i <= x < k ensures !IsQuote(script[x]) && script[x] != ';' { assert InClass(script[x], Spaces); }
  }

  lemma {:induction false} UnbrokenName(script: ByteString, j: nat, y: ByteString)
    requires IsIdentifier(y) && OccursAt(script, y, j)
    ensures Unbroken(script, j, j + |y|)
  {
    NameIsTail(script, j, y);
    forall x | j <= x < j + |y| ensures !IsQuote(script[x]) && script[x] != ';' {
      assert InClass(script[x], IdentTail);
    }
  }

  /** The dot of a call and the quote of its key, which its key follows. */
  lemma {:induction false} NamingQuote(script: ByteString, j: nat, y: ByteString) returns (a: nat, q: nat)
    requires NamesAt(script, j, y)
    ensures j < a < q < |script| && script[a] == '.' && IsQuote(script[q]) && Unbroken(script, j, q)
    ensures q + 1 < |script| && script[q + 1] == 'n'
  {
    var key, value, end: nat :| NamedWith(script, j, y, key, value, end);
    var b, c;
    a, b, c, q := KeyPosition(script, j + |y|, key, value, end);
    FirstOfPiece(script, ".", a);
    UnbrokenName(script, j, y);
    UnbrokenWord(script, j + |y|, a, ".");
    UnbrokenWord(script, a + 1, b, "setAttribute");
    UnbrokenWord(script, b + 12, c, "(");
    UnbrokenGap(script, c + 1, q, key);
    KeyStarts(script, q, key);
  }

  lemma {:induction false} KeyStarts(script: ByteString, q: nat, key: ByteString)
    requires OccursAt(script, key, q) && QuotedForm(key, "name")
    ensures q + 1 < |script| && IsQuote(script[q]) && script[q + 1] == 'n'
  {
    var s: ByteString := "name";
    assert key == [key[0]] + s + [key[0]] && key[1] == s[0];
    assert script[q..q + |key|][0] == script[q] && script[q..q + |key|][1] == script[q + 1];
  }

  /** A quote that a dot leads to without a break is the one that closes the literal. */
  lemma {:induction false} QuoteAfterDot(script: ByteString, d: nat, e: nat, token: ByteString, a: nat, b: nat, k: nat,
                                         f: nat, j: nat, dot: nat, q: nat)
    requires DeclarationLies(script, d, e, token, a, b, k, f) && d <= j < e
    requires j < dot < q < |script| && script[dot] == '.' && IsQuote(script[q]) && Unbroken(script, j, q)
    ensures q + 1 < |script| && script[q + 1] != 'n'
  {
    FirstOfPiece(script, ";", e - 1);
    DeclaredByte(script, d, e, token, a, b, k, f, dot);
    DeclaredByte(script, d, e, token, a, b, k, f, q);
    assert q == f;
    AfterLiteral(script, f, e);
  }

  lemma {:induction false} NothingNamedInDeclaration(script: ByteString, d: nat, e: nat, token: ByteString, a: nat,
                                                     b: nat, k: nat, f: nat, j: nat, y: ByteString)
    requires DeclarationLies(script, d, e, token, a, b, k, f) && d <= j < e
    ensures !NamesAt(script, j, y)
  {
    if NamesAt(script, j, y) {
      var dot, q := NamingQuote(script, j, y);
      QuoteAfterDot(script, d, e, token, a, b, k, f, j, dot, q);
    }
  }

  lemma {:induction false} AfterLiteral(script: ByteString, f: nat, e: nat)
    requires e > 0 && SpaceTo(script, f + 1, e - 1, ";")
    ensures f + 1 < |script| && script[f + 1] != 'n'
  {
    FirstOfPiece(script, ";", e - 1);
    if f + 1 < e - 1 { SpaceByte(script, f + 1, e - 1, ";", f + 1); }
  }

  lemma {:induction false} NothingNamedInBlank(script: ByteString, s: ByteString, i: nat, j: nat, y: ByteString)
    requires Blank(s) && OccursAt(script, s, i) && i <= j < i + |s|
    ensures !NamesAt(script, j, y)
  {
    BlankIn(script, s, i);
    assert InClass(script[j], Spaces);
    if NamesAt(script, j, y) { FirstOfPiece(script, y, j); }
  }

  lemma {:induction false} IsFirstNaming(script: ByteString, st: Style, token: ByteString, d: nat, e: nat, n: nat)
    requires IsStyle(st) && NoQuotes(token) && d == |st.lead| && n == e + |st.gap|
    requires OccursAt(script, st.lead, 0) && OccursAt(script, st.gap, e)
    requires OccursAt(script, DeclaredText(st, token), d) && e == d + |DeclaredText(st, token)|
    requires NamesAt(script, n, st.id)
    ensures FirstNames(script, n, st.id)
  {
    var a, b, k, f := DeclarationParts(script, st, token, d, e);
    forall j: nat, y | j < n ensures !NamesAt(script, j, y) {
      if j < d { NothingNamedInBlank(script, st.lead, 0, j, y); }
      else if j < e { NothingNamedInDeclaration(script, d, e, token, a, b, k, f, j, y); }
      else { NothingNamedInBlank(script, st.gap, e, j, y); }
    }
  }

  // ---- The identifier takes name and value ----

  /** After a semicolon and white space an identifier without `$` begins at a word boundary, and its
      name is all of it. */
  lemma {:induction false} AfterPause(script: ByteString, w: nat, v: nat, id: ByteString)
    requires 0 < w <= v && OccursAt(script, ";", w - 1) && v <= |script| && AllIn(script, Spaces, w, v)
    requires IsIdentifier(id) && '$' !in id && OccursAt(script, id, v)
    ensures BoundaryAt(script, v) && RunStart(script, v) == v && !AfterDot(script, v)
  {
    FirstOfPiece(script, ";", w - 1);
    FirstOfPiece(script, id, v);
    assert id[0] in id;
    assert w < v ==> InClass(script[v - 1], Spaces);
    RunStartIs(script, v, v);
    SpaceStartIs(script, w, v);
  }

  lemma {:induction false} SpaceStartIs(script: ByteString, w: nat, v: nat)
    requires 0 < w <= v <= |script| && AllIn(script, Spaces, w, v) && !IsSpace(script[w - 1])
    ensures SpaceStart(script, v) == w
  {
    if w < v {
      assert InClass(script[v - 1], Spaces);
      SpaceStartIs(script, w, v - 1);
    }
  }

  lemma {:induction false} NamesFrom(script: ByteString, st: Style, n: nat)
    requires IsStyle(st) && OccursAt(script, st.id, n) && OccursAt(script, NamedText(st), n + |st.id|)
    requires BoundaryAt(script, n)
    ensures NamesAt(script, n, st.id)
  {
    var key, value := Quoted(st.nameQuote, "name"), Quoted(st.fieldQuote, TOKEN_NAME);
    SpreadWords(script, n + |st.id|, st.named, SetCall(key, value));
    assert NamedWith(script, n, st.id, key, value, n + |st.id| + |NamedText(st)|);
  }

  lemma {:induction false} ValuesFromStyle(script: ByteString, st: Style, v: nat)
    requires IsStyle(st) && OccursAt(script, st.id, v) && OccursAt(script, ValuedText(st), v + |st.id|)
    requires BoundaryAt(script, v)
    ensures ValuesAt(script, v, st.id)
  {
    var key := Quoted(st.valueQuote, "value");
    SpreadWords(script, v + |st.id|, st.valued, SetCall(key, "session_token"));
    assert ValuedWith(script, v, st.id, key, v + |st.id| + |ValuedText(st)|);
  }

  lemma {:induction false} DeclaredLast(script: ByteString, st: Style, token: ByteString, d: nat, e: nat)
    requires IsStyle(st) && NoQuotes(token)
    requires OccursAt(script, DeclaredText(st, token), d) && e == d + |DeclaredText(st, token)|
    ensures 0 < e && OccursAt(script, ";", e - 1) && FirstDeclaredAt(script, st, token, d, e)
  {
    var a, b, k, f := DeclarationParts(script, st, token, d, e);
    DeclaredWords(script, st, token, d);
  }

  ghost predicate FirstDeclaredAt(script: ByteString, st: Style, token: ByteString, d: nat, e: nat) {
    && OccursAt(script, "var", d) && d + 3 < |script| && IsSpace(script[d + 3])
    && Words(script, d + 4, Declaration(Quoted(st.tokenQuote, token)), e)
  }

  lemma {:induction false} LiesDeclares(script: ByteString, st: Style, token: ByteString, d: nat, e: nat)
    requires IsStyle(st) && NoQuotes(token) && d == |st.lead| && OccursAt(script, st.lead, 0)
    requires OccursAt(script, DeclaredText(st, token), d) && e == d + |DeclaredText(st, token)|
    ensures 0 < e && OccursAt(script, ";", e - 1) && FirstDeclares(script, d, token)
  {
    DeclaredLast(script, st, token, d, e);
    IsFirstDeclared(script, st.lead, Quoted(st.tokenQuote, token), token, d, e);
  }

  lemma {:induction false} LiesTakes(script: ByteString, st: Style, e: nat, n: nat, w: nat, v: nat)
    requires IsStyle(st) && n == e + |st.gap| && v == w + |st.pause| && 0 < e && 0 < w
    requires OccursAt(script, ";", e - 1) && OccursAt(script, st.gap, e)
    requires OccursAt(script, st.id, n) && OccursAt(script, NamedText(st), n + |st.id|)
    requires OccursAt(script, ";", w - 1) && OccursAt(script, st.pause, w)
    requires OccursAt(script, st.id, v) && OccursAt(script, ValuedText(st), v + |st.id|)
    ensures NamesAt(script, n, st.id) && ValuesAt(script, v, st.id) && SameName(script, n, v, st.id)
  {
    BlankIn(script, st.gap, e);
    BlankIn(script, st.pause, w);
    AfterPause(script, e, n, st.id);
    AfterPause(script, w, v, st.id);
    NamesFrom(script, st, n);
    ValuesFromStyle(script, st, v);
    SameBegin(script, n, v, st.id);
  }

  lemma {:induction false} LiesGives(script: ByteString, st: Style, token: ByteString, d: nat, e: nat, n: nat, w: nat,
                                     v: nat)
    requires IsStyle(st) && NoQuotes(token) && StyleLies(script, st, token, d, e, n, w, v)
    ensures FirstDeclares(script, d, token) && FirstNames(script, n, st.id) && ValuesAt(script, v, st.id)
    ensures SameName(script, n, v, st.id)
  {
    LiesDeclares(script, st, token, d, e);
    LiesTakes(script, st, e, n, w, v);
    IsFirstNaming(script, st, token, d, e, n);
  }

  lemma {:induction false} SameBegin(script: ByteString, n: nat, v: nat, id: ByteString)
    requires n <= |script| && v <= |script| && RunStart(script, n) == n && RunStart(script, v) == v
    requires IsIdentifier(id) && !AfterDot(script, n) && !AfterDot(script, v)
    ensures SameName(script, n, v, id)
  {
    assert script[n..n] == [] && script[v..v] == [] && [] + id == id;
  }

  lemma {:induction false} FirstsGive(script: ByteString, token: ByteString, d: nat, n: nat, v: nat, id: ByteString)
    requires FirstDeclares(script, d, token) && FirstNames(script, n, id) && ValuesAt(script, v, id)
    requires '$' !in id && SameName(script, n, v, id)
    ensures ScriptToken(script) == Some(token) && OneVariable(script, n + |id|)
  {
    assert NamedTakesValue(script);
    ScriptTokenMeaning(script, token);
    assert SameNameTaken(script, n, id);
    TokenFromOneVariable(script, token, n, id);
  }

  /** A script that declares the token, and sets name and value through one identifier, gives the
      token in every layout, and the token comes from one variable. */
  lemma {:induction false} StyledGives(st: Style, token: ByteString) returns (n: nat)
    requires IsStyle(st) && NoQuotes(token)
    ensures ScriptToken(StyledScript(st, token)) == Some(token)
    ensures FirstNames(StyledScript(st, token), n, st.id) && OneVariable(StyledScript(st, token), n + |st.id|)
  {
    var script := StyledScript(st, token);
    var d, e, w, v;
    d, e, n, w, v := StyledLies(st, token);
    LiesGives(script, st, token, d, e, n, w, v);
    FirstsGive(script, token, d, n, v, st.id);
  }
}
