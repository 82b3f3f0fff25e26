/** Rendering a token as a script: scripts that give it, and scripts that give it although no one
    variable takes both the name and the value. */
module TokenScripts {
  import opened Bytes
  import opened Regex
  import opened FormPatterns
  import opened Pages
  import opened FormPage
  import opened ScriptTokens
  import opened Variables

  // ---- Words written without white space ----

  function Concat(words: seq<ByteString>): ByteString {
    if words == [] then [] else words[0] + Concat(words[1..])
  }

  lemma {:induction false} TightWords(text: ByteString, i: nat, words: seq<ByteString>)
    requires OccursAt(text, Concat(words), i)
    ensures Words(text, i, words, i + |Concat(words)|)
    decreases |words|
  {
    if words != [] {
      SplitOccurs(text, i, words[0], Concat(words[1..]));
      TightWords(text, i + |words[0]|, words[1..]);
      assert SpaceTo(text, i, i, words[0]);
    }
  }

  lemma {:induction false} ConcatLacks(words: seq<ByteString>, c: byte)
    requires forall k :: 0 <= k < |words| ==> c !in words[k]
    ensures c !in Concat(words)
  {
    if words != [] { ConcatLacks(words[1..], c); }
  }

  // ---- The script ----

  /** The identifier that takes the name and the value. */
  const X: ByteString := "x"

  const DOLLAR: ByteString := ['$']

  function Declared(token: ByteString): ByteString {
    "var " + Concat(Declaration(Quoted('\"', token)))
  }

  function Naming(): ByteString {
    Concat(SetCall(Quoted('\"', "name"), Quoted('\"', TOKEN_NAME)))
  }

  function Valuing(): ByteString {
    Concat(SetCall(Quoted('\"', "value"), "session_token"))
  }

  /** var session_token="TOKEN";Px.setAttribute("name","_SESSION_TOKEN");Qx.setAttribute("value",session_token) */
  function TokenScript(token: ByteString, p: ByteString, q: ByteString): ByteString {
    Declared(token) + (p + (X + (Naming() + (";" + (q + (X + Valuing()))))))
  }

  function NamedAt(token: ByteString, p: ByteString): nat { |Declared(token)| + |p| }

  function ValuedAt(token: ByteString, p: ByteString, q: ByteString): nat {
    NamedAt(token, p) + 2 + |Naming()| + |q|
  }

  /** Where eight pieces of a text lie, the fourth from `n + 1` on and the last from `v + 1` on. */
  ghost predicate EightLie(text: ByteString, a: ByteString, b: ByteString, c: ByteString, d: ByteString,
                           e: ByteString, f: ByteString, g: ByteString, h: ByteString, n: nat, v: nat) {
    && n == |a| + |b| && v == n + 2 + |d| + |f| && |text| == v + 1 + |h|
    && OccursAt(text, a, 0) && OccursAt(text, b, |a|) && OccursAt(text, c, n)
    && OccursAt(text, d, n + 1) && OccursAt(text, e, n + 1 + |d|) && OccursAt(text, f, n + 2 + |d|)
    && OccursAt(text, g, v) && OccursAt(text, h, v + 1)
  }

  /** Where the parts of the script lie. */
  ghost predicate ScriptLies(script: ByteString, token: ByteString, p: ByteString, q: ByteString, n: nat, v: nat) {
    EightLie(script, Declared(token), p, X, Naming(), ";", q, X, Valuing(), n, v)
  }

  lemma {:induction false} EightPieces(text: ByteString, a: ByteString, b: ByteString, c: ByteString, d: ByteString,
                                       e: ByteString, f: ByteString, g: ByteString, h: ByteString, n: nat, v: nat)
    requires text == a + (b + (c + (d + (e + (f + (g + h))))))
    requires |c| == |e| == |g| == 1 && n == |a| + |b| && v == n + 2 + |d| + |f|
    ensures EightLie(text, a, b, c, d, e, f, g, h, n, v)
  {
    assert OccursAt(text, text, 0);
    FourPieces(text, 0, a, b, c, d + (e + (f + (g + h))));
    FivePieces(text, n + 1, d, e, f, g, h);
  }

  lemma {:induction false} ScriptHasParts(token: ByteString, p: ByteString, q: ByteString)
    ensures ScriptLies(TokenScript(token, p, q), token, p, q, NamedAt(token, p), ValuedAt(token, p, q))
  {
    EightPieces(TokenScript(token, p, q), Declared(token), p, X, Naming(), ";", q, X, Valuing(),
                NamedAt(token, p), ValuedAt(token, p, q));
  }

  lemma {:induction false} ConcatEnds(words: seq<ByteString>)
    requires words != [] && |words[|words| - 1]| == 1
    ensures Concat(words) != [] && Concat(words)[|Concat(words)| - 1] == words[|words| - 1][0]
  {
    if |words| > 1 { ConcatEnds(words[1..]); } else { assert Concat(words[1..]) == []; }
  }

  lemma {:induction false} VarBytes(script: ByteString)
    requires OccursAt(script, "var ", 0)
    ensures OccursAt(script, "var", 0) && BoundaryAt(script, 0) && script[3] == ' '
  {
    var s: ByteString := "var ";
    PieceByte(script, s, 0);
    assert script[0..3] == s[..3] == "var";
    assert s[0] == 'v' && s[3] == ' ';
    assert script[0 + 0] == s[0] && script[0 + 3] == s[3];
  }

  lemma {:induction false} IsDeclared(script: ByteString, token: ByteString)
    requires OccursAt(script, Declared(token), 0) && NoQuotes(token)
    ensures FirstDeclares(script, 0, token)
  {
    var words := Declaration(Quoted('\"', token));
    SplitOccurs(script, 0, "var ", Concat(words));
    VarBytes(script);
    TightWords(script, 4, words);
    DeclaresFrom(script, token, Quoted('\"', token), 4 + |Concat(words)|);
  }

  lemma {:induction false} DeclaresFrom(script: ByteString, token: ByteString, word: ByteString, end: nat)
    requires OccursAt(script, "var", 0) && BoundaryAt(script, 0) && |script| > 3 && script[3] == ' ' && NoQuotes(token)
    requires word == Quoted('\"', token) && Words(script, 4, Declaration(word), end)
    ensures FirstDeclares(script, 0, token)
  {
    assert DeclaredWith(script, 0, token, word, end);
    assert DeclaresAt(script, 0, token);
  }

  lemma {:induction false} DeclaredEnds(script: ByteString, token: ByteString)
    requires OccursAt(script, Declared(token), 0)
    ensures 0 < |Declared(token)| <= |script| && script[|Declared(token)| - 1] == ';'
  {
    var words := Declaration(Quoted('\"', token));
    ConcatEnds(words);
    PieceByte(script, Declared(token), 0);
    var d := Declared(token);
    assert script[0 + (|d| - 1)] == d[|d| - 1] == Concat(words)[|Concat(words)| - 1];
  }

  lemma {:induction false} IsNamed(script: ByteString, n: nat)
    requires OccursAt(script, X, n) && OccursAt(script, Naming(), n + 1) && BoundaryAt(script, n)
    ensures NamesAt(script, n, X)
  {
    var key, value := Quoted('\"', "name"), Quoted('\"', TOKEN_NAME);
    TightWords(script, n + 1, SetCall(key, value));
    assert NamedWith(script, n, X, key, value, n + 1 + |Naming()|);
  }

  lemma {:induction false} IsValued(script: ByteString, v: nat)
    requires OccursAt(script, X, v) && OccursAt(script, Valuing(), v + 1) && BoundaryAt(script, v)
    ensures ValuesAt(script, v, X)
  {
    var key := Quoted('\"', "value");
    TightWords(script, v + 1, SetCall(key, "session_token"));
    assert ValuedWith(script, v, X, key, v + 1 + |Valuing()|);
  }

  // ---- Nothing else in the script names or takes ----

  /** An identifier that takes a name is followed, within white space, by a dot, and the dot by the
      method's first letter. */
  lemma {:induction false} NamingDot(script: ByteString, j: nat, y: ByteString) returns (k: nat)
    requires NamesAt(script, j, y)
    ensures j < k < |script| && script[k] == '.' && InClass(script[j], IdentHead)
    ensures forall i :: j <= i < k ==> InClass(script[i], IdentTail) || IsSpace(script[i])
    ensures k + 1 < |script| && (IsSpace(script[k + 1]) || script[k + 1] == 's')
  {
    var key, value, end: nat :| NamedWith(script, j, y, key, value, end);
    k := DotAfter(script, j + |y|, key, value, end);
    NameIsTail(script, j, y);
    assert script[j] == script[j..j + |y|][0];
    forall i | j <= i < k ensures InClass(script[i], IdentTail) || IsSpace(script[i]) {
      if i >= j + |y| { assert InClass(script[i], Spaces); }
    }
  }

  lemma {:induction false} DotAfter(script: ByteString, e: nat, key: ByteString, value: ByteString, end: nat)
    returns (k: nat)
    requires Words(script, e, SetCall(key, value), end)
    ensures e <= k < |script| && script[k] == '.' && AllIn(script, Spaces, e, k)
    ensures k + 1 < |script| && (IsSpace(script[k + 1]) || script[k + 1] == 's')
  {
    var rest := ["setAttribute", "(", key, ",", value, ")"];
    assert SetCall(key, value) == ["."] + rest;
    k := WordsUncons(script, e, ["."] + rest, end);
    FirstOfPiece(script, ".", k);
    assert (["."] + rest)[1..] == rest == ["setAttribute"] + rest[1..];
    IdentifierEnds(script, k + 1, "setAttribute", rest[1..], end);
  }

  /** `$`, or one letter and a dot, or nothing. */
  predicate ShortPrefix(p: ByteString) {
    p == [] || p == DOLLAR || (|p| == 2 && IsAlpha(p[0]) && p[1] == '.')
  }

  lemma {:induction false} NoNamingInDeclaration(script: ByteString, d: nat, j: nat, y: ByteString)
    requires j < d <= |script| && script[d - 1] == ';' && forall i :: 0 <= i < d ==> script[i] != '.'
    ensures !NamesAt(script, j, y)
  {
    if NamesAt(script, j, y) { var k := NamingDot(script, j, y); }
  }

  lemma {:induction false} NoNamingAtDot(script: ByteString, j: nat, y: ByteString)
    requires j < |script| && script[j] == '.'
    ensures !NamesAt(script, j, y)
  {
    if NamesAt(script, j, y) { var k := NamingDot(script, j, y); }
  }

  lemma {:induction false} NoNamingBeforeProperty(script: ByteString, j: nat, y: ByteString)
    requires j + 2 < |script| && script[j + 1] == '.' && script[j + 2] == 'x'
    ensures !NamesAt(script, j, y)
  {
    if NamesAt(script, j, y) { var k := NamingDot(script, j, y); }
  }

  lemma {:induction false} NoNamingInPrefix(script: ByteString, d: nat, p: ByteString, j: nat, y: ByteString)
    requires OccursAt(script, p, d) && OccursAt(script, X, d + |p|) && 0 < d && script[d - 1] == ';'
    requires ShortPrefix(p) && d <= j < d + |p|
    ensures !NamesAt(script, j, y)
  {
    PieceByte(script, p, d);
    FirstOfPiece(script, X, d + |p|);
    assert script[d + 0] == p[0];
    if |p| == 2 {
      assert script[d + 1] == p[1];
      if j == d { NoNamingBeforeProperty(script, d, y); } else { NoNamingAtDot(script, d + 1, y); }
    }
  }

  lemma {:induction false} DeclaredLacks(token: ByteString, c: byte)
    requires c !in token && (c == '.' || c == 'x')
    ensures c !in Declared(token)
  {
    var words := Declaration(Quoted('\"', token));
    assert words == ["session_token", "=", Quoted('\"', token), ";"];
    ConcatLacks(words, c);
  }

  lemma {:induction false} CallLacks(key: ByteString, value: ByteString)
    requires 'x' !in key && 'x' !in value
    ensures 'x' !in Concat(SetCall(key, value))
  {
    assert SetCall(key, value) == [".", "setAttribute", "(", key, ",", value, ")"];
    ConcatLacks(SetCall(key, value), 'x');
  }

  lemma {:induction false} CallsLackX()
    ensures 'x' !in Naming() && 'x' !in Valuing()
  {
    CallLacks(Quoted('\"', "name"), Quoted('\"', TOKEN_NAME));
    CallLacks(Quoted('\"', "value"), "session_token");
  }

  /** After a declaration without dots and such a prefix, nothing names before `n`. */
  lemma {:induction false} NoNamingBefore(script: ByteString, d: nat, p: ByteString, n: nat, j: nat, y: ByteString)
    requires 0 < d <= |script| && script[d - 1] == ';' && forall i :: 0 <= i < d ==> script[i] != '.'
    requires OccursAt(script, p, d) && OccursAt(script, X, n) && n == d + |p| && ShortPrefix(p) && j < n
    ensures !NamesAt(script, j, y)
  {
    if j < d { NoNamingInDeclaration(script, d, j, y); } else { NoNamingInPrefix(script, d, p, j, y); }
  }

  lemma {:induction false} BoundaryAfterPrefix(script: ByteString, d: nat, p: ByteString, n: nat)
    requires 0 < d <= |script| && script[d - 1] == ';'
    requires OccursAt(script, p, d) && OccursAt(script, X, n) && n == d + |p| && ShortPrefix(p)
    ensures BoundaryAt(script, n)
  {
    FirstOfPiece(script, X, n);
    if p != [] { LastOfPiece(script, p, d); }
  }

  lemma {:induction false} NoDotIn(script: ByteString, d: ByteString)
    requires OccursAt(script, d, 0) && '.' !in d
    ensures forall i :: 0 <= i < |d| ==> script[i] != '.'
  {
    forall i | 0 <= i < |d| ensures script[i] != '.' { Elsewhere(script, d, 0, '.', i); }
  }

  lemma {:induction false} IsFirstNamed(script: ByteString, token: ByteString, p: ByteString, q: ByteString,
                                        n: nat, v: nat)
    requires ScriptLies(script, token, p, q, n, v) && ShortPrefix(p) && '.' !in token
    ensures FirstNames(script, n, X)
  {
    var d := |Declared(token)|;
    DeclaredEnds(script, token);
    DeclaredLacks(token, '.');
    NoDotIn(script, Declared(token));
    BoundaryAfterPrefix(script, d, p, n);
    IsNamed(script, n);
    forall j: nat, y | j < n ensures !NamesAt(script, j, y) { NoNamingBefore(script, d, p, n, j, y); }
  }

  lemma {:induction false} Elsewhere(text: ByteString, t: ByteString, i: nat, c: byte, j: nat)
    requires OccursAt(text, t, i) && c !in t && i <= j < i + |t|
    ensures text[j] != c
  {
    PieceByte(text, t, i);
  }

  lemma {:induction false} InSomePiece(text: ByteString, a: ByteString, b: ByteString, d: ByteString, e: ByteString,
                                       f: ByteString, h: ByteString, n: nat, v: nat, c: byte, j: nat)
    requires n == |a| + |b| && v == n + 1 + |d| + |e| + |f| && |text| == v + 1 + |h|
    requires OccursAt(text, a, 0) && OccursAt(text, b, |a|) && OccursAt(text, d, n + 1)
             && OccursAt(text, e, n + 1 + |d|)
    requires OccursAt(text, f, n + 1 + |d| + |e|) && OccursAt(text, h, v + 1)
    requires c !in a && c !in b && c !in d && c !in e && c !in f && c !in h
    requires j < |text| && j != n && j != v
    ensures text[j] != c
  {
    if j < |a| { Elsewhere(text, a, 0, c, j); }
    else if j < n { Elsewhere(text, b, |a|, c, j); }
    else if j < n + 1 + |d| { Elsewhere(text, d, n + 1, c, j); }
    else if j < n + 1 + |d| + |e| { Elsewhere(text, e, n + 1 + |d|, c, j); }
    else if j < v { Elsewhere(text, f, n + 1 + |d| + |e|, c, j); }
    else { Elsewhere(text, h, v + 1, c, j); }
  }

  /** `x` stands at two places only. */
  lemma {:induction false} WhereXStands(script: ByteString, token: ByteString, p: ByteString, q: ByteString,
                                        n: nat, v: nat, j: nat)
    requires ScriptLies(script, token, p, q, n, v) && 'x' !in token && 'x' !in p && 'x' !in q
    requires j < |script| && j != n && j != v
    ensures script[j] != 'x'
  {
    DeclaredLacks(token, 'x');
    CallsLackX();
    InSomePiece(script, Declared(token), p, Naming(), ";", q, Valuing(), n, v, 'x', j);
  }

  /** A call that names is not a call that values. */
  lemma {:induction false} NamingIsNotValuing(script: ByteString, n: nat)
    requires NamesAt(script, n, X)
    ensures !ValuesAt(script, n, X)
  {
    var key, value, end: nat :| NamedWith(script, n, X, key, value, end);
    if ValuesAt(script, n, X) {
      var word, stop: nat :| ValuedWith(script, n, X, word, stop);
      KeyUnique(script, n + 1, key, "name", value, end, word, "value", "session_token", stop);
    }
  }

  lemma {:induction false} KeyPosition(text: ByteString, i: nat, key: ByteString, value: ByteString, end: nat)
    returns (a: nat, b: nat, c: nat, k: nat)
    requires Words(text, i, SetCall(key, value), end)
    ensures SpaceTo(text, i, a, ".") && SpaceTo(text, a + 1, b, "setAttribute") && SpaceTo(text, b + 12, c, "(")
    ensures SpaceTo(text, c + 1, k, key)
  {
    var w3, w2, w1 := [key, ",", value, ")"], ["(", key, ",", value, ")"], ["setAttribute", "(", key, ",", value, ")"];
    assert SetCall(key, value) == ["."] + w1 && w1 == ["setAttribute"] + w2 && w2 == ["("] + w3
      && w3 == [key] + [",", value, ")"];
    a := WordsUncons(text, i, ["."] + w1, end);
    assert (["."] + w1)[1..] == w1;
    b := WordsUncons(text, a + 1, ["setAttribute"] + w2, end);
    assert (["setAttribute"] + w2)[1..] == w2;
    c := WordsUncons(text, b + 12, ["("] + w3, end);
    assert (["("] + w3)[1..] == w3;
    k := WordsUncons(text, c + 1, [key] + [",", value, ")"], end);
  }

  lemma {:induction false} KeyUnique(text: ByteString, i: nat, w: ByteString, s: ByteString, value: ByteString,
                                     end: nat, x: ByteString, t: ByteString, other: ByteString, stop: nat)
    requires QuotedForm(w, s) && QuotedForm(x, t) && NoQuotes(s) && NoQuotes(t)
    requires Words(text, i, SetCall(w, value), end) && Words(text, i, SetCall(x, other), stop)
    ensures s == t
  {
    var a, b, c, k := KeyPosition(text, i, w, value, end);
    var d, e, f, l := KeyPosition(text, i, x, other, stop);
    SpaceUnique(text, i, a, ".", d, ".");
    SpaceUnique(text, a + 1, b, "setAttribute", e, "setAttribute");
    SpaceUnique(text, b + 12, c, "(", f, "(");
    SpaceUnique(text, c + 1, k, w, l, x);
    QuotedUnique(text, k, w, s, x, t);
  }

  // ---- Tokens of one variable and of two ----

  predicate PlainToken(token: ByteString) {
    NoQuotes(token) && '.' !in token && 'x' !in token
  }

  predicate OpenPrefix(q: ByteString) {
    'x' !in q && (q == [] || !IsWord(q[|q| - 1]))
  }

  lemma {:induction false} LastOfPiece(text: ByteString, t: ByteString, i: nat)
    requires OccursAt(text, t, i) && t != []
    ensures text[i + |t| - 1] == t[|t| - 1]
  {
    assert text[i..i + |t|][|t| - 1] == text[i + |t| - 1];
  }

  lemma {:induction false} ByteBeforeValue(script: ByteString, token: ByteString, p: ByteString, q: ByteString,
                                           n: nat, v: nat)
    requires ScriptLies(script, token, p, q, n, v) && OpenPrefix(q)
    ensures v > 0 && BoundaryAt(script, v)
    ensures q == [] ==> script[v - 1] == ';'
    ensures q != [] ==> script[v - 1] == q[|q| - 1]
  {
    FirstOfPiece(script, ";", n + 1 + |Naming()|);
    FirstOfPiece(script, X, v);
    if q != [] { LastOfPiece(script, q, n + 2 + |Naming()|); }
  }

  lemma {:induction false} ByteBeforeName(script: ByteString, token: ByteString, p: ByteString, q: ByteString,
                                          n: nat, v: nat)
    requires ScriptLies(script, token, p, q, n, v)
    ensures |p| < n <= |script| && script[n - |p| - 1] == ';'
    ensures p != [] ==> script[n - 1] == p[|p| - 1]
  {
    DeclaredEnds(script, token);
    if p != [] { LastOfPiece(script, p, |Declared(token)|); }
  }

  /** The script gives the token; the first `x` takes the name, and only the second the value. */
  ghost predicate Shows(script: ByteString, token: ByteString, n: nat, v: nat) {
    && ScriptToken(script) == Some(token) && FirstNames(script, n, X) && ValuesAt(script, v, X)
    && forall w: nat :: ValuesAt(script, w, X) ==> w == v
  }

  lemma {:induction false} OnlyValue(script: ByteString, token: ByteString, p: ByteString, q: ByteString,
                                     n: nat, v: nat, w: nat)
    requires ScriptLies(script, token, p, q, n, v) && 'x' !in token && 'x' !in p && 'x' !in q
    requires NamesAt(script, n, X) && w != v
    ensures !ValuesAt(script, w, X)
  {
    NamingIsNotValuing(script, n);
    if w < |script| && w != n { WhereXStands(script, token, p, q, n, v, w); }
    if OccursAt(script, X, w) { FirstOfPiece(script, X, w); }
  }

  lemma {:induction false} DeclaredGives(script: ByteString, token: ByteString, n: nat, v: nat)
    requires FirstDeclares(script, 0, token) && FirstNames(script, n, X) && ValuesAt(script, v, X)
    ensures ScriptToken(script) == Some(token)
  {
    assert NamedTakesValue(script);
    ScriptTokenMeaning(script, token);
  }

  lemma {:induction false} LiesShows(script: ByteString, token: ByteString, p: ByteString, q: ByteString,
                                     n: nat, v: nat)
    requires ScriptLies(script, token, p, q, n, v)
    requires PlainToken(token) && ShortPrefix(p) && 'x' !in p && OpenPrefix(q)
    ensures Shows(script, token, n, v)
  {
    IsDeclared(script, token);
    IsFirstNamed(script, token, p, q, n, v);
    ByteBeforeValue(script, token, p, q, n, v);
    IsValued(script, v);
    DeclaredGives(script, token, n, v);
    forall w: nat | w != v ensures !ValuesAt(script, w, X) { OnlyValue(script, token, p, q, n, v, w); }
  }

  /** Such a script gives its token, and only one word takes the value. */
  lemma {:induction false} GivesToken(token: ByteString, p: ByteString, q: ByteString)
    returns (script: ByteString, n: nat, v: nat)
    requires PlainToken(token) && ShortPrefix(p) && 'x' !in p && OpenPrefix(q)
    ensures script == TokenScript(token, p, q) && n == NamedAt(token, p) && v == ValuedAt(token, p, q)
    ensures Shows(script, token, n, v)
    ensures |p| < n <= |script| && 0 < v <= |script| && script[n - |p| - 1] == ';'
    ensures p != [] ==> script[n - 1] == p[|p| - 1]
    ensures q == [] ==> script[v - 1] == ';'
    ensures q != [] ==> script[v - 1] == q[|q| - 1]
  {
    script, n, v := TokenScript(token, p, q), NamedAt(token, p), ValuedAt(token, p, q);
    ScriptHasParts(token, p, q);
    LiesShows(script, token, p, q, n, v);
    ByteBeforeName(script, token, p, q, n, v);
    ByteBeforeValue(script, token, p, q, n, v);
  }

  lemma {:induction false} ShownByOne(script: ByteString, token: ByteString, n: nat, v: nat)
    requires Shows(script, token, n, v)
    ensures OneVariable(script, n + 1) <==> SameName(script, n, v, X)
  {
    TokenFromOneVariable(script, token, n, X);
    if SameName(script, n, v, X) { assert ValuesAt(script, v, X) && SameName(script, n, v, X); }
  }

  lemma {:induction false} BeginsHere(script: ByteString, n: nat)
    requires 0 < n <= |script| && !InClass(script[n - 1], IdentTail) && script[n - 1] != '.' && !IsSpace(script[n - 1])
    ensures RunStart(script, n) == n && !AfterDot(script, n)
  {
    RunStartIs(script, n, n);
  }

  lemma {:induction false} AfterSemicolons(script: ByteString, n: nat, v: nat)
    requires 0 < n <= |script| && 0 < v <= |script| && script[n - 1] == ';' && script[v - 1] == ';'
    ensures SameName(script, n, v, X)
  {
    BeginsHere(script, n);
    BeginsHere(script, v);
    assert script[n..n] + X == X && script[n..n] == script[v..v];
  }

  lemma {:induction false} AfterDollar(script: ByteString, n: nat, v: nat)
    requires 1 < n <= |script| && 0 < v <= |script| && script[n - 2] == ';' && script[n - 1] == '$'
             && script[v - 1] == ';'
    ensures !SameName(script, n, v, X) && !SameName(script, v, n, X)
  {
    RunStartIs(script, n - 1, n);
    BeginsHere(script, v);
    assert |script[n - 1..n]| == 1 && |script[v..v]| == 0;
  }

  lemma {:induction false} AfterADot(script: ByteString, n: nat, v: nat)
    requires 0 < n <= |script| && script[n - 1] == '.'
    ensures !SameName(script, n, v, X)
  {
    RunStartIs(script, n, n);
    assert SpaceStart(script, n) == n;
  }

  lemma {:induction false} AfterMore(script: ByteString, n: nat, v: nat)
    requires 0 < n <= |script| && 0 < v <= |script| && script[n - 1] == ';' && script[v - 1] == '$'
    ensures !SameName(script, n, v, X)
  {
    BeginsHere(script, n);
    var r := RunStart(script, v);
    assert r <= v - 1 by { RunStartCovers(script, v - 1, v); }
    assert |script[r..v]| > 0 && |script[n..n]| == 0;
  }

  /** `x` takes the name and the value: the token comes from one variable. */
  lemma {:induction false} SameVariableGives(token: ByteString) returns (script: ByteString, n: nat)
    requires PlainToken(token)
    ensures script == TokenScript(token, [], []) && ScriptToken(script) == Some(token)
    ensures FirstNames(script, n, X) && OneVariable(script, n + 1)
  {
    var v;
    script, n, v := GivesToken(token, [], []);
    ShownByOne(script, token, n, v);
    AfterSemicolons(script, n, v);
  }

  /** `$x` takes the name and `x` the value, and the script gives the token all the same. */
  lemma {:induction false} DollarIsIgnored(token: ByteString) returns (script: ByteString, n: nat)
    requires PlainToken(token)
    ensures script == TokenScript(token, DOLLAR, []) && ScriptToken(script) == Some(token)
    ensures FirstNames(script, n, X) && !OneVariable(script, n + 1)
  {
    var v;
    script, n, v := GivesToken(token, DOLLAR, []);
    ShownByOne(script, token, n, v);
    AfterDollar(script, n, v);
  }

  /** `x` takes the name and `a$x` the value. */
  lemma {:induction false} LongerNameIsIgnored(token: ByteString) returns (script: ByteString, n: nat)
    requires PlainToken(token)
    ensures script == TokenScript(token, [], ['a', '$']) && ScriptToken(script) == Some(token)
    ensures FirstNames(script, n, X) && !OneVariable(script, n + 1)
  {
    var v;
    script, n, v := GivesToken(token, [], ['a', '$']);
    ShownByOne(script, token, n, v);
    AfterMore(script, n, v);
  }

  /** The property `x` of one object takes the name and that of another object the value. */
  lemma {:induction false} ObjectIsIgnored(token: ByteString) returns (script: ByteString, n: nat)
    requires PlainToken(token)
    ensures script == TokenScript(token, ['o', '.'], ['p', '.']) && ScriptToken(script) == Some(token)
    ensures FirstNames(script, n, X) && !OneVariable(script, n + 1)
  {
    var v;
    script, n, v := GivesToken(token, ['o', '.'], ['p', '.']);
    ShownByOne(script, token, n, v);
    AfterADot(script, n, v);
  }
}
