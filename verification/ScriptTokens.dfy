/** What a script must say for the third pass to take a token from it. */
module ScriptTokens {
  import opened Bytes
  import opened Regex
  import opened UrlForm
  import opened FormPatterns

  // ---- Words separated by optional white space ----

  ghost predicate SpaceTo(text: ByteString, i: nat, k: nat, word: ByteString) {
    i <= k <= |text| && AllIn(text, Spaces, i, k) && OccursAt(text, word, k)
  }

  /** These words stand from `i` to `end` in order, with white space allowed before each. */
  ghost predicate Words(text: ByteString, i: nat, words: seq<ByteString>, end: nat)
    decreases |words|
  {
    if words == [] then i == end
    else exists k: nat :: SpaceTo(text, i, k, words[0]) && Words(text, k + |words[0]|, words[1..], end)
  }

  function Quoted(q: byte, s: ByteString): ByteString { [q] + s + [q] }

  predicate IsQuote(q: byte) { q == '\"' || q == '\'' }

  predicate IsIdentifier(id: ByteString) {
    id != [] && InClass(id[0], IdentHead) && forall k :: 0 < k < |id| ==> InClass(id[k], IdentTail)
  }

  predicate NoQuotes(s: ByteString) {
    forall k :: 0 <= k < |s| ==> !IsQuote(s[k])
  }

  ghost predicate DeclaredWith(script: ByteString, i: nat, token: ByteString, word: ByteString, end: nat) {
    QuotedForm(word, token) && Words(script, i + 4, Declaration(word), end)
  }

  /** `s` between two quotes of one kind. */
  predicate QuotedForm(w: ByteString, s: ByteString) {
    w != [] && IsQuote(w[0]) && w == Quoted(w[0], s)
  }

  ghost predicate NamedWith(script: ByteString, i: nat, id: ByteString, key: ByteString, value: ByteString, end: nat) {
    QuotedForm(key, "name") && QuotedForm(value, TOKEN_NAME) && Words(script, i + |id|, SetCall(key, value), end)
  }

  ghost predicate ValuedWith(script: ByteString, i: nat, id: ByteString, key: ByteString, end: nat) {
    QuotedForm(key, "value") && Words(script, i + |id|, SetCall(key, "session_token"), end)
  }

  /** `var session_token = "TOKEN";` stands at `i`. */
  ghost predicate DeclaresAt(script: ByteString, i: nat, token: ByteString) {
    && BoundaryAt(script, i) && OccursAt(script, "var", i)
    && i + 3 < |script| && IsSpace(script[i + 3])
    && NoQuotes(token)
    && exists word, end :: DeclaredWith(script, i, token, word, end)
  }

  /** `ID.setAttribute("name", "_SESSION_TOKEN")` stands at `i`. */
  ghost predicate NamesAt(script: ByteString, i: nat, id: ByteString) {
    && BoundaryAt(script, i) && IsIdentifier(id) && OccursAt(script, id, i)
    && exists key, value, end :: NamedWith(script, i, id, key, value, end)
  }

  /** `ID.setAttribute("value", session_token)` stands at `i`. */
  ghost predicate ValuesAt(script: ByteString, i: nat, id: ByteString) {
    && BoundaryAt(script, i) && OccursAt(script, id, i)
    && exists key, end :: ValuedWith(script, i, id, key, end)
  }

  function Declaration(word: ByteString): seq<ByteString> {
    ["session_token", "="] + [word, ";"]
  }

  function SetCall(key: ByteString, value: ByteString): seq<ByteString> {
    SetPrefix(key) + [value, ")"]
  }

  function SetPrefix(key: ByteString): seq<ByteString> {
    [".", "setAttribute"] + ["(", key] + [","]
  }

  // ---- Reading words off a match, and building a match from words ----

  lemma {:induction false} TakeWord(w: ByteString, next: Regex, text: ByteString, i: nat, marks: Marks,
                                    found: Found)
    returns (k: nat)
    requires i <= |text| && Accepts(Star(Spaces, false, Literal(w, false, next)), text, i, marks, found)
    ensures SpaceTo(text, i, k, w) && Accepts(next, text, k + |w|, marks, found)
  {
    k :| Reaches(Spaces, Literal(w, false, next), text, i, k, marks, found);
    assert Accepts(Literal(w, false, next), text, k, marks, found);
  }

  lemma {:induction false} PutWord(w: ByteString, next: Regex, text: ByteString, i: nat, k: nat, marks: Marks,
                                   found: Found)
    requires SpaceTo(text, i, k, w) && Accepts(next, text, k + |w|, marks, found)
    ensures Accepts(Star(Spaces, false, Literal(w, false, next)), text, i, marks, found)
  {
    assert Accepts(Literal(w, false, next), text, k, marks, found);
    assert Reaches(Spaces, Literal(w, false, next), text, i, k, marks, found);
  }

  lemma {:induction false} QuotedAt(text: ByteString, k: nat, q: byte, s: ByteString)
    ensures OccursAt(text, Quoted(q, s), k) <==>
            && k + |s| + 2 <= |text| && text[k] == q && OccursAt(text, s, k + 1) && text[k + 1 + |s|] == q
  {
    SplitOccurs(text, k, [q] + s, [q]);
    SplitOccurs(text, k, [q], s);
    if k < |text| { assert text[k..k + 1] == [text[k]]; }
    if k + 1 + |s| < |text| { assert text[k + 1 + |s|..k + 2 + |s|] == [text[k + 1 + |s|]]; }
  }

  lemma {:induction false} TakeQuoted(key: ByteString, a: nat, b: nat, next: Regex, text: ByteString, i: nat,
                                      marks: Marks, found: Found)
    returns (k: nat, q: byte)
    requires a != b && i <= |text| && Accepts(Star(Spaces, false, QuotedKey(key, a, b, next)), text, i, marks, found)
    ensures IsQuote(q) && SpaceTo(text, i, k, Quoted(q, key))
    ensures Accepts(next, text, k + |key| + 2, marks[a := k][b := k + 1], found)
  {
    var re := QuotedKey(key, a, b, next);
    k :| Reaches(Spaces, re, text, i, k, marks, found);
    q := QuotedKeyAccepted(key, a, b, next, text, k, marks, found);
  }

  lemma {:induction false} QuotedKeyAccepted(key: ByteString, a: nat, b: nat, next: Regex, text: ByteString,
                                             k: nat, marks: Marks, found: Found)
    returns (q: byte)
    requires a != b && k <= |text| && Accepts(QuotedKey(key, a, b, next), text, k, marks, found)
    ensures IsQuote(q) && OccursAt(text, Quoted(q, key), k)
    ensures Accepts(next, text, k + |key| + 2, marks[a := k][b := k + 1], found)
  {
    var m := marks[a := k][b := k + 1];
    assert Accepts(One(Quotes, Mark(b, Literal(key, false, BackRef(a, b, next)))), text, k, marks[a := k], found);
    q := text[k];
    assert Accepts(Literal(key, false, BackRef(a, b, next)), text, k + 1, m, found);
    assert Accepts(BackRef(a, b, next), text, k + 1 + |key|, m, found);
    assert Between(text, m, a, b) == [q];
    KeyCloses(text, k, q, key);
  }

  lemma {:induction false} KeyCloses(text: ByteString, k: nat, q: byte, key: ByteString)
    requires k < |text| && text[k] == q && OccursAt(text, key, k + 1) && OccursAt(text, [q], k + 1 + |key|)
    ensures OccursAt(text, Quoted(q, key), k)
  {
    assert text[k + 1 + |key|] == text[k + 1 + |key|..k + 2 + |key|][0];
    QuotedAt(text, k, q, key);
  }

  lemma {:induction false} PutQuoted(key: ByteString, a: nat, b: nat, next: Regex, text: ByteString, i: nat,
                                     k: nat, q: byte, marks: Marks, found: Found)
    requires a != b && IsQuote(q) && SpaceTo(text, i, k, Quoted(q, key))
    requires Accepts(next, text, k + |key| + 2, marks[a := k][b := k + 1], found)
    ensures Accepts(Star(Spaces, false, QuotedKey(key, a, b, next)), text, i, marks, found)
  {
    var m := marks[a := k][b := k + 1];
    QuotedAt(text, k, q, key);
    assert Between(text, m, a, b) == [q];
    assert text[k + 1 + |key|..k + 2 + |key|] == [q];
    assert Accepts(BackRef(a, b, next), text, k + 1 + |key|, m, found);
    assert Accepts(Literal(key, false, BackRef(a, b, next)), text, k + 1, m, found);
    assert Accepts(Mark(b, Literal(key, false, BackRef(a, b, next))), text, k + 1, marks[a := k], found);
    assert Accepts(One(Quotes, Mark(b, Literal(key, false, BackRef(a, b, next)))), text, k, marks[a := k], found);
    assert Reaches(Spaces, QuotedKey(key, a, b, next), text, i, k, marks, found);
  }

  lemma {:induction false} WordsCons(text: ByteString, i: nat, k: nat, w: ByteString, rest: seq<ByteString>, end: nat)
    requires SpaceTo(text, i, k, w) && Words(text, k + |w|, rest, end)
    ensures Words(text, i, [w] + rest, end)
  {
    var words := [w] + rest;
    assert words[0] == w && words[1..] == rest;
    assert SpaceTo(text, i, k, words[0]) && Words(text, k + |words[0]|, words[1..], end);
  }

  lemma {:induction false} WordsUncons(text: ByteString, i: nat, words: seq<ByteString>, end: nat) returns (k: nat)
    requires words != [] && Words(text, i, words, end)
    ensures SpaceTo(text, i, k, words[0]) && Words(text, k + |words[0]|, words[1..], end)
  {
    k :| SpaceTo(text, i, k, words[0]) && Words(text, k + |words[0]|, words[1..], end);
  }

  lemma {:induction false} WordsOne(text: ByteString, i: nat, k: nat, w: ByteString)
    requires SpaceTo(text, i, k, w)
    ensures Words(text, i, [w], k + |w|)
  {
    WordsCons(text, i, k, w, [], k + |w|);
    assert [w] + [] == [w];
  }

  lemma {:induction false} WordsJoin(text: ByteString, i: nat, a: seq<ByteString>, j: nat, b: seq<ByteString>, end: nat)
    requires Words(text, i, a, j) && Words(text, j, b, end)
    ensures Words(text, i, a + b, end)
    decreases |a|
  {
    if a == [] {
      assert a + b == b;
    } else {
      var k := WordsUncons(text, i, a, j);
      WordsJoin(text, k + |a[0]|, a[1..], j, b, end);
      WordsCons(text, i, k, a[0], a[1..] + b, end);
      assert [a[0]] + (a[1..] + b) == a + b;
    }
  }

  lemma {:induction false} WordsSplit(text: ByteString, i: nat, a: seq<ByteString>, b: seq<ByteString>,
                                      end: nat)
    returns (j: nat)
    requires Words(text, i, a + b, end)
    ensures Words(text, i, a, j) && Words(text, j, b, end)
    decreases |a|
  {
    if a == [] {
      assert a + b == b;
      j := i;
    } else {
      var k := WordsUncons(text, i, a + b, end);
      assert (a + b)[1..] == a[1..] + b;
      j := WordsSplit(text, k + |a[0]|, a[1..], b, end);
      WordsCons(text, i, k, a[0], a[1..], j);
      assert [a[0]] + a[1..] == a;
    }
  }

  lemma {:induction false} WordsTwo(text: ByteString, i: nat, k: nat, v: ByteString, l: nat, w: ByteString)
    requires SpaceTo(text, i, k, v) && SpaceTo(text, k + |v|, l, w)
    ensures Words(text, i, [v, w], l + |w|)
  {
    WordsOne(text, k + |v|, l, w);
    WordsCons(text, i, k, v, [w], l + |w|);
    assert [v] + [w] == [v, w];
  }

  lemma {:induction false} TwoWords(text: ByteString, i: nat, v: ByteString, w: ByteString, end: nat)
    returns (k: nat, l: nat)
    requires Words(text, i, [v, w], end)
    ensures SpaceTo(text, i, k, v) && SpaceTo(text, k + |v|, l, w) && end == l + |w|
  {
    k := WordsUncons(text, i, [v, w], end);
    assert [v, w][1..] == [w];
    l := WordsUncons(text, k + |v|, [w], end);
  }

  // ---- setAttribute calls ----

  lemma {:induction false} TakeFive(u: ByteString, v: ByteString, w: ByteString, key: ByteString, x: ByteString,
                                    rest: Regex,
                                    text: ByteString, i: nat, marks: Marks, found: Found)
    returns (j: nat, q: byte, a: nat, b: nat)
    requires i <= |text| && Accepts(FiveWords(u, v, w, key, x, rest), text, i, marks, found)
    ensures IsQuote(q) && Words(text, i, [u, v] + [w, Quoted(q, key)] + [x], j) && j <= |text|
    ensures Accepts(rest, text, j, marks[2 := a][3 := b], found)
  {
    var r2 := Star(Spaces, false, Literal(x, false, rest));
    var r1 := Star(Spaces, false, QuotedKey(key, 2, 3, r2));
    var r0 := Star(Spaces, false, Literal(w, false, r1));
    var k0 := TakeWord(u, Star(Spaces, false, Literal(v, false, r0)), text, i, marks, found);
    var k1 := TakeWord(v, r0, text, k0 + |u|, marks, found);
    var k2 := TakeWord(w, r1, text, k1 + |v|, marks, found);
    var k3;
    k3, q := TakeQuoted(key, 2, 3, r2, text, k2 + |w|, marks, found);
    a, b := k3, k3 + 1;
    var k4 := TakeWord(x, rest, text, k3 + |key| + 2, marks[2 := a][3 := b], found);
    j := k4 + |x|;
    FiveJoin(text, i, k0, u, k1, v, k2, w, k3, Quoted(q, key), k4, x);
  }

  lemma {:induction false} FiveJoin(text: ByteString, i: nat, k0: nat, u: ByteString, k1: nat, v: ByteString,
                                    k2: nat, w: ByteString, k3: nat, y: ByteString, k4: nat, x: ByteString)
    requires SpaceTo(text, i, k0, u) && SpaceTo(text, k0 + |u|, k1, v) && SpaceTo(text, k1 + |v|, k2, w)
    requires SpaceTo(text, k2 + |w|, k3, y) && SpaceTo(text, k3 + |y|, k4, x)
    ensures Words(text, i, [u, v] + [w, y] + [x], k4 + |x|)
  {
    var a: seq<ByteString>, b: seq<ByteString> := [u, v], [w, y];
    assert Words(text, i, a + b, k3 + |y|) by {
      WordsTwo(text, i, k0, u, k1, v);
      WordsTwo(text, k1 + |v|, k2, w, k3, y);
      WordsJoin(text, i, a, k1 + |v|, b, k3 + |y|);
    }
    WordsOne(text, k3 + |y|, k4, x);
    WordsJoin(text, i, a + b, k3 + |y|, [x], k4 + |x|);
  }

  lemma {:induction false} FivePositions(u: ByteString, v: ByteString, w: ByteString, y: ByteString, x: ByteString,
                                         text: ByteString, i: nat, j: nat)
    returns (k0: nat, k1: nat, k2: nat, k3: nat, k4: nat)
    requires Words(text, i, [u, v] + [w, y] + [x], j)
    ensures SpaceTo(text, i, k0, u) && SpaceTo(text, k0 + |u|, k1, v) && SpaceTo(text, k1 + |v|, k2, w)
    ensures SpaceTo(text, k2 + |w|, k3, y) && SpaceTo(text, k3 + |y|, k4, x) && j == k4 + |x|
  {
    var j2 := WordsSplit(text, i, [u, v] + [w, y], [x], j);
    var j1 := WordsSplit(text, i, [u, v], [w, y], j2);
    k0, k1 := TwoWords(text, i, u, v, j1);
    k2, k3 := TwoWords(text, j1, w, y, j2);
    k4 := WordsUncons(text, j2, [x], j);
  }

  lemma {:induction false} PutFive(u: ByteString, v: ByteString, w: ByteString, key: ByteString, x: ByteString,
                                   rest: Regex,
                                   text: ByteString, i: nat, j: nat, q: byte, marks: Marks) returns (a: nat, b: nat)
    requires IsQuote(q) && Words(text, i, [u, v] + [w, Quoted(q, key)] + [x], j)
    ensures j <= |text|
    ensures forall found :: Accepts(rest, text, j, marks[2 := a][3 := b], found) ==>
            Accepts(FiveWords(u, v, w, key, x, rest), text, i, marks, found)
  {
    var k0, k1, k2, k3, k4 := FivePositions(u, v, w, Quoted(q, key), x, text, i, j);
    a, b := k3, k3 + 1;
    forall found | Accepts(rest, text, j, marks[2 := a][3 := b], found)
      ensures Accepts(FiveWords(u, v, w, key, x, rest), text, i, marks, found)
    {
      PutFiveAt(u, v, w, key, x, rest, text, i, k0, k1, k2, k3, k4, q, marks, found);
    }
  }

  lemma {:induction false} PutFiveAt(u: ByteString, v: ByteString, w: ByteString, key: ByteString,
                                     x: ByteString, rest: Regex, text: ByteString,
                                     i: nat, k0: nat, k1: nat, k2: nat, k3: nat, k4: nat, q: byte,
                                     marks: Marks, found: Found)
    requires SpaceTo(text, i, k0, u) && SpaceTo(text, k0 + |u|, k1, v) && SpaceTo(text, k1 + |v|, k2, w)
    requires IsQuote(q) && SpaceTo(text, k2 + |w|, k3, Quoted(q, key)) && SpaceTo(text, k3 + |key| + 2, k4, x)
    requires Accepts(rest, text, k4 + |x|, marks[2 := k3][3 := k3 + 1], found)
    ensures Accepts(FiveWords(u, v, w, key, x, rest), text, i, marks, found)
  {
    var r2 := Star(Spaces, false, Literal(x, false, rest));
    var r1 := Star(Spaces, false, QuotedKey(key, 2, 3, r2));
    var r0 := Star(Spaces, false, Literal(w, false, r1));
    PutWord(x, rest, text, k3 + |key| + 2, k4, marks[2 := k3][3 := k3 + 1], found);
    PutQuoted(key, 2, 3, r2, text, k2 + |w|, k3, q, marks, found);
    PutWord(w, r1, text, k1 + |v|, k2, marks, found);
    PutWord(v, r0, text, k0 + |u|, k1, marks, found);
    PutWord(u, Star(Spaces, false, Literal(v, false, r0)), text, i, k0, marks, found);
  }

  /** A call whose second argument is a bare word. */
  function WordCall(u: ByteString, v: ByteString, w: ByteString, key: ByteString, x: ByteString,
                    word: ByteString, close: ByteString): Regex {
    FiveWords(u, v, w, key, x,
      Star(Spaces, false, Literal(word, false, Star(Spaces, false, Literal(close, false, Accept)))))
  }

  /** A call whose second argument is a quoted word. */
  function QuotedCall(u: ByteString, v: ByteString, w: ByteString, key: ByteString, x: ByteString,
                      word: ByteString, close: ByteString): Regex {
    FiveWords(u, v, w, key, x,
      Star(Spaces, false, QuotedKey(word, 4, 5, Star(Spaces, false, Literal(close, false, Accept)))))
  }

  lemma {:induction false} CallWords(text: ByteString, i: nat, five: seq<ByteString>, j: nat, k: nat,
                                     value: ByteString, l: nat, close: ByteString)
    requires Words(text, i, five, j) && SpaceTo(text, j, k, value) && SpaceTo(text, k + |value|, l, close)
    ensures Words(text, i, five + [value, close], l + |close|)
  {
    WordsTwo(text, j, k, value, l, close);
    WordsJoin(text, i, five, j, [value, close], l + |close|);
  }

  lemma {:induction false} TakeWordCall(u: ByteString, v: ByteString, w: ByteString, key: ByteString,
                                        x: ByteString, word: ByteString, close: ByteString,
                                        text: ByteString, i: nat, marks: Marks, found: Found) returns (q: byte)
    requires i <= |text| && Accepts(WordCall(u, v, w, key, x, word, close), text, i, marks, found)
    ensures IsQuote(q) && Words(text, i, [u, v] + [w, Quoted(q, key)] + [x] + [word, close], found.end)
  {
    var last := Star(Spaces, false, Literal(close, false, Accept));
    var j, a, b;
    j, q, a, b := TakeFive(u, v, w, key, x, Star(Spaces, false, Literal(word, false, last)), text, i, marks, found);
    var m := marks[2 := a][3 := b];
    var k := TakeWord(word, last, text, j, m, found);
    var l := TakeWord(close, Accept, text, k + |word|, m, found);
    CallWords(text, i, [u, v] + [w, Quoted(q, key)] + [x], j, k, word, l, close);
  }

  lemma {:induction false} PutWordCall(u: ByteString, v: ByteString, w: ByteString, key: ByteString,
                                       x: ByteString, word: ByteString, close: ByteString,
                                       text: ByteString, i: nat, q: byte, end: nat, marks: Marks)
    requires IsQuote(q) && i <= |text| && Words(text, i, [u, v] + [w, Quoted(q, key)] + [x] + [word, close], end)
    ensures exists found :: Accepts(WordCall(u, v, w, key, x, word, close), text, i, marks, found)
  {
    var last := Star(Spaces, false, Literal(close, false, Accept));
    var five := [u, v] + [w, Quoted(q, key)] + [x];
    var j := WordsSplit(text, i, five, [word, close], end);
    var k, l := TwoWords(text, j, word, close, end);
    var a, b := PutFive(u, v, w, key, x, Star(Spaces, false, Literal(word, false, last)), text, i, j, q, marks);
    var m: Marks := marks[2 := a][3 := b];
    var found := Found(l + |close|, m);
    assert Accepts(Accept, text, l + |close|, m, found);
    PutWord(close, Accept, text, k + |word|, l, m, found);
    PutWord(word, last, text, j, k, m, found);
    assert Accepts(WordCall(u, v, w, key, x, word, close), text, i, marks, found);
  }

  lemma {:induction false} TakeQuotedCall(u: ByteString, v: ByteString, w: ByteString, key: ByteString,
                                          x: ByteString, word: ByteString, close: ByteString,
                                          text: ByteString, i: nat, marks: Marks, found: Found)
    returns (q: byte, r: byte, a: nat, b: nat, c: nat)
    requires i <= |text| && Accepts(QuotedCall(u, v, w, key, x, word, close), text, i, marks, found)
    ensures IsQuote(q) && IsQuote(r)
            && Words(text, i, [u, v] + [w, Quoted(q, key)] + [x] + [Quoted(r, word), close], found.end)
    ensures found.marks == marks[2 := a][3 := b][4 := c][5 := c + 1]
  {
    var last := Star(Spaces, false, Literal(close, false, Accept));
    var j;
    j, q, a, b := TakeFive(u, v, w, key, x, Star(Spaces, false, QuotedKey(word, 4, 5, last)), text, i, marks, found);
    var m: Marks := marks[2 := a][3 := b];
    c, r := TakeQuoted(word, 4, 5, last, text, j, m, found);
    var l := TakeWord(close, Accept, text, c + |word| + 2, m[4 := c][5 := c + 1], found);
    CallWords(text, i, [u, v] + [w, Quoted(q, key)] + [x], j, c, Quoted(r, word), l, close);
  }

  lemma {:induction false} PutQuotedCall(u: ByteString, v: ByteString, w: ByteString, key: ByteString,
                                         x: ByteString, word: ByteString, close: ByteString,
                                         text: ByteString, i: nat, q: byte, r: byte, end: nat, marks: Marks)
    requires IsQuote(q) && IsQuote(r) && i <= |text|
    requires Words(text, i, [u, v] + [w, Quoted(q, key)] + [x] + [Quoted(r, word), close], end)
    ensures exists found :: Accepts(QuotedCall(u, v, w, key, x, word, close), text, i, marks, found)
  {
    var last := Star(Spaces, false, Literal(close, false, Accept));
    var five := [u, v] + [w, Quoted(q, key)] + [x];
    var j := WordsSplit(text, i, five, [Quoted(r, word), close], end);
    var k, l := TwoWords(text, j, Quoted(r, word), close, end);
    var a, b := PutFive(u, v, w, key, x, Star(Spaces, false, QuotedKey(word, 4, 5, last)), text, i, j, q, marks);
    var m: Marks := marks[2 := a][3 := b];
    var n: Marks := m[4 := k][5 := k + 1];
    var found := Found(l + |close|, n);
    assert Accepts(Accept, text, l + |close|, n, found);
    PutWord(close, Accept, text, k + |word| + 2, l, n, found);
    PutQuoted(word, 4, 5, last, text, j, k, r, m, found);
    assert Accepts(QuotedCall(u, v, w, key, x, word, close), text, i, marks, found);
  }

  // ---- What each of the three patterns means ----

  lemma {:induction false} TakeIdentifier(next: Regex, text: ByteString, i: nat, found: Found) returns (k: nat)
    requires i <= |text| && Accepts(Boundary(Identifier(next)), text, i, map[], found)
    ensures i < k <= |text| && BoundaryAt(text, i) && IsIdentifier(text[i..k])
    ensures Accepts(next, text, k, map[0 := i, 1 := k], found)
  {
    var m: Marks := map[0 := i];
    var star := Star(IdentTail, false, Mark(1, next));
    assert Accepts(Identifier(next), text, i, map[], found);
    assert Accepts(One(IdentHead, star), text, i, m, found);
    assert Accepts(star, text, i + 1, m, found);
    k :| Reaches(IdentTail, Mark(1, next), text, i + 1, k, m, found);
    assert Reaches(IdentTail, Mark(1, next), text, i + 1, k, m, found);
    assert Accepts(Mark(1, next), text, k, m, found);
    assert Accepts(next, text, k, m[1 := k], found);
    assert m[1 := k] == map[0 := i, 1 := k];
    TailIsIdentifier(text, i, k);
  }

  lemma {:induction false} TailIsIdentifier(text: ByteString, i: nat, k: nat)
    requires i < k <= |text| && InClass(text[i], IdentHead) && AllIn(text, IdentTail, i + 1, k)
    ensures IsIdentifier(text[i..k])
  {
    var id := text[i..k];
    forall n | 0 < n < |id| ensures InClass(id[n], IdentTail) { assert id[n] == text[i + n]; }
  }

  lemma {:induction false} PutIdentifier(next: Regex, text: ByteString, i: nat, id: ByteString, found: Found)
    requires BoundaryAt(text, i) && IsIdentifier(id) && OccursAt(text, id, i)
    requires Accepts(next, text, i + |id|, map[0 := i, 1 := i + |id|], found)
    ensures Accepts(Boundary(Identifier(next)), text, i, map[], found)
  {
    var m: Marks := map[0 := i];
    var k := i + |id|;
    var star := Star(IdentTail, false, Mark(1, next));
    assert text[i] == id[0] by { assert text[i..k][0] == text[i]; }
    forall n | i + 1 <= n < k ensures InClass(text[n], IdentTail) { assert text[n] == text[i..k][n - i]; }
    assert m[1 := k] == map[0 := i, 1 := k];
    assert Accepts(Mark(1, next), text, k, m, found);
    assert Reaches(IdentTail, Mark(1, next), text, i + 1, k, m, found);
    assert Accepts(star, text, i + 1, m, found);
    assert Accepts(One(IdentHead, star), text, i, m, found);
    assert Accepts(Identifier(next), text, i, map[], found);
  }

  /** An identifier followed by a call with a quoted second argument. */
  lemma {:induction false} TakeNaming(u: ByteString, v: ByteString, w: ByteString, key: ByteString,
                                      x: ByteString, word: ByteString, close: ByteString,
                                      text: ByteString, i: nat, found: Found) returns (k: nat, q: byte, r: byte)
    requires i <= |text|
             && Accepts(Boundary(Identifier(QuotedCall(u, v, w, key, x, word, close))), text, i, map[], found)
    ensures i < k <= |text| && BoundaryAt(text, i) && IsIdentifier(text[i..k])
            && Between(text, found.marks, 0, 1) == text[i..k]
    ensures IsQuote(q) && IsQuote(r)
            && Words(text, k, [u, v] + [w, Quoted(q, key)] + [x] + [Quoted(r, word), close], found.end)
  {
    k := TakeIdentifier(QuotedCall(u, v, w, key, x, word, close), text, i, found);
    var a, b, c;
    q, r, a, b, c := TakeQuotedCall(u, v, w, key, x, word, close, text, k, map[0 := i, 1 := k], found);
  }

  lemma {:induction false} PutNaming(u: ByteString, v: ByteString, w: ByteString, key: ByteString,
                                     x: ByteString, word: ByteString, close: ByteString,
                                     text: ByteString, i: nat, id: ByteString, q: byte, r: byte, end: nat)
    requires BoundaryAt(text, i) && IsIdentifier(id) && OccursAt(text, id, i) && IsQuote(q) && IsQuote(r)
    requires Words(text, i + |id|, [u, v] + [w, Quoted(q, key)] + [x] + [Quoted(r, word), close], end)
    ensures MatchesAt(Boundary(Identifier(QuotedCall(u, v, w, key, x, word, close))), text, i)
  {
    var m: Marks := map[0 := i, 1 := i + |id|];
    PutQuotedCall(u, v, w, key, x, word, close, text, i + |id|, q, r, end, m);
    var found :| Accepts(QuotedCall(u, v, w, key, x, word, close), text, i + |id|, m, found);
    PutIdentifier(QuotedCall(u, v, w, key, x, word, close), text, i, id, found);
  }

  lemma {:induction false} NameAccepted(script: ByteString, i: nat, found: Found)
    requires i <= |script| && Accepts(NAME_ASSIGNMENT, script, i, map[], found)
    ensures NamesAt(script, i, Between(script, found.marks, 0, 1))
  {
    var k, q, r := TakeNaming(".", "setAttribute", "(", "name", ",", TOKEN_NAME, ")", script, i, found);
    assert NamedWith(script, i, script[i..k], Quoted(q, "name"), Quoted(r, TOKEN_NAME), found.end);
  }

  lemma {:induction false} NameComplete(script: ByteString, i: nat, id: ByteString)
    requires i <= |script| && NamesAt(script, i, id)
    ensures MatchesAt(NAME_ASSIGNMENT, script, i)
  {
    var key, value, end :| NamedWith(script, i, id, key, value, end);
    PutNaming(".", "setAttribute", "(", "name", ",", TOKEN_NAME, ")", script, i, id, key[0], value[0], end);
  }

  /** The name assignment pattern matches exactly where some identifier takes the name. */
  lemma {:induction false} NameMeaning(script: ByteString, i: nat)
    requires i <= |script|
    ensures MatchesAt(NAME_ASSIGNMENT, script, i) <==> exists id :: NamesAt(script, i, id)
    ensures var r := Run(NAME_ASSIGNMENT, script, i, map[]);
            r.Some? ==> NamesAt(script, i, Between(script, r.value.marks, 0, 1))
  {
    MatchesAtIffRun(NAME_ASSIGNMENT, script, i);
    RunSound(NAME_ASSIGNMENT, script, i, map[]);
    var r := Run(NAME_ASSIGNMENT, script, i, map[]);
    if r.Some? { NameAccepted(script, i, r.value); }
    if id :| NamesAt(script, i, id) { NameComplete(script, i, id); }
  }

  lemma {:induction false} TakeValuing(id: ByteString, u: ByteString, v: ByteString, w: ByteString,
                                       key: ByteString, x: ByteString, word: ByteString, close: ByteString,
                                       text: ByteString, i: nat, found: Found) returns (q: byte)
    requires i <= |text|
             && Accepts(Boundary(Literal(id, false, WordCall(u, v, w, key, x, word, close))), text, i, map[], found)
    ensures BoundaryAt(text, i) && OccursAt(text, id, i)
    ensures IsQuote(q) && Words(text, i + |id|, [u, v] + [w, Quoted(q, key)] + [x] + [word, close], found.end)
  {
    var call := WordCall(u, v, w, key, x, word, close);
    assert Accepts(Literal(id, false, call), text, i, map[], found);
    assert Accepts(call, text, i + |id|, map[], found);
    q := TakeWordCall(u, v, w, key, x, word, close, text, i + |id|, map[], found);
  }

  lemma {:induction false} PutValuing(id: ByteString, u: ByteString, v: ByteString, w: ByteString,
                                      key: ByteString, x: ByteString, word: ByteString, close: ByteString,
                                      text: ByteString, i: nat, q: byte, end: nat)
    requires BoundaryAt(text, i) && OccursAt(text, id, i) && IsQuote(q)
    requires Words(text, i + |id|, [u, v] + [w, Quoted(q, key)] + [x] + [word, close], end)
    ensures MatchesAt(Boundary(Literal(id, false, WordCall(u, v, w, key, x, word, close))), text, i)
  {
    var call := WordCall(u, v, w, key, x, word, close);
    PutWordCall(u, v, w, key, x, word, close, text, i + |id|, q, end, map[]);
    var found :| Accepts(call, text, i + |id|, map[], found);
    assert Accepts(Literal(id, false, call), text, i, map[], found);
    assert Accepts(Boundary(Literal(id, false, call)), text, i, map[], found);
  }

  /** The pattern in which the identifier is a literal. */
  function LiteralAssignment(id: ByteString): Regex {
    Boundary(Literal(id, false, VALUE_CALL))
  }

  lemma {:induction false} ValueAccepted(script: ByteString, i: nat, id: ByteString, found: Found)
    requires i <= |script| && Accepts(LiteralAssignment(id), script, i, map[], found)
    ensures ValuesAt(script, i, id)
  {
    var q := TakeValuing(id, ".", "setAttribute", "(", "value", ",", "session_token", ")", script, i, found);
    assert ValuedWith(script, i, id, Quoted(q, "value"), found.end);
  }

  lemma {:induction false} ValueComplete(script: ByteString, i: nat, id: ByteString)
    requires i <= |script| && ValuesAt(script, i, id)
    ensures MatchesAt(LiteralAssignment(id), script, i)
  {
    var key, end :| ValuedWith(script, i, id, key, end);
    PutValuing(id, ".", "setAttribute", "(", "value", ",", "session_token", ")", script, i, key[0], end);
  }

  lemma {:induction false} LiteralMeaning(script: ByteString, i: nat, id: ByteString)
    requires i <= |script|
    ensures MatchesAt(LiteralAssignment(id), script, i) <==> ValuesAt(script, i, id)
  {
    if MatchesAt(LiteralAssignment(id), script, i) {
      var found :| Accepts(LiteralAssignment(id), script, i, map[], found);
      ValueAccepted(script, i, id, found);
    }
    if ValuesAt(script, i, id) { ValueComplete(script, i, id); }
  }

  lemma {:induction false} SplicedRuns(id: ByteString, next: Regex, text: ByteString, i: nat)
    requires i <= |text| && MinLength(next) > 0
    ensures Run(Boundary(Spliced(id, next)), text, i, map[]) ==
            if '$' in id then None else Run(Boundary(Literal(id, false, next)), text, i, map[])
  {
    if '$' in id { SplicedDollar(id, next, text, i, map[]); } else { SplicedLiteral(id, next, text, i, map[]); }
  }

  /** The pattern that an identifier is spliced into matches exactly where the identifier takes the
      value, and nowhere when there is a `$` in it. */
  lemma {:induction false} ValueMeaning(script: ByteString, i: nat, id: ByteString)
    requires i <= |script|
    ensures MatchesAt(ValueAssignment(id), script, i) <==> '$' !in id && ValuesAt(script, i, id)
  {
    SplicedRuns(id, VALUE_CALL, script, i);
    MatchesAtIffRun(ValueAssignment(id), script, i);
    MatchesAtIffRun(LiteralAssignment(id), script, i);
    LiteralMeaning(script, i, id);
  }

  lemma {:induction false} TakeQuotedLiteral(close: Regex, text: ByteString, k: nat, marks: Marks, found: Found)
    returns (e: nat)
    requires k <= |text| && Accepts(QuotedLiteral(close), text, k, marks, found)
    ensures k < e <= |text| && IsQuote(text[k]) && NoQuotes(text[k + 1..e])
    ensures Accepts(close, text, e, marks[0 := k][1 := k + 1], found)
  {
    var m: Marks := marks[0 := k][1 := k + 1];
    var star := Star(NotQuotes, false, close);
    assert Accepts(One(Quotes, Mark(1, star)), text, k, marks[0 := k], found);
    assert Accepts(Mark(1, star), text, k + 1, marks[0 := k], found);
    assert Accepts(star, text, k + 1, m, found);
    e :| Reaches(NotQuotes, close, text, k + 1, e, m, found);
    ClassIsNoQuotes(text, k + 1, e);
  }

  lemma {:induction false} ClassIsNoQuotes(text: ByteString, i: nat, e: nat)
    requires i <= e <= |text| && AllIn(text, NotQuotes, i, e)
    ensures NoQuotes(text[i..e])
  {
    var token := text[i..e];
    forall n | 0 <= n < |token| ensures !IsQuote(token[n]) { assert token[n] == text[i + n]; }
  }

  lemma {:induction false} PutQuotedLiteral(close: Regex, text: ByteString, k: nat, e: nat, marks: Marks, found: Found)
    requires k < e <= |text| && IsQuote(text[k]) && NoQuotes(text[k + 1..e])
    requires Accepts(close, text, e, marks[0 := k][1 := k + 1], found)
    ensures Accepts(QuotedLiteral(close), text, k, marks, found)
  {
    var m: Marks := marks[0 := k][1 := k + 1];
    var star := Star(NotQuotes, false, close);
    forall j | k + 1 <= j < e ensures InClass(text[j], NotQuotes) { assert text[j] == text[k + 1..e][j - k - 1]; }
    assert Reaches(NotQuotes, close, text, k + 1, e, m, found);
    assert Accepts(star, text, k + 1, m, found);
    assert Accepts(Mark(1, star), text, k + 1, marks[0 := k], found);
    assert Accepts(One(Quotes, Mark(1, star)), text, k, marks[0 := k], found);
  }

  /** The closing quote and the terminator. */
  lemma {:induction false} TakeLiteralClose(t: ByteString, text: ByteString, k: nat, e: nat, marks: Marks,
                                            found: Found)
    returns (l: nat)
    requires k < e <= |text|
    requires Accepts(LiteralClose(t), text, e, marks[0 := k][1 := k + 1], found)
    ensures e < |text| && text[e] == text[k] && SpaceTo(text, e + 1, l, t)
    ensures found == Found(l + |t|, marks[0 := k][1 := k + 1][2 := e])
  {
    var n: Marks := marks[0 := k][1 := k + 1][2 := e];
    var rest := Star(Spaces, false, Literal(t, false, Accept));
    assert Accepts(BackRef(0, 1, rest), text, e, n, found);
    assert Between(text, n, 0, 1) == [text[k]];
    assert text[e..e + 1][0] == text[e];
    assert Accepts(rest, text, e + 1, n, found);
    l := TakeWord(t, Accept, text, e + 1, n, found);
  }

  lemma {:induction false} PutLiteralClose(t: ByteString, text: ByteString, k: nat, e: nat, l: nat,
                                           marks: Marks)
    returns (found: Found)
    requires k < e < |text| && text[e] == text[k] && SpaceTo(text, e + 1, l, t)
    ensures Accepts(LiteralClose(t), text, e, marks[0 := k][1 := k + 1], found)
  {
    var n: Marks := marks[0 := k][1 := k + 1][2 := e];
    found := Found(l + |t|, n);
    assert Accepts(Accept, text, l + |t|, n, found);
    PutWord(t, Accept, text, e + 1, l, n, found);
    assert Between(text, n, 0, 1) == [text[k]] && text[e..e + 1] == [text[e]];
    assert Accepts(BackRef(0, 1, Star(Spaces, false, Literal(t, false, Accept))), text, e, n, found);
  }

  lemma {:induction false} TakeDeclaration(v: ByteString, s: ByteString, e: ByteString, rest: Regex,
                                           text: ByteString, i: nat, found: Found)
    returns (a: nat, b: nat)
    requires i <= |text| && Accepts(DeclarationOf(v, s, e, rest), text, i, map[], found)
    ensures BoundaryAt(text, i) && OccursAt(text, v, i) && i + |v| < |text| && IsSpace(text[i + |v|])
    ensures SpaceTo(text, i + |v| + 1, a, s) && SpaceTo(text, a + |s|, b, e)
            && Accepts(rest, text, b + |e|, map[], found)
  {
    var r1 := Star(Spaces, false, Literal(e, false, rest));
    var r0 := Star(Spaces, false, Literal(s, false, r1));
    assert Accepts(Literal(v, false, One(Spaces, r0)), text, i, map[], found);
    assert Accepts(One(Spaces, r0), text, i + |v|, map[], found);
    a := TakeWord(s, r1, text, i + |v| + 1, map[], found);
    b := TakeWord(e, rest, text, a + |s|, map[], found);
  }

  lemma {:induction false} PutDeclaration(v: ByteString, s: ByteString, e: ByteString, rest: Regex,
                                          text: ByteString, i: nat, a: nat, b: nat, found: Found)
    requires BoundaryAt(text, i) && OccursAt(text, v, i) && i + |v| < |text| && IsSpace(text[i + |v|])
    requires SpaceTo(text, i + |v| + 1, a, s) && SpaceTo(text, a + |s|, b, e)
             && Accepts(rest, text, b + |e|, map[], found)
    ensures Accepts(DeclarationOf(v, s, e, rest), text, i, map[], found)
  {
    var r1 := Star(Spaces, false, Literal(e, false, rest));
    var r0 := Star(Spaces, false, Literal(s, false, r1));
    PutWord(e, rest, text, a + |s|, b, map[], found);
    PutWord(s, r1, text, i + |v| + 1, a, map[], found);
    assert Accepts(One(Spaces, r0), text, i + |v|, map[], found);
    assert Accepts(Literal(v, false, One(Spaces, r0)), text, i, map[], found);
  }

  lemma {:induction false} TakeLiteral(t: ByteString, text: ByteString, i: nat, found: Found)
    returns (k: nat, e: nat, l: nat)
    requires i <= |text| && Accepts(Star(Spaces, false, QuotedLiteral(LiteralClose(t))), text, i, map[], found)
    ensures k < e < |text| && IsQuote(text[k]) && NoQuotes(text[k + 1..e])
    ensures SpaceTo(text, i, k, Quoted(text[k], text[k + 1..e])) && SpaceTo(text, e + 1, l, t)
    ensures found == Found(l + |t|, map[0 := k, 1 := k + 1, 2 := e])
  {
    k := TakeSpaces(QuotedLiteral(LiteralClose(t)), text, i, map[], found);
    e := TakeQuotedLiteral(LiteralClose(t), text, k, map[], found);
    l := TakeLiteralClose(t, text, k, e, map[], found);
    QuotedAt(text, k, text[k], text[k + 1..e]);
  }

  /** Where the words of a declaration stand, with its literal from `k` to `f`. */
  ghost predicate DeclaredLies(text: ByteString, i: nat, s: ByteString, e: ByteString, t: ByteString,
                               a: nat, b: nat, k: nat, f: nat, l: nat) {
    && SpaceTo(text, i, a, s) && SpaceTo(text, a + |s|, b, e)
    && k < f < |text| && IsQuote(text[k]) && NoQuotes(text[k + 1..f])
    && SpaceTo(text, b + |e|, k, Quoted(text[k], text[k + 1..f])) && SpaceTo(text, f + 1, l, t)
  }

  lemma {:induction false} LiesGivesWords(text: ByteString, i: nat, s: ByteString, e: ByteString, t: ByteString,
                                          a: nat, b: nat, k: nat, f: nat, l: nat)
    requires DeclaredLies(text, i, s, e, t, a, b, k, f, l)
    ensures var word := Quoted(text[k], text[k + 1..f]);
            QuotedForm(word, text[k + 1..f]) && Words(text, i, [s, e] + [word, t], l + |t|)
  {
    WordsTwo(text, i, a, s, b, e);
    CallWords(text, i, [s, e], b + |e|, k, Quoted(text[k], text[k + 1..f]), l, t);
  }

  lemma {:induction false} WordsGiveLies(text: ByteString, i: nat, s: ByteString, e: ByteString, t: ByteString,
                                         word: ByteString, token: ByteString, end: nat)
    returns (a: nat, b: nat, k: nat, f: nat, l: nat)
    requires NoQuotes(token) && QuotedForm(word, token) && Words(text, i, [s, e] + [word, t], end)
    ensures DeclaredLies(text, i, s, e, t, a, b, k, f, l) && text[f] == text[k] && end == l + |t|
    ensures text[k + 1..f] == token
  {
    var j := WordsSplit(text, i, [s, e], [word, t], end);
    a, b := TwoWords(text, i, s, e, j);
    k, l := TwoWords(text, j, word, t, end);
    QuotedAt(text, k, word[0], token);
    f := k + 1 + |token|;
  }

  lemma {:induction false} LiteralBetween(text: ByteString, k: nat, f: nat)
    requires k < f <= |text|
    ensures Between(text, map[0 := k, 1 := k + 1, 2 := f], 1, 2) == text[k + 1..f]
  {
  }

  lemma {:induction false} TakeDeclared(v: ByteString, s: ByteString, e: ByteString, t: ByteString,
                                        text: ByteString, i: nat, found: Found)
    returns (word: ByteString, token: ByteString)
    requires var literal := Star(Spaces, false, QuotedLiteral(LiteralClose(t)));
             i <= |text| && Accepts(DeclarationOf(v, s, e, literal), text, i, map[], found)
    ensures BoundaryAt(text, i) && OccursAt(text, v, i) && i + |v| < |text| && IsSpace(text[i + |v|])
    ensures NoQuotes(token) && QuotedForm(word, token) && Between(text, found.marks, 1, 2) == token
    ensures Words(text, i + |v| + 1, [s, e] + [word, t], found.end)
  {
    var a, b := TakeDeclaration(v, s, e, Star(Spaces, false, QuotedLiteral(LiteralClose(t))), text, i, found);
    var k, f, l := TakeLiteral(t, text, b + |e|, found);
    token := text[k + 1..f];
    word := Quoted(text[k], token);
    LiesGivesWords(text, i + |v| + 1, s, e, t, a, b, k, f, l);
    LiteralBetween(text, k, f);
  }

  lemma {:induction false} PutLiteral(t: ByteString, text: ByteString, j: nat, k: nat, f: nat, l: nat)
    returns (found: Found)
    requires j <= k < f < |text| && AllIn(text, Spaces, j, k) && IsQuote(text[k]) && NoQuotes(text[k + 1..f])
    requires text[f] == text[k] && SpaceTo(text, f + 1, l, t)
    ensures Accepts(Star(Spaces, false, QuotedLiteral(LiteralClose(t))), text, j, map[], found)
  {
    found := PutLiteralClose(t, text, k, f, l, map[]);
    PutQuotedLiteral(LiteralClose(t), text, k, f, map[], found);
    PutSpaces(QuotedLiteral(LiteralClose(t)), text, j, k, map[], found);
  }

  lemma {:induction false} PutDeclared(v: ByteString, s: ByteString, e: ByteString, t: ByteString,
                                       text: ByteString, i: nat, word: ByteString, token: ByteString, end: nat)
    requires BoundaryAt(text, i) && OccursAt(text, v, i) && i + |v| < |text| && IsSpace(text[i + |v|])
    requires NoQuotes(token) && QuotedForm(word, token) && Words(text, i + |v| + 1, [s, e] + [word, t], end)
    ensures MatchesAt(DeclarationOf(v, s, e, Star(Spaces, false, QuotedLiteral(LiteralClose(t)))), text, i)
  {
    var a, b, k, f, l := WordsGiveLies(text, i + |v| + 1, s, e, t, word, token, end);
    var found := PutLiteral(t, text, b + |e|, k, f, l);
    PutDeclaration(v, s, e, Star(Spaces, false, QuotedLiteral(LiteralClose(t))), text, i, a, b, found);
  }

  lemma {:induction false} DeclarationAccepted(script: ByteString, i: nat, found: Found)
    requires i <= |script| && Accepts(TOKEN_DECLARATION, script, i, map[], found)
    ensures DeclaresAt(script, i, Between(script, found.marks, 1, 2))
  {
    var word, token := TakeDeclared("var", "session_token", "=", ";", script, i, found);
    assert DeclaredWith(script, i, token, word, found.end);
  }

  lemma {:induction false} DeclarationComplete(script: ByteString, i: nat, token: ByteString)
    requires i <= |script| && DeclaresAt(script, i, token)
    ensures MatchesAt(TOKEN_DECLARATION, script, i)
  {
    var word, end :| DeclaredWith(script, i, token, word, end);
    PutDeclared("var", "session_token", "=", ";", script, i, word, token, end);
  }

  lemma {:induction false} TakeSpaces(next: Regex, text: ByteString, i: nat, marks: Marks, found: Found)
    returns (k: nat)
    requires i <= |text| && Accepts(Star(Spaces, false, next), text, i, marks, found)
    ensures i <= k <= |text| && AllIn(text, Spaces, i, k) && Accepts(next, text, k, marks, found)
  {
    k :| Reaches(Spaces, next, text, i, k, marks, found);
  }

  lemma {:induction false} PutSpaces(next: Regex, text: ByteString, i: nat, k: nat, marks: Marks, found: Found)
    requires i <= k <= |text| && AllIn(text, Spaces, i, k) && Accepts(next, text, k, marks, found)
    ensures Accepts(Star(Spaces, false, next), text, i, marks, found)
  {
    assert Reaches(Spaces, next, text, i, k, marks, found);
  }

  /** The declaration pattern matches exactly where some token is declared. */
  lemma {:induction false} DeclarationMeaning(script: ByteString, i: nat)
    requires i <= |script|
    ensures MatchesAt(TOKEN_DECLARATION, script, i) <==> exists token :: DeclaresAt(script, i, token)
    ensures var r := Run(TOKEN_DECLARATION, script, i, map[]);
            r.Some? ==> DeclaresAt(script, i, Between(script, r.value.marks, 1, 2))
  {
    MatchesAtIffRun(TOKEN_DECLARATION, script, i);
    RunSound(TOKEN_DECLARATION, script, i, map[]);
    var r := Run(TOKEN_DECLARATION, script, i, map[]);
    if r.Some? { DeclarationAccepted(script, i, r.value); }
    if token :| DeclaresAt(script, i, token) { DeclarationComplete(script, i, token); }
  }

  // ---- One token per script ----

  /** White space before a word ends at one place only. */
  lemma {:induction false} SpaceUnique(text: ByteString, i: nat, k: nat, w: ByteString, l: nat, x: ByteString)
    requires SpaceTo(text, i, k, w) && SpaceTo(text, i, l, x)
    requires w != [] && x != [] && !IsSpace(w[0]) && !IsSpace(x[0])
    ensures k == l
  {
    FirstOfPiece(text, w, k);
    FirstOfPiece(text, x, l);
  }

  lemma {:induction false} FourWords(text: ByteString, i: nat, s: ByteString, e: ByteString, word: ByteString,
                                     t: ByteString, end: nat)
    returns (a: nat, b: nat, k: nat)
    requires Words(text, i, [s, e] + [word, t], end)
    ensures SpaceTo(text, i, a, s) && SpaceTo(text, a + |s|, b, e) && SpaceTo(text, b + |e|, k, word)
  {
    var j := WordsSplit(text, i, [s, e], [word, t], end);
    a, b := TwoWords(text, i, s, e, j);
    var l;
    k, l := TwoWords(text, j, word, t, end);
  }

  lemma {:induction false} QuotedUnique(text: ByteString, k: nat, w: ByteString, s: ByteString, x: ByteString,
                                        t: ByteString)
    requires QuotedForm(w, s) && QuotedForm(x, t) && NoQuotes(s) && NoQuotes(t)
    requires OccursAt(text, w, k) && OccursAt(text, x, k)
    ensures s == t
  {
    QuotedAt(text, k, w[0], s);
    QuotedAt(text, k, x[0], t);
    assert s == text[k + 1..k + 1 + |s|] && t == text[k + 1..k + 1 + |t|];
    forall j | k + 1 <= j < k + 1 + |s| ensures !IsQuote(text[j]) { assert s[j - k - 1] == text[j]; }
    forall j | k + 1 <= j < k + 1 + |t| ensures !IsQuote(text[j]) { assert t[j - k - 1] == text[j]; }
  }

  lemma {:induction false} WordUnique(text: ByteString, i: nat, s: ByteString, e: ByteString, t: ByteString,
                                      w: ByteString, p: ByteString, end: nat, x: ByteString, r: ByteString,
                                      stop: nat)
    requires s != [] && e != [] && !IsSpace(s[0]) && !IsSpace(e[0])
    requires QuotedForm(w, p) && QuotedForm(x, r) && NoQuotes(p) && NoQuotes(r)
    requires Words(text, i, [s, e] + [w, t], end) && Words(text, i, [s, e] + [x, t], stop)
    ensures p == r
  {
    var a, b, k := FourWords(text, i, s, e, w, t, end);
    var c, d, l := FourWords(text, i, s, e, x, t, stop);
    SpaceUnique(text, i, a, s, c, s);
    SpaceUnique(text, a + |s|, b, e, d, e);
    SpaceUnique(text, b + |e|, k, w, l, x);
    QuotedUnique(text, k, w, p, x, r);
  }

  lemma {:induction false} TokenUnique(script: ByteString, i: nat, p: ByteString, r: ByteString)
    requires DeclaresAt(script, i, p) && DeclaresAt(script, i, r)
    ensures p == r
  {
    var w, end :| DeclaredWith(script, i, p, w, end);
    var x, stop :| DeclaredWith(script, i, r, x, stop);
    WordUnique(script, i + 4, "session_token", "=", ";", w, p, end, x, r, stop);
  }

  /** After an identifier comes white space or the dot. */
  lemma {:induction false} IdentifierEnds(text: ByteString, i: nat, first: ByteString, rest: seq<ByteString>, end: nat)
    requires first != [] && Words(text, i, [first] + rest, end)
    ensures i < |text| && (IsSpace(text[i]) || text[i] == first[0])
  {
    var k := WordsUncons(text, i, [first] + rest, end);
    FirstOfPiece(text, first, k);
    if i < k { assert InClass(text[i], Spaces); }
  }

  lemma {:induction false} IdentifierAtLeast(script: ByteString, i: nat, p: ByteString, r: ByteString)
    requires NamesAt(script, i, p) && NamesAt(script, i, r)
    ensures |r| <= |p|
  {
    var key, value, end :| NamedWith(script, i, p, key, value, end);
    assert SetCall(key, value) == ["."] + ["setAttribute", "(", key, ",", value, ")"];
    IdentifierEnds(script, i + |p|, ".", ["setAttribute", "(", key, ",", value, ")"], end);
    forall j | i < j < i + |r| ensures InClass(script[j], IdentTail) { assert script[i..i + |r|][j - i] == script[j]; }
  }

  lemma {:induction false} IdentifierUnique(script: ByteString, i: nat, p: ByteString, r: ByteString)
    requires NamesAt(script, i, p) && NamesAt(script, i, r)
    ensures p == r
  {
    IdentifierAtLeast(script, i, p, r);
    IdentifierAtLeast(script, i, r, p);
  }

  /** The first declaration, stated over positions of the script. */
  ghost predicate FirstDeclares(script: ByteString, d: nat, token: ByteString) {
    DeclaresAt(script, d, token) && forall j: nat, t :: j < d ==> !DeclaresAt(script, j, t)
  }

  ghost predicate FirstNames(script: ByteString, n: nat, id: ByteString) {
    NamesAt(script, n, id) && forall j: nat, x :: j < n ==> !NamesAt(script, j, x)
  }

  lemma {:induction false} SearchDeclares(script: ByteString, token: ByteString)
    ensures var r := Search(TOKEN_DECLARATION, script, 0);
            (r.Some? && Between(script, r.value.marks, 1, 2) == token) <==> exists d :: FirstDeclares(script, d, token)
  {
    var r := Search(TOKEN_DECLARATION, script, 0);
    SearchFirst(TOKEN_DECLARATION, script, 0);
    forall j: nat, t | j <= |script| && Run(TOKEN_DECLARATION, script, j, map[]).None?
      ensures !DeclaresAt(script, j, t)
    {
      DeclarationMeaning(script, j);
      MatchesAtIffRun(TOKEN_DECLARATION, script, j);
    }
    if r.Some? {
      DeclarationMeaning(script, r.value.start);
      assert FirstDeclares(script, r.value.start, Between(script, r.value.marks, 1, 2));
    }
    if d :| FirstDeclares(script, d, token) {
      DeclaredIsFound(script, d, token);
    }
  }

  lemma {:induction false} DeclaredIsFound(script: ByteString, d: nat, token: ByteString)
    requires FirstDeclares(script, d, token)
    ensures var r := Search(TOKEN_DECLARATION, script, 0); r.Some? && Between(script, r.value.marks, 1, 2) == token
  {
    DeclarationMeaning(script, d);
    MatchesAtIffRun(TOKEN_DECLARATION, script, d);
    forall j: nat | j < d ensures Run(TOKEN_DECLARATION, script, j, map[]).None? {
      DeclarationMeaning(script, j);
      MatchesAtIffRun(TOKEN_DECLARATION, script, j);
    }
    SearchAt(TOKEN_DECLARATION, script, 0, d);
    TokenUnique(script, d, token, Between(script, MatchAt(TOKEN_DECLARATION, script, d).marks, 1, 2));
  }

  lemma {:induction false} SearchNames(script: ByteString, id: ByteString)
    ensures var r := Search(NAME_ASSIGNMENT, script, 0);
            (r.Some? && Between(script, r.value.marks, 0, 1) == id) <==> exists n :: FirstNames(script, n, id)
  {
    var r := Search(NAME_ASSIGNMENT, script, 0);
    SearchFirst(NAME_ASSIGNMENT, script, 0);
    forall j: nat, x | j <= |script| && Run(NAME_ASSIGNMENT, script, j, map[]).None? ensures !NamesAt(script, j, x) {
      NameMeaning(script, j);
      MatchesAtIffRun(NAME_ASSIGNMENT, script, j);
    }
    if r.Some? {
      NameMeaning(script, r.value.start);
      assert FirstNames(script, r.value.start, Between(script, r.value.marks, 0, 1));
    }
    if n :| FirstNames(script, n, id) {
      NamedIsFound(script, n, id);
    }
  }

  lemma {:induction false} NamedIsFound(script: ByteString, n: nat, id: ByteString)
    requires FirstNames(script, n, id)
    ensures var r := Search(NAME_ASSIGNMENT, script, 0); r.Some? && Between(script, r.value.marks, 0, 1) == id
  {
    NameMeaning(script, n);
    MatchesAtIffRun(NAME_ASSIGNMENT, script, n);
    forall j: nat | j < n ensures Run(NAME_ASSIGNMENT, script, j, map[]).None? {
      NameMeaning(script, j);
      MatchesAtIffRun(NAME_ASSIGNMENT, script, j);
    }
    SearchAt(NAME_ASSIGNMENT, script, 0, n);
    IdentifierUnique(script, n, id, Between(script, MatchAt(NAME_ASSIGNMENT, script, n).marks, 0, 1));
  }

  lemma {:induction false} SearchValues(script: ByteString, id: ByteString)
    ensures Search(ValueAssignment(id), script, 0).Some? <==> '$' !in id && exists v :: ValuesAt(script, v, id)
  {
    var r := Search(ValueAssignment(id), script, 0);
    SearchFirst(ValueAssignment(id), script, 0);
    if r.Some? {
      ValueMeaning(script, r.value.start, id);
      MatchesAtIffRun(ValueAssignment(id), script, r.value.start);
    }
    if v :| '$' !in id && ValuesAt(script, v, id) {
      ValueMeaning(script, v, id);
      MatchesAtIffRun(ValueAssignment(id), script, v);
    }
  }

  /** The script declares the token first, and the identifier that first takes the name takes
      the value. */
  ghost predicate Gives(script: ByteString, token: ByteString) {
    (exists d: nat :: FirstDeclares(script, d, token)) && NamedTakesValue(script)
  }

  ghost predicate NamedTakesValue(script: ByteString) {
    exists n: nat, v: nat, id: ByteString :: FirstNames(script, n, id) && '$' !in id && ValuesAt(script, v, id)
  }

  ghost predicate GivesNone(script: ByteString) {
    forall token :: !Gives(script, token)
  }

  lemma {:induction false} NamedMeaning(script: ByteString)
    ensures var named := Search(NAME_ASSIGNMENT, script, 0);
            NamedTakesValue(script) <==>
              && named.Some?
              && var id := Between(script, named.value.marks, 0, 1);
                 Search(ValueAssignment(id), script, 0).Some?
  {
    var named := Search(NAME_ASSIGNMENT, script, 0);
    if named.Some? {
      var id := Between(script, named.value.marks, 0, 1);
      SearchNames(script, id);
      SearchValues(script, id);
    }
    if NamedTakesValue(script) {
      var n: nat, v: nat, id: ByteString :| FirstNames(script, n, id) && '$' !in id && ValuesAt(script, v, id);
      NamedIsFound(script, n, id);
    }
  }

  /** A script gives a token exactly when its first declaration holds that literal, and the
      identifier that first takes the name takes the value in the same script. */
  lemma {:induction false} ScriptTokenMeaning(script: ByteString, token: ByteString)
    ensures ScriptToken(script) == Some(token) <==> Gives(script, token)
  {
    SearchDeclares(script, token);
    NamedMeaning(script);
  }

  // ---- The third pass, over the texts of the scripts ----

  /** The token of the first script that gives one. */
  function TokenOf(bodies: seq<ByteString>): seq<Field> {
    if bodies == [] then []
    else match ScriptToken(bodies[0])
      case Some(token) => [Field(TOKEN_NAME, token)]
      case None => TokenOf(bodies[1..])
  }

  /** Script `k` gives the token by itself, and no script before it gives any. */
  ghost predicate FirstGives(bodies: seq<ByteString>, k: int, token: ByteString) {
    0 <= k < |bodies| && Gives(bodies[k], token) && forall j :: 0 <= j < k ==> GivesNone(bodies[j])
  }

  lemma {:induction false} NoTokenIsNone(script: ByteString)
    ensures ScriptToken(script).None? <==> GivesNone(script)
  {
    forall token ensures ScriptToken(script) == Some(token) <==> Gives(script, token) {
      ScriptTokenMeaning(script, token);
    }
  }

  ghost predicate NoneGives(bodies: seq<ByteString>) {
    forall k :: 0 <= k < |bodies| ==> GivesNone(bodies[k])
  }

  /** One field, the token of the first script that gives one by itself, or none when none does. */
  ghost predicate GivesFields(bodies: seq<ByteString>, fields: seq<Field>) {
    || (fields == [] && NoneGives(bodies))
    || (|fields| == 1 && fields[0].name == TOKEN_NAME && exists k :: FirstGives(bodies, k, fields[0].value))
  }

  lemma {:induction false} TokenIsGiven(bodies: seq<ByteString>)
    ensures GivesFields(bodies, TokenOf(bodies))
  {
    if bodies != [] {
      NoTokenIsNone(bodies[0]);
      match ScriptToken(bodies[0])
      case Some(token) =>
        ScriptTokenMeaning(bodies[0], token);
        assert FirstGives(bodies, 0, token);
      case None =>
        TokenIsGiven(bodies[1..]);
        LaterFields(bodies, TokenOf(bodies[1..]));
    }
  }

  lemma {:induction false} LaterFields(bodies: seq<ByteString>, fields: seq<Field>)
    requires bodies != [] && GivesNone(bodies[0]) && GivesFields(bodies[1..], fields)
    ensures GivesFields(bodies, fields)
  {
    LaterGives(bodies);
    if fields != [] {
      var k :| FirstGives(bodies[1..], k, fields[0].value);
      assert FirstGives(bodies, k + 1, fields[0].value);
    }
  }

  /** Script `k` is the first one with a token. */
  predicate FirstToken(bodies: seq<ByteString>, k: nat, token: ByteString) {
    k < |bodies| && ScriptToken(bodies[k]) == Some(token) && forall j :: 0 <= j < k ==> ScriptToken(bodies[j]) == None
  }

  lemma {:induction false} TailAt(bodies: seq<ByteString>, rest: seq<ByteString>, j: nat)
    requires bodies != [] && rest == bodies[1..] && j < |rest|
    ensures rest[j] == bodies[j + 1]
  {
  }

  lemma {:induction false} LaterFirst(bodies: seq<ByteString>, k: nat, token: ByteString)
    requires FirstToken(bodies, k, token) && k > 0
    ensures FirstToken(bodies[1..], k - 1, token) && ScriptToken(bodies[0]) == None
  {
    var rest := bodies[1..];
    forall j: nat | j < k - 1 ensures ScriptToken(rest[j]) == None { TailAt(bodies, rest, j); }
    TailAt(bodies, rest, k - 1);
  }

  lemma {:induction false} FirstTokenTaken(bodies: seq<ByteString>, k: nat, token: ByteString)
    requires FirstToken(bodies, k, token)
    ensures TokenOf(bodies) == [Field(TOKEN_NAME, token)]
    decreases k
  {
    if k > 0 {
      LaterFirst(bodies, k, token);
      FirstTokenTaken(bodies[1..], k - 1, token);
    }
  }

  lemma {:induction false} NothingTaken(bodies: seq<ByteString>)
    requires forall j :: 0 <= j < |bodies| ==> ScriptToken(bodies[j]) == None
    ensures TokenOf(bodies) == []
  {
    if bodies != [] { NothingTaken(bodies[1..]); }
  }

  lemma {:induction false} FirstGivesTaken(bodies: seq<ByteString>, k: int, token: ByteString)
    requires FirstGives(bodies, k, token)
    ensures TokenOf(bodies) == [Field(TOKEN_NAME, token)]
  {
    ScriptTokenMeaning(bodies[k], token);
    forall j | 0 <= j < k ensures ScriptToken(bodies[j]) == None { NoTokenIsNone(bodies[j]); }
    FirstTokenTaken(bodies, k, token);
  }

  lemma {:induction false} NoneGivesTaken(bodies: seq<ByteString>)
    requires NoneGives(bodies)
    ensures TokenOf(bodies) == []
  {
    forall j | 0 <= j < |bodies| ensures ScriptToken(bodies[j]) == None { NoTokenIsNone(bodies[j]); }
    NothingTaken(bodies);
  }

  lemma {:induction false} GivenIsTaken(bodies: seq<ByteString>, fields: seq<Field>)
    requires GivesFields(bodies, fields)
    ensures TokenOf(bodies) == fields
  {
    if fields == [] {
      NoneGivesTaken(bodies);
    } else {
      var k :| FirstGives(bodies, k, fields[0].value);
      FirstGivesTaken(bodies, k, fields[0].value);
    }
  }

  /** The third pass adds at most one field: the token of the first script that gives one by
      itself. */
  lemma {:induction false} TokenOfMeaning(bodies: seq<ByteString>, fields: seq<Field>)
    ensures TokenOf(bodies) == fields <==> GivesFields(bodies, fields)
  {
    TokenIsGiven(bodies);
    if GivesFields(bodies, fields) { GivenIsTaken(bodies, fields); }
  }

  lemma {:induction false} LaterGives(bodies: seq<ByteString>)
    requires bodies != [] && GivesNone(bodies[0])
    ensures forall k, token :: FirstGives(bodies[1..], k, token) ==> FirstGives(bodies, k + 1, token)
    ensures NoneGives(bodies[1..]) ==> NoneGives(bodies)
  {
    forall k, token | FirstGives(bodies[1..], k, token) ensures FirstGives(bodies, k + 1, token) {
      forall j | 0 <= j < k + 1 ensures GivesNone(bodies[j]) { if j > 0 { assert bodies[j] == bodies[1..][j - 1]; } }
    }
    if NoneGives(bodies[1..]) {
      forall k | 0 <= k < |bodies| ensures GivesNone(bodies[k]) { if k > 0 { assert bodies[k] == bodies[1..][k - 1]; } }
    }
  }
}
