/** The scripts of a page, and what a page's form fields are on every page. */
module ScriptPage {
  import opened Bytes
  import opened Regex
  import opened Pages
  import opened FormPatterns
  import opened FormMeaning
  import opened FormPage
  import opened HiddenPage
  import opened ScriptTokens

  // ---- Where a script stands ----

  /** `<script ...>` stands at `s` and ends at `a`. */
  predicate OpeningAt(html: ByteString, s: nat, a: nat) {
    && LiteralAt(html, "<script", true, s) && BoundaryAt(html, s + 7)
    && s + 8 <= a <= |html| && html[a - 1] == '>' && AllIn(html, NotGreater, s + 7, a - 1)
  }

  /** `</script >` stands at `b`. */
  predicate ClosingAt(html: ByteString, b: nat) {
    && LiteralAt(html, "</script", true, b)
    && var k := AfterSpaces(html, b + 8); k < |html| && html[k] == '>'
  }

  function ClosingEnd(html: ByteString, b: nat): (e: nat)
    requires ClosingAt(html, b)
    ensures b + 8 < e <= |html|
  {
    AfterSpaces(html, b + 8) + 1
  }

  /** A script stands at `s`, with the text a..b up to the first closing tag. */
  ghost predicate ScriptAt(html: ByteString, s: nat, a: nat, b: nat) {
    && OpeningAt(html, s, a) && a <= b && ClosingAt(html, b)
    && forall j: nat :: a <= j < b ==> !ClosingAt(html, j)
  }

  ghost predicate SomeScriptAt(html: ByteString, s: nat) {
    exists a: nat, b: nat :: ScriptAt(html, s, a, b)
  }

  lemma {:induction false} ClosingRuns(html: ByteString, b: nat, marks: Marks)
    requires b <= |html|
    ensures Run(SCRIPT_CLOSE, html, b, marks) ==
            if ClosingAt(html, b) then Some(Found(ClosingEnd(html, b), marks[1 := b])) else None
  {
    var m := marks[1 := b];
    WordRuns("</script", Spaced(">", Accept), html, b, m);
    if LiteralAt(html, "</script", true, b) {
      SpacedMeaning(">", '>', Accept, html, b + 8, m);
      var k := AfterSpaces(html, b + 8);
      if k < |html| { assert Run(Accept, html, k + 1, m) == Some(Found(k + 1, m)); }
    }
  }

  const OPENING_REST: Regex := Star(NotGreater, false, Literal(">", true, SCRIPT_BODY))

  lemma {:induction false} OpeningRuns(html: ByteString, s: nat, a: nat)
    requires OpeningAt(html, s, a) && Run(SCRIPT_BODY, html, a, map[]).Some?
    ensures Run(SCRIPT, html, s, map[]) == Run(SCRIPT_BODY, html, a, map[])
  {
    ByteRuns('>', SCRIPT_BODY, html, a - 1, map[]);
    GreedyStar(NotGreater, Literal(">", true, SCRIPT_BODY), html, s + 7, a - 1, map[]);
    BoundedWord("<script", OPENING_REST, html, s);
  }

  lemma {:induction false} OpeningFound(html: ByteString, s: nat) returns (a: nat)
    requires s <= |html| && Run(SCRIPT, html, s, map[]).Some?
    ensures OpeningAt(html, s, a) && Run(SCRIPT_BODY, html, a, map[]).Some?
  {
    BoundedWord("<script", OPENING_REST, html, s);
    var k := StarStops(NotGreater, false, Literal(">", true, SCRIPT_BODY), html, s + 7, map[]);
    ByteRuns('>', SCRIPT_BODY, html, k, map[]);
    a := k + 1;
  }

  lemma {:induction false} BodyRuns(html: ByteString, a: nat, b: nat)
    requires a <= b && ClosingAt(html, b) && forall j: nat :: a <= j < b ==> !ClosingAt(html, j)
    ensures Run(SCRIPT_BODY, html, a, map[]) == Some(Found(ClosingEnd(html, b), map[0 := a][1 := b]))
  {
    var m: Marks := map[0 := a];
    ClosingRuns(html, b, m);
    forall j: nat | a <= j < b ensures Run(SCRIPT_CLOSE, html, j, m).None? { ClosingRuns(html, j, m); }
    LazyStar(Anything, SCRIPT_CLOSE, html, a, b, m);
  }

  lemma {:induction false} FirstClosing(html: ByteString, a: nat, c: nat) returns (b: nat)
    requires a <= c && ClosingAt(html, c)
    ensures a <= b <= c && ClosingAt(html, b) && forall j: nat :: a <= j < b ==> !ClosingAt(html, j)
  {
    b := c;
    if j: nat :| a <= j < c && ClosingAt(html, j) { b := FirstClosing(html, a, j); }
  }

  lemma {:induction false} BodyFound(html: ByteString, a: nat) returns (b: nat)
    requires a <= |html| && Run(SCRIPT_BODY, html, a, map[]).Some?
    ensures a <= b && ClosingAt(html, b) && forall j: nat :: a <= j < b ==> !ClosingAt(html, j)
  {
    var c := StarStops(Anything, true, SCRIPT_CLOSE, html, a, map[0 := a]);
    ClosingRuns(html, c, map[0 := a]);
    b := FirstClosing(html, a, c);
  }

  lemma {:induction false} ScriptRuns(html: ByteString, s: nat, a: nat, b: nat)
    requires ScriptAt(html, s, a, b)
    ensures Run(SCRIPT, html, s, map[]) == Some(Found(ClosingEnd(html, b), map[0 := a][1 := b]))
  {
    BodyRuns(html, a, b);
    OpeningRuns(html, s, a);
  }

  /** The script pattern matches exactly where a script stands; it ends with the first closing
      tag after the opening one, and its capture is the text between them. */
  lemma {:induction false} ScriptPatternMeaning(html: ByteString, s: nat)
    requires s <= |html|
    ensures Run(SCRIPT, html, s, map[]).Some? <==> SomeScriptAt(html, s)
    ensures forall a: nat, b: nat :: ScriptAt(html, s, a, b) ==>
              Run(SCRIPT, html, s, map[]) == Some(Found(ClosingEnd(html, b), map[0 := a][1 := b]))
  {
    if Run(SCRIPT, html, s, map[]).Some? {
      var a := OpeningFound(html, s);
      var b := BodyFound(html, a);
      assert ScriptAt(html, s, a, b);
    }
    forall a: nat, b: nat | ScriptAt(html, s, a, b)
      ensures Run(SCRIPT, html, s, map[]) == Some(Found(ClosingEnd(html, b), map[0 := a][1 := b]))
    {
      ScriptRuns(html, s, a, b);
    }
  }

  // ---- The scripts of a page ----

  /** Where a script starts, and where its text starts and ends. */
  datatype Script = Script(start: nat, open: nat, close: nat)

  /** The scripts of a page, stated without the scan: the first one that stands at or after
      `from`, then those from its end on. */
  ghost predicate AreScripts(html: ByteString, from: nat, ss: seq<Script>)
    decreases |ss|
  {
    if ss == [] then NoScriptIn(html, from, |html| + 1)
    else
      && from <= ss[0].start && NoScriptIn(html, from, ss[0].start)
      && ScriptAt(html, ss[0].start, ss[0].open, ss[0].close)
      && AreScripts(html, ClosingEnd(html, ss[0].close), ss[1..])
  }

  ghost predicate NoScriptIn(html: ByteString, from: nat, to: nat) {
    forall s: nat :: from <= s < to ==> !SomeScriptAt(html, s)
  }

  function BodyAt(html: ByteString, s: Script): ByteString {
    if s.open <= s.close <= |html| then html[s.open..s.close] else []
  }

  function Bodies(html: ByteString, ss: seq<Script>): seq<ByteString> {
    seq(|ss|, i requires 0 <= i < |ss| => BodyAt(html, ss[i]))
  }

  function MatchedBodies(html: ByteString, ms: seq<Match>): seq<ByteString> {
    seq(|ms|, i requires 0 <= i < |ms| => ScriptBody(html, ms[i]))
  }

  lemma {:induction false} QuietHasNoScript(html: ByteString, from: nat, to: nat)
    requires Quiet(SCRIPT, html, from, to)
    ensures NoScriptIn(html, from, to)
  {
    forall s: nat | from <= s < to ensures !SomeScriptAt(html, s) {
      if s <= |html| { ScriptPatternMeaning(html, s); }
    }
  }

  lemma {:induction false} FoundScript(html: ByteString, m: Match) returns (s: Script)
    requires m.start <= |html| && Run(SCRIPT, html, m.start, map[]) == Some(Found(m.end, m.marks))
    ensures s.start == m.start && ScriptAt(html, s.start, s.open, s.close)
    ensures m.end == ClosingEnd(html, s.close) && ScriptBody(html, m) == BodyAt(html, s)
  {
    ScriptPatternMeaning(html, m.start);
    var a: nat, b: nat :| ScriptAt(html, m.start, a, b);
    s := Script(m.start, a, b);
  }

  lemma {:induction false} NextScript(html: ByteString, from: nat) returns (m: Match, s: Script)
    requires from <= |html| && Search(SCRIPT, html, from).Some?
    ensures m == Search(SCRIPT, html, from).value
    ensures from <= s.start && NoScriptIn(html, from, s.start) && ScriptAt(html, s.start, s.open, s.close)
    ensures m.end == ClosingEnd(html, s.close) && ScriptBody(html, m) == BodyAt(html, s)
  {
    SearchFirst(SCRIPT, html, from);
    m := Search(SCRIPT, html, from).value;
    QuietHasNoScript(html, from, m.start);
    s := FoundScript(html, m);
  }

  lemma {:induction false} BodiesCons(html: ByteString, m: Match, ms: seq<Match>, s: Script, ss: seq<Script>)
    requires ScriptBody(html, m) == BodyAt(html, s) && MatchedBodies(html, ms) == Bodies(html, ss)
    ensures MatchedBodies(html, [m] + ms) == Bodies(html, [s] + ss)
  {
    assert MatchedBodies(html, [m] + ms) == [ScriptBody(html, m)] + MatchedBodies(html, ms);
    assert Bodies(html, [s] + ss) == [BodyAt(html, s)] + Bodies(html, ss);
  }

  /** The texts the third pass looks at are those of the page's scripts. */
  lemma {:induction false} ScriptsFound(html: ByteString, from: nat) returns (ss: seq<Script>)
    requires from <= |html|
    ensures AreScripts(html, from, ss)
    ensures MatchedBodies(html, FindAll(SCRIPT, html, from)) == Bodies(html, ss)
    decreases |html| - from
  {
    if Search(SCRIPT, html, from).None? {
      SearchFirst(SCRIPT, html, from);
      QuietHasNoScript(html, from, |html| + 1);
      ss := [];
    } else {
      var m, s := NextScript(html, from);
      var rest := ScriptsFound(html, m.end);
      ss := [s] + rest;
      BodiesCons(html, m, FindAll(SCRIPT, html, m.end), s, rest);
      assert ss[1..] == rest;
    }
  }

  lemma {:induction false} OpeningAtMost(html: ByteString, s: nat, a: nat, c: nat)
    requires OpeningAt(html, s, a) && OpeningAt(html, s, c)
    ensures c <= a
  {
    assert a < c ==> InClass(html[a - 1], NotGreater);
  }

  lemma {:induction false} BodyAtMost(html: ByteString, s: nat, a: nat, b: nat, d: nat)
    requires ScriptAt(html, s, a, b) && ScriptAt(html, s, a, d)
    ensures d <= b
  {
  }

  lemma {:induction false} SameScript(html: ByteString, s: Script, t: Script)
    requires ScriptAt(html, s.start, s.open, s.close) && ScriptAt(html, t.start, t.open, t.close) && s.start == t.start
    ensures s == t
  {
    OpeningAtMost(html, s.start, s.open, t.open);
    OpeningAtMost(html, s.start, t.open, s.open);
    BodyAtMost(html, s.start, s.open, s.close, t.close);
    BodyAtMost(html, s.start, s.open, t.close, s.close);
  }

  lemma {:induction false} FirstAtMost(html: ByteString, from: nat, s: Script, t: nat)
    requires from <= s.start && ScriptAt(html, s.start, s.open, s.close) && NoScriptIn(html, from, t)
    ensures t <= s.start
  {
    assert SomeScriptAt(html, s.start);
  }

  lemma {:induction false} EmptyMeansNone(html: ByteString, from: nat, ss: seq<Script>)
    requires AreScripts(html, from, ss)
    ensures ss == [] <==> NoScriptIn(html, from, |html| + 1)
  {
    if ss != [] { assert SomeScriptAt(html, ss[0].start); }
  }

  /** A page has one list of scripts. */
  lemma {:induction false} ScriptsUnique(html: ByteString, from: nat, ss: seq<Script>, ts: seq<Script>)
    requires AreScripts(html, from, ss) && AreScripts(html, from, ts)
    ensures ss == ts
    decreases |ss|
  {
    EmptyMeansNone(html, from, ss);
    EmptyMeansNone(html, from, ts);
    if ss != [] {
      FirstAtMost(html, from, ss[0], ts[0].start);
      FirstAtMost(html, from, ts[0], ss[0].start);
      SameScript(html, ss[0], ts[0]);
      ScriptsUnique(html, ClosingEnd(html, ss[0].close), ss[1..], ts[1..]);
      assert ss == [ss[0]] + ss[1..] && ts == [ts[0]] + ts[1..];
    }
  }

  lemma {:induction false} ThirdPass(html: ByteString, ms: seq<Match>)
    ensures ScriptFields(html, ms) == TokenOf(MatchedBodies(html, ms))
  {
    if ms != [] {
      ThirdPass(html, ms[1..]);
      assert MatchedBodies(html, ms)[1..] == MatchedBodies(html, ms[1..]);
      assert MatchedBodies(html, ms)[0] == ScriptBody(html, ms[0]);
    }
  }

  /** The third pass on any page: the token of the first of its scripts that gives one by
      itself. */
  lemma {:induction false} ThirdPassMeaning(html: ByteString, ss: seq<Script>)
    requires AreScripts(html, 0, ss)
    ensures ScriptFields(html, FindAll(SCRIPT, html, 0)) == TokenOf(Bodies(html, ss))
  {
    var found := ScriptsFound(html, 0);
    ScriptsUnique(html, 0, ss, found);
    ThirdPass(html, FindAll(SCRIPT, html, 0));
  }

  // ---- Rendering scripts ----

  /** A script element, and the text between it and the next one. */
  datatype Element = Element(attributes: ByteString, body: ByteString, space: ByteString, after: ByteString)

  function ClosingText(e: Element): ByteString { "</script" + (e.space + ">") }

  function ElementText(e: Element): ByteString {
    "<script" + (e.attributes + (">" + (e.body + ClosingText(e))))
  }

  function Elements(es: seq<Element>): seq<Piece> {
    seq(|es|, i requires 0 <= i < |es| => Piece(ElementText(es[i]), es[i].after))
  }

  function BodiesOf(es: seq<Element>): seq<ByteString> {
    seq(|es|, i requires 0 <= i < |es| => es[i].body)
  }

  /** No closing tag starts in the body, even one that its own closing tag would complete. */
  ghost predicate Closable(e: Element) {
    && (e.attributes == [] || !IsWord(e.attributes[0])) && '>' !in e.attributes
    && (forall c :: c in e.space ==> IsSpace(c))
    && forall j: nat :: j < |e.body| ==> !ClosingAt(e.body + ClosingText(e), j)
  }

  ghost predicate AllClosable(es: seq<Element>) {
    forall e :: e in es ==> Closable(e)
  }

  /** The page is these scripts with any text around them in which no further script stands. */
  ghost predicate IsScriptPage(page: ByteString, lead: ByteString, es: seq<Element>) {
    && page == lead + Join(Elements(es)) && AllClosable(es)
    && forall j: nat :: InGap(lead, Elements(es), j) ==> !SomeScriptAt(page, j)
  }

  lemma {:induction false} SpacesWithin(page: ByteString, t: ByteString, i: nat, k: nat)
    requires OccursAt(page, t, i) && k < |t| && !IsSpace(t[|t| - 1])
    ensures AfterSpaces(page, i + k) == i + AfterSpaces(t, k) < i + |t|
    decreases |t| - k
  {
    assert t[k] == page[i..i + |t|][k] == page[i + k];
    if IsSpace(t[k]) { SpacesWithin(page, t, i, k + 1); }
  }

  lemma {:induction false} LiteralWithin(page: ByteString, t: ByteString, i: nat, word: ByteString, j: nat)
    requires OccursAt(page, t, i) && j + |word| <= |t|
    ensures LiteralAt(page, word, true, i + j) <==> LiteralAt(t, word, true, j)
  {
    SliceOfSlice(page, i, |t|, j, |word|);
  }

  lemma {:induction false} SliceOfSlice(s: ByteString, i: nat, n: nat, j: nat, m: nat)
    requires i + n <= |s| && j + m <= n
    ensures s[i..i + n][j..j + m] == s[i + j..i + j + m]
  {
    var u, v, w := s[i..i + n], s[i..i + n][j..j + m], s[i + j..i + j + m];
    forall k | 0 <= k < m ensures v[k] == w[k] { assert u[j + k] == s[i + j + k]; }
  }

  lemma {:induction false} ClosingWithin(page: ByteString, t: ByteString, i: nat, j: nat)
    requires OccursAt(page, t, i) && j + 8 < |t| && !IsSpace(t[|t| - 1])
    ensures ClosingAt(page, i + j) <==> ClosingAt(t, j)
    ensures ClosingAt(t, j) ==> ClosingEnd(page, i + j) == i + ClosingEnd(t, j)
  {
    LiteralWithin(page, t, i, "</script", j);
    SpacesWithin(page, t, i, j + 8);
    var k := AfterSpaces(t, j + 8);
    assert t[k] == page[i..i + |t|][k] == page[i + k];
  }

  lemma {:induction false} AfterAllSpaces(t: ByteString, k: nat, n: nat)
    requires k <= n < |t| && AllIn(t, Spaces, k, n) && !IsSpace(t[n])
    ensures AfterSpaces(t, k) == n
    decreases n - k
  {
    if k < n { AfterAllSpaces(t, k + 1, n); }
  }

  /** The closing text is a closing tag to its end. */
  lemma {:induction false} ClosingStands(e: Element)
    requires forall c :: c in e.space ==> IsSpace(c)
    ensures var t := e.body + ClosingText(e);
            && ClosingAt(t, |e.body|) && ClosingEnd(t, |e.body|) == |t| && !IsSpace(t[|t| - 1])
  {
    var t, n := e.body + ClosingText(e), |e.body| + 8 + |e.space|;
    assert t[|e.body|..|e.body| + 8] == "</script";
    assert t[n] == '>' && n + 1 == |t|;
    forall j | |e.body| + 8 <= j < n ensures InClass(t[j], Spaces) { assert t[j] == e.space[j - |e.body| - 8]; }
    AfterAllSpaces(t, |e.body| + 8, n);
  }

  lemma {:induction false} NoClosingIn(page: ByteString, i: nat, e: Element, j: nat)
    requires Closable(e) && OccursAt(page, e.body + ClosingText(e), i) && i <= j < i + |e.body|
    ensures !ClosingAt(page, j)
  {
    var t := e.body + ClosingText(e);
    ClosingStands(e);
    ClosingWithin(page, t, i, j - i);
    assert i + (j - i) == j;
  }

  lemma {:induction false} BodyStands(page: ByteString, i: nat, e: Element)
    requires Closable(e) && OccursAt(page, e.body + ClosingText(e), i)
    ensures var b := i + |e.body|;
            && ClosingAt(page, b) && ClosingEnd(page, b) == b + |ClosingText(e)| && page[i..b] == e.body
            && forall j: nat :: i <= j < b ==> !ClosingAt(page, j)
  {
    ClosingStands(e);
    ClosingWithin(page, e.body + ClosingText(e), i, |e.body|);
    SplitOccurs(page, i, e.body, ClosingText(e));
    forall j: nat | i <= j < i + |e.body| ensures !ClosingAt(page, j) { NoClosingIn(page, i, e, j); }
  }

  lemma {:induction false} OpeningStands(page: ByteString, i: nat, attributes: ByteString)
    requires OccursAt(page, "<script", i) && OccursAt(page, attributes, i + 7)
             && OccursAt(page, ">", i + 7 + |attributes|)
    requires (attributes == [] || !IsWord(attributes[0])) && '>' !in attributes
    ensures OpeningAt(page, i, i + 8 + |attributes|)
  {
    var s: ByteString := "<script";
    assert page[i + 6] == page[i..i + 7][6] == s[6] == 't';
    PieceByte(page, attributes, i + 7);
    assert page[i + 7 + |attributes|..i + 8 + |attributes|][0] == page[i + 7 + |attributes|];
    forall j | i + 7 <= j < i + 7 + |attributes| ensures InClass(page[j], NotGreater) { assert page[j] in attributes; }
    assert BoundaryAt(page, i + 7);
  }

  /** Where the parts of a script lie. */
  ghost predicate ElementLies(page: ByteString, i: nat, e: Element) {
    && OccursAt(page, "<script", i) && OccursAt(page, e.attributes, i + 7)
    && OccursAt(page, ">", i + 7 + |e.attributes|)
    && OccursAt(page, e.body + ClosingText(e), i + 8 + |e.attributes|)
  }

  lemma {:induction false} ElementIsThere(page: ByteString, i: nat, e: Element)
    requires OccursAt(page, ElementText(e), i)
    ensures ElementLies(page, i, e) && |ElementText(e)| == 8 + |e.attributes| + |e.body| + |ClosingText(e)|
  {
    FourPieces(page, i, "<script", e.attributes, ">", e.body + ClosingText(e));
  }

  /** A rendered script is a script, and its text is the body. */
  lemma {:induction false} ElementStands(page: ByteString, i: nat, e: Element)
    requires Closable(e) && ElementLies(page, i, e)
    ensures i <= |page| && Run(SCRIPT, page, i, map[]).Some?
    ensures var m := MatchAt(SCRIPT, page, i);
            m.end == i + 8 + |e.attributes| + |e.body| + |ClosingText(e)| && ScriptBody(page, m) == e.body
  {
    var a := i + 8 + |e.attributes|;
    OpeningStands(page, i, e.attributes);
    BodyStands(page, a, e);
    ScriptRuns(page, i, a, a + |e.body|);
  }

  lemma {:induction false} RenderedScript(page: ByteString, i: nat, e: Element)
    requires Closable(e) && OccursAt(page, ElementText(e), i)
    ensures Run(SCRIPT, page, i, map[]).Some?
    ensures var m := MatchAt(SCRIPT, page, i); m.end == i + |ElementText(e)| && ScriptBody(page, m) == e.body
  {
    ElementIsThere(page, i, e);
    ElementStands(page, i, e);
  }

  lemma {:induction false} ElementIsRead(e: Element)
    requires Closable(e)
    ensures ElementText(e) != [] && ReadsPiece(SCRIPT, ElementText(e))
  {
    forall text, i: nat | OccursAt(text, ElementText(e), i)
      ensures EndsOf(SCRIPT, text)(i) == Some(i + |ElementText(e)|)
    {
      RenderedScript(text, i, e);
    }
  }

  lemma {:induction false} NoScriptInGap(page: ByteString, j: nat)
    requires !SomeScriptAt(page, j)
    ensures EndsOf(SCRIPT, page)(j) == None
  {
    if j <= |page| { ScriptPatternMeaning(page, j); }
  }

  lemma {:induction false} CoveredScript(page: ByteString, k: nat, e: Element)
    requires k < |FindAll(SCRIPT, page, 0)| && Closable(e)
    requires Covers(page, FindAll(SCRIPT, page, 0)[k], ElementText(e))
    ensures ScriptBody(page, FindAll(SCRIPT, page, 0)[k]) == e.body
  {
    var m := FindAll(SCRIPT, page, 0)[k];
    FindAllRuns(SCRIPT, page, 0, k);
    RenderedScript(page, m.start, e);
    assert m == MatchAt(SCRIPT, page, m.start);
  }

  lemma {:induction false} ScriptPageIsScanned(page: ByteString, lead: ByteString, es: seq<Element>)
    requires IsScriptPage(page, lead, es)
    ensures CoverAll(page, FindAll(SCRIPT, page, 0), Elements(es))
  {
    forall k | 0 <= k < |es| ensures Elements(es)[k].text != [] && ReadsPiece(SCRIPT, Elements(es)[k].text) {
      assert es[k] in es;
      ElementIsRead(es[k]);
    }
    forall j: nat | InGap(lead, Elements(es), j) ensures EndsOf(SCRIPT, page)(j) == None { NoScriptInGap(page, j); }
    ScanPage(SCRIPT, page, lead, Elements(es));
  }

  /** A page of rendered scripts gives exactly their bodies, whatever else the page holds. */
  lemma {:induction false} ScriptsOnPage(page: ByteString, lead: ByteString, es: seq<Element>)
    requires IsScriptPage(page, lead, es)
    ensures MatchedBodies(page, FindAll(SCRIPT, page, 0)) == BodiesOf(es)
  {
    ScriptPageIsScanned(page, lead, es);
    var ms := FindAll(SCRIPT, page, 0);
    forall k | 0 <= k < |es| ensures ScriptBody(page, ms[k]) == es[k].body {
      assert es[k] in es && Covers(page, ms[k], Elements(es)[k].text);
      CoveredScript(page, k, es[k]);
    }
  }

  // ---- All three passes ----

  /** A page rendered from tags, calls and scripts, each amid any text that holds no other of its
      kind, gives the fields of the tags, then those of the calls, then the token of the first
      script that gives one. */
  lemma {:induction false} MixedPage(page: ByteString, lead: ByteString, items: seq<Item>,
                                     start: ByteString, cs: seq<HiddenCall>, head: ByteString, es: seq<Element>)
    requires IsInputPage(page, lead, items) && IsCallPage(page, start, cs) && IsScriptPage(page, head, es)
    ensures FormFieldsOf(page) == FieldsOf(items) + CallFields(cs) + TokenOf(BodiesOf(es))
  {
    InputsOnPage(page, lead, items);
    CallsOnPage(page, start, cs);
    ScriptsOnPage(page, head, es);
    ThirdPass(page, FindAll(SCRIPT, page, 0));
  }

  ghost predicate NoCalls(page: ByteString) {
    forall j: nat :: !SomeCallAt(page, j)
  }

  ghost predicate NoScripts(page: ByteString) {
    forall j: nat :: !SomeScriptAt(page, j)
  }

  lemma {:induction false} OnlyLead(page: ByteString)
    ensures page == page + Join([])
  {
  }

  /** On a page with neither calls nor scripts, reading rendered tags gives back their fields:
      names, values, order, duplicates. */
  lemma {:induction false} PageRoundTrip(page: ByteString, lead: ByteString, items: seq<Item>)
    requires IsInputPage(page, lead, items) && NoCalls(page) && NoScripts(page)
    ensures FormFieldsOf(page) == FieldsOf(items)
  {
    OnlyLead(page);
    assert Calls([]) == [] && Elements([]) == [];
    MixedPage(page, lead, items, page, [], page, []);
  }
}
