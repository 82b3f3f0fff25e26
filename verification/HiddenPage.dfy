/** Calls that create hidden inputs: rendering fields as such calls, and reading them back. */
module HiddenPage {
  import opened Bytes
  import opened Regex
  import opened Pages
  import opened UrlForm
  import opened FormPatterns
  import opened FormMeaning
  import opened FormPage
  import opened ScriptTokens

  /** A field as a call, with either kind of quote, and the text between it and the next one. */
  datatype HiddenCall = HiddenCall(field: Field, nameQuote: byte, valueQuote: byte, after: ByteString)

  function CallText(c: HiddenCall): ByteString {
    "createHiddenInput"
    + ("(" + (Quoted(c.nameQuote, c.field.name) + ("," + (Quoted(c.valueQuote, c.field.value) + ")"))))
  }

  function Calls(cs: seq<HiddenCall>): seq<Piece> {
    seq(|cs|, i requires 0 <= i < |cs| => Piece(CallText(cs[i]), cs[i].after))
  }

  function CallFields(cs: seq<HiddenCall>): seq<Field> {
    seq(|cs|, i requires 0 <= i < |cs| => cs[i].field)
  }

  /** Text of one line without that quote. */
  ghost predicate FitsIn(q: byte, s: ByteString) {
    IsQuote(q) && forall c :: c in s ==> c != q && c != '\n' && c != '\r'
  }

  ghost predicate Callable(c: HiddenCall) {
    FitsIn(c.nameQuote, c.field.name) && FitsIn(c.valueQuote, c.field.value)
  }

  ghost predicate AllCallable(cs: seq<HiddenCall>) {
    forall c :: c in cs ==> Callable(c)
  }

  /** The page is these calls with any text around them in which no further call stands. */
  ghost predicate IsCallPage(page: ByteString, lead: ByteString, cs: seq<HiddenCall>) {
    && page == lead + Join(Calls(cs)) && AllCallable(cs)
    && forall j: nat :: InGap(lead, Calls(cs), j) ==> !SomeCallAt(page, j)
  }

  lemma {:induction false} QuotedInside(text: ByteString, k: nat, q: byte, s: ByteString)
    requires FitsIn(q, s) && OccursAt(text, Quoted(q, s), k)
    ensures var e := k + 1 + |s|; QuotedTo(text, k, e) && text[k + 1..e] == s && !IsSpace(text[k])
    ensures forall d: nat :: k < d < k + 1 + |s| ==> !QuotedTo(text, k, d)
  {
    QuotedAt(text, k, q, s);
    PieceByte(text, s, k + 1);
    forall j | k + 1 <= j < k + 1 + |s| ensures InClass(text[j], NotLineEnd) && text[j] != text[k] {
      assert text[j] in s;
    }
  }

  lemma {:induction false} ByteStands(text: ByteString, c: byte, i: nat)
    requires OccursAt(text, [c], i) && !IsSpace(c)
    ensures ByteAfter(text, i, c, i + 1)
  {
    assert text[i..i + 1] == [text[i]];
    NoSpacesAt(text, i);
  }

  /** The second argument of a rendered call. */
  lemma {:induction false} SecondStands(text: ByteString, i: nat, q: byte, value: ByteString)
    requires FitsIn(q, value) && OccursAt(text, ",", i) && OccursAt(text, Quoted(q, value), i + 1)
    requires OccursAt(text, ")", i + 3 + |value|)
    ensures SecondAt(text, i, i + 1, i + 2 + |value|)
    ensures ClosesAt(text, i + 3 + |value|) && CloseEnd(text, i + 3 + |value|) == i + 4 + |value|
  {
    ByteStands(text, ',', i);
    ByteStands(text, ')', i + 3 + |value|);
    QuotedInside(text, i + 1, q, value);
    NoSpacesAt(text, i + 1);
    assert ShortestValue(text, i + 1, i + 1, i + 2 + |value|);
  }

  /** The first argument, when a second one follows. */
  lemma {:induction false} FirstStands(text: ByteString, i: nat, p: byte, name: ByteString)
    requires FitsIn(p, name) && OccursAt(text, "(", i) && OccursAt(text, Quoted(p, name), i + 1)
    requires SomeSecondAt(text, i + 3 + |name|)
    ensures FirstArgumentAt(text, i, i + 1, i + 2 + |name|)
  {
    ByteStands(text, '(', i);
    QuotedInside(text, i + 1, p, name);
    NoSpacesAt(text, i + 1);
    assert ShortestName(text, i + 1, i + 1, i + 2 + |name|);
  }

  lemma {:induction false} WordStands(text: ByteString, word: ByteString, i: nat)
    requires OccursAt(text, word, i)
    ensures LiteralAt(text, word, true, i)
  {
  }

  /** Where the parts of a call lie after its first word. */
  ghost predicate ArgumentsLie(text: ByteString, i: nat, p: byte, name: ByteString, q: byte, value: ByteString) {
    var b := i + 2 + |name|;
    && OccursAt(text, "(", i) && OccursAt(text, Quoted(p, name), i + 1) && OccursAt(text, ",", b + 1)
    && OccursAt(text, Quoted(q, value), b + 2) && OccursAt(text, ")", b + 4 + |value|)
  }

  lemma {:induction false} ArgumentsStand(text: ByteString, i: nat, p: byte, name: ByteString, q: byte,
                                          value: ByteString, k: nat, b: nat, e: nat)
    requires FitsIn(p, name) && FitsIn(q, value) && ArgumentsLie(text, i, p, name, q, value)
    requires k == i + 1 && b == i + 2 + |name| && e == b + 3 + |value|
    ensures FirstArgumentAt(text, i, k, b) && SecondAt(text, b + 1, b + 2, e)
  {
    SecondStands(text, b + 1, q, value);
    assert SomeSecondAt(text, b + 1);
    FirstStands(text, i, p, name);
  }

  lemma {:induction false} ArgumentTexts(text: ByteString, i: nat, p: byte, name: ByteString, q: byte,
                                         value: ByteString, k: nat, b: nat, e: nat)
    requires FitsIn(p, name) && FitsIn(q, value) && ArgumentsLie(text, i, p, name, q, value)
    requires k == i + 1 && b == i + 2 + |name| && e == b + 3 + |value|
    ensures e < |text| && text[k + 1..b] == name && text[b + 3..e] == value
    ensures ClosesAt(text, e + 1) && CloseEnd(text, e + 1) == e + 2
  {
    QuotedInside(text, i + 1, p, name);
    QuotedInside(text, b + 2, q, value);
    ByteStands(text, ')', b + 4 + |value|);
  }

  lemma {:induction false} CallLies(text: ByteString, i: nat, c: HiddenCall)
    requires OccursAt(text, CallText(c), i)
    ensures LiteralAt(text, CALL_WORD, true, i)
    ensures ArgumentsLie(text, i + 17, c.nameQuote, c.field.name, c.valueQuote, c.field.value)
    ensures |CallText(c)| == 24 + |c.field.name| + |c.field.value|
  {
    SixPieces(text, i, CALL_WORD, "(", Quoted(c.nameQuote, c.field.name), ",",
              Quoted(c.valueQuote, c.field.value), ")");
    WordStands(text, CALL_WORD, i);
  }

  lemma {:induction false} ArgumentsMakeCall(text: ByteString, i: nat, k: nat, b: nat, q: nat, e: nat)
    requires LiteralAt(text, CALL_WORD, true, i) && FirstArgumentAt(text, i + 17, k, b) && SecondAt(text, b + 1, q, e)
    ensures CallAt(text, i, k, b, q, e)
  {
  }

  /** A rendered call is a call. */
  lemma {:induction false} CallStands(text: ByteString, i: nat, c: HiddenCall, k: nat, b: nat, e: nat)
    requires Callable(c) && LiteralAt(text, CALL_WORD, true, i)
    requires ArgumentsLie(text, i + 17, c.nameQuote, c.field.name, c.valueQuote, c.field.value)
    requires k == i + 18 && b == i + 19 + |c.field.name| && e == b + 3 + |c.field.value|
    ensures CallAt(text, i, k, b, b + 2, e)
  {
    ArgumentsStand(text, i + 17, c.nameQuote, c.field.name, c.valueQuote, c.field.value, k, b, e);
    ArgumentsMakeCall(text, i, k, b, b + 2, e);
  }

  lemma {:induction false} ArgumentsAreRead(text: ByteString, i: nat, p: nat, b: nat, q: nat, e: nat, f: Field)
    requires CallAt(text, i, p, b, q, e) && p < b <= |text| && q < e < |text| && ClosesAt(text, e + 1)
    requires f.name == text[p + 1..b] && f.value == text[q + 1..e] && CloseEnd(text, e + 1) == e + 2
    ensures i <= |text| && Run(HIDDEN_INPUT, text, i, map[]).Some?
    ensures var m := MatchAt(HIDDEN_INPUT, text, i); m.end == e + 2 && HiddenField(text, m) == f
  {
    CallIsRead(text, i, p, b, q, e);
  }

  lemma {:induction false} LaidIsRead(text: ByteString, i: nat, c: HiddenCall, k: nat, b: nat, e: nat)
    requires Callable(c) && LiteralAt(text, CALL_WORD, true, i)
    requires ArgumentsLie(text, i + 17, c.nameQuote, c.field.name, c.valueQuote, c.field.value)
    requires k == i + 18 && b == i + 19 + |c.field.name| && e == b + 3 + |c.field.value|
    ensures i <= |text| && Run(HIDDEN_INPUT, text, i, map[]).Some?
    ensures var m := MatchAt(HIDDEN_INPUT, text, i); m.end == e + 2 && HiddenField(text, m) == c.field
  {
    CallStands(text, i, c, k, b, e);
    ArgumentTexts(text, i + 17, c.nameQuote, c.field.name, c.valueQuote, c.field.value, k, b, e);
    ArgumentsAreRead(text, i, k, b, b + 2, e, c.field);
  }

  lemma {:induction false} RenderedIsRead(text: ByteString, i: nat, c: HiddenCall)
    requires Callable(c) && OccursAt(text, CallText(c), i)
    ensures Run(HIDDEN_INPUT, text, i, map[]).Some?
    ensures var m := MatchAt(HIDDEN_INPUT, text, i); m.end == i + |CallText(c)| && HiddenField(text, m) == c.field
  {
    var b := i + 19 + |c.field.name|;
    CallLies(text, i, c);
    LaidIsRead(text, i, c, i + 18, b, b + 3 + |c.field.value|);
  }

  lemma {:induction false} CallEnds(text: ByteString, i: nat, c: HiddenCall)
    requires Callable(c) && OccursAt(text, CallText(c), i)
    ensures EndsOf(HIDDEN_INPUT, text)(i) == Some(i + |CallText(c)|)
  {
    RenderedIsRead(text, i, c);
    EndsAt(HIDDEN_INPUT, text, i, i + |CallText(c)|);
  }

  lemma {:induction false} CallIsPiece(c: HiddenCall)
    requires Callable(c)
    ensures CallText(c) != [] && ReadsPiece(HIDDEN_INPUT, CallText(c))
  {
    forall text, i: nat | OccursAt(text, CallText(c), i)
      ensures EndsOf(HIDDEN_INPUT, text)(i) == Some(i + |CallText(c)|)
    {
      CallEnds(text, i, c);
    }
  }

  lemma {:induction false} NoCallInGap(page: ByteString, j: nat)
    requires !SomeCallAt(page, j)
    ensures EndsOf(HIDDEN_INPUT, page)(j) == None
  {
    if j <= |page| { CallMeaning(page, j); }
  }

  lemma {:induction false} CallPageIsScanned(page: ByteString, lead: ByteString, cs: seq<HiddenCall>)
    requires IsCallPage(page, lead, cs)
    ensures CoverAll(page, FindAll(HIDDEN_INPUT, page, 0), Calls(cs))
  {
    forall k | 0 <= k < |cs| ensures Calls(cs)[k].text != [] && ReadsPiece(HIDDEN_INPUT, Calls(cs)[k].text) {
      assert cs[k] in cs;
      CallIsPiece(cs[k]);
    }
    forall j: nat | InGap(lead, Calls(cs), j) ensures EndsOf(HIDDEN_INPUT, page)(j) == None { NoCallInGap(page, j); }
    ScanPage(HIDDEN_INPUT, page, lead, Calls(cs));
  }

  lemma {:induction false} CoveredCall(page: ByteString, k: nat, c: HiddenCall)
    requires k < |FindAll(HIDDEN_INPUT, page, 0)| && Callable(c)
    requires Covers(page, FindAll(HIDDEN_INPUT, page, 0)[k], CallText(c))
    ensures HiddenField(page, FindAll(HIDDEN_INPUT, page, 0)[k]) == c.field
  {
    var m := FindAll(HIDDEN_INPUT, page, 0)[k];
    FindAllRuns(HIDDEN_INPUT, page, 0, k);
    RenderedIsRead(page, m.start, c);
    assert m == MatchAt(HIDDEN_INPUT, page, m.start);
  }

  /** The second pass finds exactly the calls of a page, whatever else the page holds. */
  lemma {:induction false} CallsOnPage(page: ByteString, lead: ByteString, cs: seq<HiddenCall>)
    requires IsCallPage(page, lead, cs)
    ensures HiddenFields(page, FindAll(HIDDEN_INPUT, page, 0)) == CallFields(cs)
  {
    CallPageIsScanned(page, lead, cs);
    var ms := FindAll(HIDDEN_INPUT, page, 0);
    forall k | 0 <= k < |cs| ensures HiddenField(page, ms[k]) == cs[k].field {
      assert cs[k] in cs && Covers(page, ms[k], Calls(cs)[k].text);
      CoveredCall(page, k, cs[k]);
    }
  }
}
