/** What the login page's token patterns mean, on every page. */
module LoginTokens {
  import opened Bytes
  import opened Regex
  import opened FormPatterns
  import opened FormMeaning
  import opened LoginPage

  // ---- A word, an equals sign and a quote ----

  /** An equals sign and a quote stand at `i`, each after optional white space; the position after
      the quote. */
  function AfterEquals(text: ByteString, i: nat): (e: Option<nat>)
    requires i <= |text|
    ensures e.Some? ==> i < e.value <= |text|
  {
    var k := AfterSpaces(text, i);
    if k == |text| || text[k] != '=' then None
    else
      var q := AfterSpaces(text, k + 1);
      if q < |text| && InClass(text[q], Quotes) then Some(q + 1) else None
  }

  /** The word stands at `i`, and then an equals sign and a quote. */
  function Opened(text: ByteString, word: ByteString, i: nat): (e: Option<nat>)
    ensures e.Some? ==> i + |word| < e.value <= |text|
  {
    if LiteralAt(text, word, true, i) then AfterEquals(text, i + |word|) else None
  }

  function QuoteStar(next: Regex): Regex { Star(Spaces, false, One(Quotes, next)) }

  lemma {:induction false} QuoteStep(next: Regex, text: ByteString, i: nat, marks: Marks)
    requires i < |text|
    ensures IsSpace(text[i]) ==>
              Run(One(Quotes, next), text, i, marks).None?
              && Run(QuoteStar(next), text, i, marks) == Run(QuoteStar(next), text, i + 1, marks)
    ensures !IsSpace(text[i]) ==> Run(QuoteStar(next), text, i, marks) == Run(One(Quotes, next), text, i, marks)
  {
  }

  lemma {:induction false} QuoteRuns(next: Regex, text: ByteString, i: nat, marks: Marks)
    requires i <= |text|
    ensures var q := AfterSpaces(text, i);
            Run(QuoteStar(next), text, i, marks) ==
            if q < |text| && InClass(text[q], Quotes) then Run(next, text, q + 1, marks) else None
    decreases |text| - i
  {
    if i < |text| {
      QuoteStep(next, text, i, marks);
      if IsSpace(text[i]) { QuoteRuns(next, text, i + 1, marks); }
    }
  }

  lemma {:induction false} EqualsMeaning(rest: Regex, text: ByteString, i: nat, marks: Marks)
    requires i <= |text|
    ensures var k := AfterSpaces(text, i);
            Run(Spaced("=", rest), text, i, marks) ==
            if k < |text| && text[k] == '=' then Run(rest, text, k + 1, marks) else None
  {
    SpacedMeaning("=", '=', rest, text, i, marks);
  }

  lemma {:induction false} EqualsRuns(next: Regex, text: ByteString, i: nat, marks: Marks)
    requires i <= |text|
    ensures Run(Spaced("=", QuoteStar(next)), text, i, marks) ==
            match AfterEquals(text, i) case None => None case Some(e) => Run(next, text, e, marks)
  {
    EqualsMeaning(QuoteStar(next), text, i, marks);
    var k := AfterSpaces(text, i);
    if k < |text| { QuoteRuns(next, text, k + 1, marks); }
  }

  lemma {:induction false} OpeningRuns(word: ByteString, next: Regex, text: ByteString, i: nat, marks: Marks)
    requires i <= |text|
    ensures Run(OpeningPart(word, next), text, i, marks) ==
            match Opened(text, word, i) case None => None case Some(e) => Run(next, text, e, marks)
  {
    WordRuns(word, Spaced("=", QuoteStar(next)), text, i, marks);
    if LiteralAt(text, word, true, i) { EqualsRuns(next, text, i + |word|, marks); }
  }

  /** WORD="NAME" stands at `i`; the position after it. */
  function AssignedEnd(text: ByteString, word: ByteString, name: ByteString, i: nat): (e: Option<nat>)
    ensures e.Some? ==> e.value <= |text|
  {
    match Opened(text, word, i)
    case None => None
    case Some(a) => QuotedEnd(text, name, a)
  }

  /** The name and a quote stand at `a`; the position after them. */
  function QuotedEnd(text: ByteString, name: ByteString, a: nat): (e: Option<nat>)
    ensures e.Some? ==> e.value <= |text|
  {
    var b := a + |name|;
    if LiteralAt(text, name, true, a) && b < |text| && InClass(text[b], Quotes) then Some(b + 1) else None
  }

  function NameEnd(text: ByteString, name: ByteString, i: nat): (e: Option<nat>)
    ensures e.Some? ==> e.value <= |text|
  {
    AssignedEnd(text, "name", name, i)
  }

  lemma {:induction false} QuotedWordRuns(word: ByteString, next: Regex, text: ByteString, a: nat, marks: Marks)
    requires a <= |text|
    ensures Run(Literal(word, true, One(Quotes, next)), text, a, marks) ==
            match QuotedEnd(text, word, a) case None => None case Some(e) => Run(next, text, e, marks)
  {
    WordRuns(word, One(Quotes, next), text, a, marks);
  }

  lemma {:induction false} AssignedRuns(word: ByteString, name: ByteString, next: Regex, text: ByteString,
                                        i: nat, marks: Marks)
    requires i <= |text|
    ensures Run(OpeningPart(word, Literal(name, true, One(Quotes, next))), text, i, marks) ==
            match AssignedEnd(text, word, name, i) case None => None case Some(e) => Run(next, text, e, marks)
  {
    OpeningRuns(word, Literal(name, true, One(Quotes, next)), text, i, marks);
    match Opened(text, word, i)
    case None =>
    case Some(a) => QuotedWordRuns(name, next, text, a, marks);
  }

  lemma {:induction false} NameRuns(name: ByteString, next: Regex, text: ByteString, i: nat, marks: Marks)
    requires i <= |text|
    ensures Run(NamePart(name, next), text, i, marks) ==
            match NameEnd(text, name, i) case None => None case Some(e) => Run(next, text, e, marks)
  {
    AssignedRuns("name", name, next, text, i, marks);
  }

  /** The first quote of either kind from `a` on, or the end. */
  function NextQuote(text: ByteString, a: nat): (b: nat)
    requires a <= |text|
    ensures a <= b <= |text| && AllIn(text, NotQuotes, a, b) && (b == |text| || InClass(text[b], Quotes))
    decreases |text| - a
  {
    if a < |text| && InClass(text[a], NotQuotes) then NextQuote(text, a + 1) else a
  }

  datatype Span = Span(open: nat, close: nat)

  /** Where the text that starts at `a` lies: all there is up to a quote of either kind. */
  function TextSpan(text: ByteString, a: nat): (s: Option<Span>)
    requires a <= |text|
    ensures s.Some? ==> a == s.value.open <= s.value.close < |text|
  {
    var b := NextQuote(text, a);
    if b < |text| then Some(Span(a, b)) else None
  }

  /** WORD="TEXT" stands at `i`; where its text lies. */
  function SpanAfter(text: ByteString, word: ByteString, i: nat): (s: Option<Span>)
    ensures s.Some? ==> i < s.value.open <= s.value.close < |text|
  {
    match Opened(text, word, i)
    case None => None
    case Some(a) => TextSpan(text, a)
  }

  function ValueSpan(text: ByteString, i: nat): (s: Option<Span>)
    ensures s.Some? ==> i < s.value.open <= s.value.close < |text|
  {
    SpanAfter(text, "value", i)
  }

  function SpanMarks(s: Span): Marks { map[0 := s.open][1 := s.close] }

  lemma {:induction false} TextRuns(next: Regex, text: ByteString, a: nat)
    requires a <= |text|
    ensures Run(ValueText(next), text, a, map[]) ==
            match TextSpan(text, a) case None => None case Some(s) => Run(next, text, s.close + 1, SpanMarks(s))
  {
    QuoteStops(next, text, a, NextQuote(text, a), map[0 := a]);
  }

  lemma {:induction false} QuoteStops(next: Regex, text: ByteString, a: nat, b: nat, marks: Marks)
    requires a <= b <= |text| && AllIn(text, NotQuotes, a, b) && (b == |text| || InClass(text[b], Quotes))
    ensures Run(Star(NotQuotes, false, ValueClose(next)), text, a, marks) ==
            if b < |text| then Run(next, text, b + 1, marks[1 := b]) else None
    decreases b - a
  {
    CloseRuns(next, text, a, marks);
    if a < b { QuoteStops(next, text, a + 1, b, marks); }
  }

  lemma {:induction false} CloseRuns(next: Regex, text: ByteString, a: nat, marks: Marks)
    requires a <= |text|
    ensures Run(ValueClose(next), text, a, marks) ==
            if a < |text| && InClass(text[a], Quotes) then Run(next, text, a + 1, marks[1 := a]) else None
  {
  }

  /** What follows a value, when there is one. */
  function RunAfter(next: Regex, text: ByteString, span: Option<Span>): Option<Found>
    requires span.Some? ==> span.value.close < |text|
  {
    match span case None => None case Some(s) => Run(next, text, s.close + 1, SpanMarks(s))
  }

  lemma {:induction false} SpanRuns(word: ByteString, next: Regex, text: ByteString, i: nat)
    requires i <= |text|
    ensures Run(OpeningPart(word, ValueText(next)), text, i, map[]) == RunAfter(next, text, SpanAfter(text, word, i))
  {
    OpeningRuns(word, ValueText(next), text, i, map[]);
    match Opened(text, word, i)
    case None =>
    case Some(a) => TextRuns(next, text, a);
  }

  lemma {:induction false} ValueRuns(next: Regex, text: ByteString, i: nat)
    requires i <= |text|
    ensures Run(ValuePart(next), text, i, map[]) == RunAfter(next, text, ValueSpan(text, i))
  {
    SpanRuns("value", next, text, i);
  }

  // ---- As far as a tag reaches ----

  /** No closing bracket stands in from..k. */
  predicate InTag(text: ByteString, from: nat, k: nat) {
    from <= k <= |text| && AllIn(text, NotGreater, from, k)
  }

  /** Nothing further on in the tag will do. */
  ghost predicate LastStop(next: Regex, text: ByteString, from: nat, k: nat, marks: Marks) {
    && InTag(text, from, k) && Run(next, text, k, marks).Some?
    && forall j: nat :: k < j && InTag(text, from, j) ==> Run(next, text, j, marks).None?
  }

  lemma {:induction false} LaterStop(next: Regex, text: ByteString, from: nat, k: nat, marks: Marks)
    requires LastStop(next, text, from, k, marks) && from < k
    ensures LastStop(next, text, from + 1, k, marks)
  {
    forall j: nat | k < j && InTag(text, from + 1, j) ensures Run(next, text, j, marks).None? {
      assert InTag(text, from, j);
    }
  }

  lemma {:induction false} NoLaterStop(next: Regex, text: ByteString, from: nat, marks: Marks)
    requires LastStop(next, text, from, from, marks) && from < |text| && text[from] != '>'
    ensures Run(InTagStar(next), text, from + 1, marks).None?
  {
    if Run(InTagStar(next), text, from + 1, marks).Some? {
      var j := StarStops(NotGreater, false, next, text, from + 1, marks);
      assert InTag(text, from, j);
    }
  }

  lemma {:induction false} LastStopRuns(next: Regex, text: ByteString, from: nat, k: nat, marks: Marks)
    requires LastStop(next, text, from, k, marks)
    ensures Run(InTagStar(next), text, from, marks) == Run(next, text, k, marks)
    decreases k - from
  {
    if from < k {
      LaterStop(next, text, from, k, marks);
      LastStopRuns(next, text, from + 1, k, marks);
    } else if from < |text| && text[from] != '>' {
      NoLaterStop(next, text, from, marks);
    }
  }

  /** The pattern matches at `i` and captures `s`. */
  predicate Captures(re: Regex, text: ByteString, i: nat, s: Span) {
    i <= |text| && var r := Run(re, text, i, map[]); r.Some? && r.value.marks == SpanMarks(s)
  }

  /** An input captures what its last stop captures. */
  lemma {:induction false} InputCaptures(part: Regex, text: ByteString, i: nat, n: nat, s: Span)
    requires LiteralAt(text, "<input", true, i) && LastStop(part, text, i + 6, n, map[]) && Captures(part, text, n, s)
    ensures Captures(Literal("<input", true, InTagStar(part)), text, i, s)
  {
    LastStopRuns(part, text, i + 6, n, map[]);
    WordRuns("<input", InTagStar(part), text, i, map[]);
  }

  lemma {:induction false} SomeLastStop(next: Regex, text: ByteString, from: nat, j: nat, marks: Marks) returns (k: nat)
    requires InTag(text, from, j) && Run(next, text, j, marks).Some?
    ensures LastStop(next, text, from, k, marks)
    decreases |text| - j
  {
    k := j;
    if l: nat :| j < l && InTag(text, from, l) && Run(next, text, l, marks).Some? {
      k := SomeLastStop(next, text, from, l, marks);
    }
  }

  lemma {:induction false} TagStarRuns(next: Regex, text: ByteString, from: nat, marks: Marks)
    requires from <= |text|
    ensures Run(InTagStar(next), text, from, marks).Some? <==>
            exists k: nat :: InTag(text, from, k) && Run(next, text, k, marks).Some?
  {
    if Run(InTagStar(next), text, from, marks).Some? {
      var k := StarStops(NotGreater, false, next, text, from, marks);
      assert InTag(text, from, k);
    }
    if k: nat :| InTag(text, from, k) && Run(next, text, k, marks).Some? {
      var l := SomeLastStop(next, text, from, k, marks);
      LastStopRuns(next, text, from, l, marks);
    }
  }

  // ---- An input whose name comes first ----

  predicate ValueIn(text: ByteString, from: nat, v: nat) {
    InTag(text, from, v) && ValueSpan(text, v).Some?
  }

  /** The last value in the rest of the tag. */
  ghost predicate LastValue(text: ByteString, from: nat, v: nat) {
    ValueIn(text, from, v) && forall w: nat :: v < w ==> !ValueIn(text, from, w)
  }

  /** The name stands at `n`, and a value after it in the tag. */
  ghost predicate NamedValue(text: ByteString, name: ByteString, n: nat) {
    NameEnd(text, name, n).Some? && exists v: nat :: ValueIn(text, NameEnd(text, name, n).value, v)
  }

  /** An input stands at `i`: `n` is the last place in it where the name stands with a value after
      it, and `s` the text of the last value after that. */
  ghost predicate NamedInput(text: ByteString, name: ByteString, i: nat, n: nat, s: Span) {
    && LiteralAt(text, "<input", true, i) && InTag(text, i + 6, n) && NamedValue(text, name, n)
    && (forall m: nat :: n < m && InTag(text, i + 6, m) ==> !NamedValue(text, name, m))
    && exists v: nat :: LastValue(text, NameEnd(text, name, n).value, v) && ValueSpan(text, v) == Some(s)
  }

  const VALUE_END: Regex := ValuePart(Accept)

  lemma {:induction false} ValueEndRuns(text: ByteString, v: nat)
    requires v <= |text|
    ensures Run(VALUE_END, text, v, map[]) ==
            match ValueSpan(text, v) case None => None case Some(s) => Some(Found(s.close + 1, SpanMarks(s)))
  {
    ValueRuns(Accept, text, v);
    if ValueSpan(text, v).Some? {
      var s := ValueSpan(text, v).value;
      assert Run(Accept, text, s.close + 1, SpanMarks(s)) == Some(Found(s.close + 1, SpanMarks(s)));
    }
  }

  lemma {:induction false} RestRuns(text: ByteString, from: nat)
    requires from <= |text|
    ensures Run(InTagStar(VALUE_END), text, from, map[]).Some? <==> exists v: nat :: ValueIn(text, from, v)
  {
    TagStarRuns(VALUE_END, text, from, map[]);
    forall v: nat | v <= |text| ensures Run(VALUE_END, text, v, map[]).Some? <==> ValueSpan(text, v).Some? {
      ValueEndRuns(text, v);
    }
    if v: nat :| InTag(text, from, v) && Run(VALUE_END, text, v, map[]).Some? { assert ValueIn(text, from, v); }
  }

  lemma {:induction false} LastValueRuns(text: ByteString, from: nat, v: nat, s: Span)
    requires LastValue(text, from, v) && ValueSpan(text, v) == Some(s)
    ensures Run(InTagStar(VALUE_END), text, from, map[]) == Some(Found(s.close + 1, SpanMarks(s)))
  {
    ValueEndRuns(text, v);
    forall j: nat | v < j && InTag(text, from, j) ensures Run(VALUE_END, text, j, map[]).None? {
      ValueEndRuns(text, j);
      assert !ValueIn(text, from, j);
    }
    LastStopRuns(VALUE_END, text, from, v, map[]);
  }

  function NamedPart(name: ByteString): Regex { NamePart(name, InTagStar(VALUE_END)) }

  lemma {:induction false} NamedPartRuns(text: ByteString, name: ByteString, n: nat)
    requires n <= |text|
    ensures Run(NamedPart(name), text, n, map[]).Some? <==> NamedValue(text, name, n)
  {
    NameRuns(name, InTagStar(VALUE_END), text, n, map[]);
    if NameEnd(text, name, n).Some? { RestRuns(text, NameEnd(text, name, n).value); }
  }

  lemma {:induction false} NamedPartCaptures(text: ByteString, name: ByteString, n: nat, v: nat, s: Span)
    requires n <= |text| && NameEnd(text, name, n).Some?
    requires LastValue(text, NameEnd(text, name, n).value, v) && ValueSpan(text, v) == Some(s)
    ensures Captures(NamedPart(name), text, n, s)
  {
    NameRuns(name, InTagStar(VALUE_END), text, n, map[]);
    LastValueRuns(text, NameEnd(text, name, n).value, v, s);
  }

  lemma {:induction false} LastNamedStops(text: ByteString, name: ByteString, from: nat, n: nat)
    requires InTag(text, from, n) && NamedValue(text, name, n)
    requires forall m: nat :: n < m && InTag(text, from, m) ==> !NamedValue(text, name, m)
    ensures LastStop(NamedPart(name), text, from, n, map[])
  {
    NamedPartRuns(text, name, n);
    forall m: nat | n < m && InTag(text, from, m) ensures Run(NamedPart(name), text, m, map[]).None? {
      NamedPartRuns(text, name, m);
    }
  }

  lemma {:induction false} NamedInputCaptured(text: ByteString, name: ByteString, i: nat, n: nat, s: Span)
    requires NamedInput(text, name, i, n, s)
    ensures Captures(NameFirst(name), text, i, s)
  {
    var v: nat :| LastValue(text, NameEnd(text, name, n).value, v) && ValueSpan(text, v) == Some(s);
    NamedPartCaptures(text, name, n, v, s);
    LastNamedStops(text, name, i + 6, n);
    InputCaptures(NamedPart(name), text, i, n, s);
  }

  lemma {:induction false} SomeLastValue(text: ByteString, from: nat, v: nat) returns (w: nat)
    requires ValueIn(text, from, v)
    ensures LastValue(text, from, w)
    decreases |text| - v
  {
    w := v;
    if u: nat :| v < u && ValueIn(text, from, u) { w := SomeLastValue(text, from, u); }
  }

  lemma {:induction false} LastNamedValue(text: ByteString, name: ByteString, from: nat, n: nat) returns (m: nat)
    requires InTag(text, from, n) && NamedValue(text, name, n)
    ensures InTag(text, from, m) && NamedValue(text, name, m)
    ensures forall l: nat :: m < l && InTag(text, from, l) ==> !NamedValue(text, name, l)
    decreases |text| - n
  {
    m := n;
    if l: nat :| n < l && InTag(text, from, l) && NamedValue(text, name, l) {
      m := LastNamedValue(text, name, from, l);
    }
  }

  lemma {:induction false} NamedInputFound(text: ByteString, name: ByteString, i: nat) returns (n: nat, s: Span)
    requires i <= |text| && Run(NameFirst(name), text, i, map[]).Some?
    ensures NamedInput(text, name, i, n, s)
  {
    WordRuns("<input", InTagStar(NamedPart(name)), text, i, map[]);
    TagStarRuns(NamedPart(name), text, i + 6, map[]);
    var k: nat :| InTag(text, i + 6, k) && Run(NamedPart(name), text, k, map[]).Some?;
    NamedPartRuns(text, name, k);
    n := LastNamedValue(text, name, i + 6, k);
    var v: nat :| ValueIn(text, NameEnd(text, name, n).value, v);
    var w := SomeLastValue(text, NameEnd(text, name, n).value, v);
    s := ValueSpan(text, w).value;
  }

  // ---- An input whose value comes first ----

  predicate NameIn(text: ByteString, name: ByteString, from: nat, n: nat) {
    InTag(text, from, n) && NameEnd(text, name, n).Some?
  }

  ghost predicate SomeNameIn(text: ByteString, name: ByteString, from: nat) {
    exists n: nat :: NameIn(text, name, from, n)
  }

  /** A value stands at `v`, and the name after it in the tag. */
  ghost predicate ValuedName(text: ByteString, name: ByteString, v: nat) {
    ValueSpan(text, v).Some? && SomeNameIn(text, name, ValueSpan(text, v).value.close + 1)
  }

  /** An input stands at `i`, and `s` is the text of the last value in it with the name after it. */
  ghost predicate ValuedInput(text: ByteString, name: ByteString, i: nat, v: nat, s: Span) {
    && LiteralAt(text, "<input", true, i) && InTag(text, i + 6, v) && ValuedName(text, name, v)
    && (forall w: nat :: v < w && InTag(text, i + 6, w) ==> !ValuedName(text, name, w))
    && ValueSpan(text, v) == Some(s)
  }

  function NameLast(name: ByteString): Regex { NamePart(name, Accept) }

  lemma {:induction false} NameLastRuns(text: ByteString, name: ByteString, n: nat, marks: Marks)
    requires n <= |text|
    ensures Run(NameLast(name), text, n, marks) ==
            match NameEnd(text, name, n) case None => None case Some(e) => Some(Found(e, marks))
  {
    NameRuns(name, Accept, text, n, marks);
  }

  lemma {:induction false} NameRestRuns(text: ByteString, name: ByteString, from: nat, marks: Marks)
    requires from <= |text|
    ensures Run(InTagStar(NameLast(name)), text, from, marks).Some? <==> SomeNameIn(text, name, from)
  {
    TagStarRuns(NameLast(name), text, from, marks);
    forall n: nat | n <= |text| ensures Run(NameLast(name), text, n, marks).Some? <==> NameEnd(text, name, n).Some? {
      NameLastRuns(text, name, n, marks);
    }
    if n: nat :| InTag(text, from, n) && Run(NameLast(name), text, n, marks).Some? {
      assert NameIn(text, name, from, n);
    }
  }

  lemma {:induction false} RestKeepsMarks(text: ByteString, name: ByteString, from: nat, marks: Marks)
    requires from <= |text| && Run(InTagStar(NameLast(name)), text, from, marks).Some?
    ensures Run(InTagStar(NameLast(name)), text, from, marks).value.marks == marks
  {
    var k := StarStops(NotGreater, false, NameLast(name), text, from, marks);
    assert InTag(text, from, k);
    var l := SomeLastStop(NameLast(name), text, from, k, marks);
    LastStopRuns(NameLast(name), text, from, l, marks);
    NameLastRuns(text, name, l, marks);
  }

  function ValuedPart(name: ByteString): Regex { ValuePart(InTagStar(NameLast(name))) }

  lemma {:induction false} ValuedPartRuns(text: ByteString, name: ByteString, v: nat)
    requires v <= |text|
    ensures Run(ValuedPart(name), text, v, map[]).Some? <==> ValuedName(text, name, v)
  {
    ValueRuns(InTagStar(NameLast(name)), text, v);
    if ValueSpan(text, v).Some? {
      var s := ValueSpan(text, v).value;
      NameRestRuns(text, name, s.close + 1, SpanMarks(s));
    }
  }

  lemma {:induction false} RestGives(text: ByteString, name: ByteString, from: nat, marks: Marks)
    requires from <= |text| && SomeNameIn(text, name, from)
    ensures Run(InTagStar(NameLast(name)), text, from, marks).Some?
    ensures Run(InTagStar(NameLast(name)), text, from, marks).value.marks == marks
  {
    NameRestRuns(text, name, from, marks);
    RestKeepsMarks(text, name, from, marks);
  }

  lemma {:induction false} ValuedPartCaptures(text: ByteString, name: ByteString, v: nat, s: Span)
    requires v <= |text| && ValueSpan(text, v) == Some(s) && SomeNameIn(text, name, s.close + 1)
    ensures Captures(ValuedPart(name), text, v, s)
  {
    RestGives(text, name, s.close + 1, SpanMarks(s));
    ValueRuns(InTagStar(NameLast(name)), text, v);
  }

  lemma {:induction false} LastValuedStops(text: ByteString, name: ByteString, from: nat, v: nat)
    requires InTag(text, from, v) && ValuedName(text, name, v)
    requires forall w: nat :: v < w && InTag(text, from, w) ==> !ValuedName(text, name, w)
    ensures LastStop(ValuedPart(name), text, from, v, map[])
  {
    ValuedPartRuns(text, name, v);
    forall w: nat | v < w && InTag(text, from, w) ensures Run(ValuedPart(name), text, w, map[]).None? {
      ValuedPartRuns(text, name, w);
    }
  }

  lemma {:induction false} ValuedInputCaptured(text: ByteString, name: ByteString, i: nat, v: nat, s: Span)
    requires ValuedInput(text, name, i, v, s)
    ensures Captures(ValueFirst(name), text, i, s)
  {
    ValuedPartCaptures(text, name, v, s);
    LastValuedStops(text, name, i + 6, v);
    InputCaptures(ValuedPart(name), text, i, v, s);
  }

  lemma {:induction false} LastValuedName(text: ByteString, name: ByteString, from: nat, v: nat) returns (m: nat)
    requires InTag(text, from, v) && ValuedName(text, name, v)
    ensures InTag(text, from, m) && ValuedName(text, name, m)
    ensures forall l: nat :: m < l && InTag(text, from, l) ==> !ValuedName(text, name, l)
    decreases |text| - v
  {
    m := v;
    if l: nat :| v < l && InTag(text, from, l) && ValuedName(text, name, l) {
      m := LastValuedName(text, name, from, l);
    }
  }

  lemma {:induction false} ValuedInputFound(text: ByteString, name: ByteString, i: nat) returns (v: nat, s: Span)
    requires i <= |text| && Run(ValueFirst(name), text, i, map[]).Some?
    ensures ValuedInput(text, name, i, v, s)
  {
    WordRuns("<input", InTagStar(ValuedPart(name)), text, i, map[]);
    TagStarRuns(ValuedPart(name), text, i + 6, map[]);
    var k: nat :| InTag(text, i + 6, k) && Run(ValuedPart(name), text, k, map[]).Some?;
    ValuedPartRuns(text, name, k);
    v := LastValuedName(text, name, i + 6, k);
    s := ValueSpan(text, v).value;
  }

  // ---- A call ----

  /** The text is not empty, holds no double quote, and a double quote and a parenthesis follow. */
  predicate CallArgument(text: ByteString, s: Span) {
    && s.open < s.close <= |text| && AllIn(text, NotDouble, s.open, s.close) && LiteralAt(text, "\")", false, s.close)
  }

  /** createHiddenInput("NAME", "TEXT") stands at `i`, and `s` is where its text lies. */
  predicate HiddenToken(text: ByteString, name: ByteString, i: nat, s: Span) {
    && LiteralAt(text, CallHead(name), false, i)
    && ByteAfter(text, i + |CallHead(name)|, '\"', s.open) && CallArgument(text, s)
  }

  lemma {:induction false} CallEndRuns(text: ByteString, k: nat, marks: Marks)
    requires k <= |text|
    ensures Run(CALL_END, text, k, marks) ==
            if LiteralAt(text, "\")", false, k) then Some(Found(k + 2, marks[1 := k])) else None
  {
    var w: ByteString := "\")";
    assert |w| == 2;
    if LiteralAt(text, w, false, k) {
      assert Run(Accept, text, k + 2, marks[1 := k]) == Some(Found(k + 2, marks[1 := k]));
    }
  }

  lemma {:induction false} EndHasQuote(text: ByteString, k: nat)
    requires LiteralAt(text, "\")", false, k)
    ensures k < |text| && !InClass(text[k], NotDouble)
  {
    var w: ByteString := "\")";
    assert text[k..k + 2][0] == text[k] && w[0] == '\"';
  }

  lemma {:induction false} ArgumentRuns(text: ByteString, s: Span)
    requires CallArgument(text, s)
    ensures Run(CALL_TEXT, text, s.open, map[]) == Some(Found(s.close + 2, SpanMarks(s)))
  {
    var m: Marks := map[0 := s.open];
    CallEndRuns(text, s.close, m);
    EndHasQuote(text, s.close);
    PlusRuns(NotDouble, CALL_END, text, s.open, s.close, m);
    assert Run(CALL_TEXT, text, s.open, map[]) ==
      Run(One(NotDouble, Star(NotDouble, false, CALL_END)), text, s.open, m);
  }

  lemma {:induction false} ArgumentFound(text: ByteString, a: nat) returns (s: Span)
    requires a <= |text| && Run(CALL_TEXT, text, a, map[]).Some?
    ensures s.open == a && CallArgument(text, s)
  {
    var m: Marks := map[0 := a];
    assert Run(One(NotDouble, Star(NotDouble, false, CALL_END)), text, a, m).Some?;
    var b := StarStops(NotDouble, false, CALL_END, text, a + 1, m);
    CallEndRuns(text, b, m);
    s := Span(a, b);
  }

  lemma {:induction false} HeadRuns(text: ByteString, name: ByteString, i: nat)
    requires i <= |text|
    ensures Run(HiddenCall(name), text, i, map[]) ==
            if LiteralAt(text, CallHead(name), false, i)
            then Run(Spaced("\"", CALL_TEXT), text, i + |CallHead(name)|, map[]) else None
  {
  }

  lemma {:induction false} CallCaptured(text: ByteString, name: ByteString, i: nat, s: Span)
    requires HiddenToken(text, name, i, s)
    ensures Captures(HiddenCall(name), text, i, s)
  {
    ArgumentRuns(text, s);
    SpacedMeaning("\"", '\"', CALL_TEXT, text, i + |CallHead(name)|, map[]);
    HeadRuns(text, name, i);
  }

  lemma {:induction false} CallFound(text: ByteString, name: ByteString, i: nat) returns (s: Span)
    requires i <= |text| && Run(HiddenCall(name), text, i, map[]).Some?
    ensures HiddenToken(text, name, i, s)
  {
    HeadRuns(text, name, i);
    var k := i + |CallHead(name)|;
    SpacedMeaning("\"", '\"', CALL_TEXT, text, k, map[]);
    s := ArgumentFound(text, AfterSpaces(text, k) + 1);
  }

  // ---- The token of a page ----

  datatype Form = NameThenValue | ValueThenName | AsCall

  function PatternOf(form: Form, name: ByteString): Regex {
    match form
    case NameThenValue => NameFirst(name)
    case ValueThenName => ValueFirst(name)
    case AsCall => HiddenCall(name)
  }

  /** A token of that form stands at `i`, and its text is `s`. */
  ghost predicate TokenAt(text: ByteString, name: ByteString, form: Form, i: nat, s: Span) {
    match form
    case NameThenValue => exists n: nat :: NamedInput(text, name, i, n, s)
    case ValueThenName => exists v: nat :: ValuedInput(text, name, i, v, s)
    case AsCall => HiddenToken(text, name, i, s)
  }

  ghost predicate SomeTokenAt(text: ByteString, name: ByteString, form: Form, i: nat) {
    exists s :: TokenAt(text, name, form, i, s)
  }

  /** The first token of that form has the text `t`. */
  ghost predicate FirstToken(text: ByteString, name: ByteString, form: Form, t: ByteString) {
    exists i: nat, s :: FirstTokenAt(text, name, form, i, s) && s.open <= s.close <= |text|
      && t == text[s.open..s.close]
  }

  ghost predicate FirstTokenAt(text: ByteString, name: ByteString, form: Form, i: nat, s: Span) {
    TokenAt(text, name, form, i, s) && forall j: nat :: j < i ==> !SomeTokenAt(text, name, form, j)
  }

  ghost predicate NoToken(text: ByteString, name: ByteString, form: Form) {
    forall i: nat :: !SomeTokenAt(text, name, form, i)
  }

  lemma {:induction false} TokenCaptured(text: ByteString, name: ByteString, form: Form, i: nat, s: Span)
    requires TokenAt(text, name, form, i, s)
    ensures Captures(PatternOf(form, name), text, i, s) && s.open <= s.close <= |text|
  {
    match form
    case NameThenValue =>
      var n: nat :| NamedInput(text, name, i, n, s);
      NamedInputCaptured(text, name, i, n, s);
    case ValueThenName =>
      var v: nat :| ValuedInput(text, name, i, v, s);
      ValuedInputCaptured(text, name, i, v, s);
    case AsCall => CallCaptured(text, name, i, s);
  }

  lemma {:induction false} TokenFound(text: ByteString, name: ByteString, form: Form, i: nat)
    requires i <= |text| && Run(PatternOf(form, name), text, i, map[]).Some?
    ensures SomeTokenAt(text, name, form, i)
  {
    match form
    case NameThenValue =>
      var n, s := NamedInputFound(text, name, i);
      assert TokenAt(text, name, form, i, s);
    case ValueThenName =>
      var v, s := ValuedInputFound(text, name, i);
      assert TokenAt(text, name, form, i, s);
    case AsCall =>
      var s := CallFound(text, name, i);
      assert TokenAt(text, name, form, i, s);
  }

  lemma {:induction false} TokenAtIffRun(text: ByteString, name: ByteString, form: Form, i: nat)
    requires i <= |text|
    ensures SomeTokenAt(text, name, form, i) <==> Run(PatternOf(form, name), text, i, map[]).Some?
  {
    if Run(PatternOf(form, name), text, i, map[]).Some? { TokenFound(text, name, form, i); }
    if s :| TokenAt(text, name, form, i, s) { TokenCaptured(text, name, form, i, s); }
  }

  lemma {:induction false} QuietHasNoToken(text: ByteString, name: ByteString, form: Form, to: nat)
    requires Quiet(PatternOf(form, name), text, 0, to)
    ensures forall j: nat :: j < to && j <= |text| ==> !SomeTokenAt(text, name, form, j)
  {
    forall j: nat | j < to && j <= |text| ensures !SomeTokenAt(text, name, form, j) {
      TokenAtIffRun(text, name, form, j);
    }
  }

  lemma {:induction false} BeyondHasNoToken(text: ByteString, name: ByteString, form: Form, i: nat)
    requires i > |text|
    ensures !SomeTokenAt(text, name, form, i)
  {
    if s :| TokenAt(text, name, form, i, s) { TokenCaptured(text, name, form, i, s); }
  }

  lemma {:induction false} CapturedAt(text: ByteString, re: Regex, i: nat, s: Span)
    requires Captures(re, text, i, s) && Quiet(re, text, 0, i) && s.open <= s.close <= |text|
    ensures Captured(text, re) == Some(text[s.open..s.close])
  {
    SearchAt(re, text, 0, i);
  }

  lemma {:induction false} NoTokenIsQuiet(text: ByteString, name: ByteString, form: Form, i: nat)
    requires i <= |text| && forall j: nat :: j < i ==> !SomeTokenAt(text, name, form, j)
    ensures Quiet(PatternOf(form, name), text, 0, i)
  {
    forall j: nat | j < i ensures Run(PatternOf(form, name), text, j, map[]).None? {
      TokenAtIffRun(text, name, form, j);
    }
  }

  lemma {:induction false} FirstTokenCaptured(text: ByteString, name: ByteString, form: Form, i: nat, s: Span)
    requires FirstTokenAt(text, name, form, i, s)
    ensures s.open <= s.close <= |text| && Captured(text, PatternOf(form, name)) == Some(text[s.open..s.close])
  {
    TokenCaptured(text, name, form, i, s);
    NoTokenIsQuiet(text, name, form, i);
    CapturedAt(text, PatternOf(form, name), i, s);
  }

  lemma {:induction false} FoundIsFirst(text: ByteString, name: ByteString, form: Form, i: nat) returns (s: Span)
    requires i <= |text| && Quiet(PatternOf(form, name), text, 0, i) && Run(PatternOf(form, name), text, i, map[]).Some?
    ensures FirstTokenAt(text, name, form, i, s)
  {
    TokenFound(text, name, form, i);
    s :| TokenAt(text, name, form, i, s);
    QuietHasNoToken(text, name, form, i);
  }

  lemma {:induction false} CapturedIsFirst(text: ByteString, name: ByteString, form: Form)
    requires Search(PatternOf(form, name), text, 0).Some?
    ensures Captured(text, PatternOf(form, name)).Some? && !NoToken(text, name, form)
    ensures FirstToken(text, name, form, Captured(text, PatternOf(form, name)).value)
  {
    SearchFirst(PatternOf(form, name), text, 0);
    var i := Search(PatternOf(form, name), text, 0).value.start;
    var s := FoundIsFirst(text, name, form, i);
    FirstTokenCaptured(text, name, form, i, s);
    assert SomeTokenAt(text, name, form, i);
  }

  lemma {:induction false} NothingCaptured(text: ByteString, name: ByteString, form: Form)
    requires Search(PatternOf(form, name), text, 0).None?
    ensures Captured(text, PatternOf(form, name)).None? && NoToken(text, name, form)
  {
    SearchFirst(PatternOf(form, name), text, 0);
    QuietHasNoToken(text, name, form, |text| + 1);
    forall i: nat ensures !SomeTokenAt(text, name, form, i) {
      if i > |text| { BeyondHasNoToken(text, name, form, i); }
    }
  }

  /** What each pattern captures. */
  lemma {:induction false} CapturedMeaning(text: ByteString, name: ByteString, form: Form, t: ByteString)
    ensures Captured(text, PatternOf(form, name)).None? <==> NoToken(text, name, form)
    ensures Captured(text, PatternOf(form, name)) == Some(t) <==> FirstToken(text, name, form, t)
  {
    if Search(PatternOf(form, name), text, 0).None? {
      NothingCaptured(text, name, form);
    } else {
      CapturedIsFirst(text, name, form);
    }
    if FirstToken(text, name, form, t) { FirstTokenIs(text, name, form, t); }
  }

  lemma {:induction false} FirstTokenIs(text: ByteString, name: ByteString, form: Form, t: ByteString)
    requires FirstToken(text, name, form, t)
    ensures Captured(text, PatternOf(form, name)) == Some(t)
  {
    var i: nat, s :| FirstTokenAt(text, name, form, i, s) && s.open <= s.close <= |text| && t == text[s.open..s.close];
    FirstTokenCaptured(text, name, form, i, s);
  }

  /** The value an input gives: that of the first input with the name first or, without one, of the
      first input with the value first; otherwise nothing. */
  ghost predicate InputGives(text: ByteString, name: ByteString, v: ByteString) {
    || FirstToken(text, name, NameThenValue, v)
    || (NoToken(text, name, NameThenValue)
        && (FirstToken(text, name, ValueThenName, v) || (NoToken(text, name, ValueThenName) && v == [])))
  }

  /** The token of the page: what an input gives, or if that is nothing, the text of the first
      call, or nothing. */
  ghost predicate PageGives(text: ByteString, name: ByteString, t: ByteString) {
    if InputGives(text, name, []) then FirstToken(text, name, AsCall, t) || (NoToken(text, name, AsCall) && t == [])
    else InputGives(text, name, t)
  }

  lemma {:induction false} InputValueMeaning(text: ByteString, name: ByteString, v: ByteString)
    ensures InputValue(text, name) == v <==> InputGives(text, name, v)
  {
    CapturedMeaning(text, name, NameThenValue, v);
    CapturedMeaning(text, name, ValueThenName, v);
    assert PatternOf(NameThenValue, name) == NameFirst(name) && PatternOf(ValueThenName, name) == ValueFirst(name);
  }

  /** The token read off a login page is exactly the one that the page gives. */
  lemma {:induction false} PageTokenMeaning(text: ByteString, name: ByteString, t: ByteString)
    ensures PageToken(text, name) == t <==> PageGives(text, name, t)
  {
    InputValueMeaning(text, name, []);
    InputValueMeaning(text, name, t);
    CapturedMeaning(text, name, AsCall, t);
    assert PatternOf(AsCall, name) == HiddenCall(name);
  }
}
