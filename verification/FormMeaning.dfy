/** What the patterns for tags, attributes and calls mean, on every text. */
module FormMeaning {
  import opened Bytes
  import opened Regex
  import opened UrlForm
  import opened FormPatterns

  // ---- White space and words ----

  /** The first position from `i` on that holds no white space, or the end. */
  function AfterSpaces(text: ByteString, i: nat): (k: nat)
    requires i <= |text|
    ensures i <= k <= |text| && AllIn(text, Spaces, i, k) && (k == |text| || !IsSpace(text[k]))
    decreases |text| - i
  {
    if i < |text| && IsSpace(text[i]) then AfterSpaces(text, i + 1) else i
  }

  /** The first byte after white space is `c`, and `end` is the position after it. */
  predicate ByteAfter(text: ByteString, i: nat, c: byte, end: nat) {
    i <= |text| && var k := AfterSpaces(text, i); k < |text| && text[k] == c && end == k + 1
  }

  lemma {:induction false} LiteralMismatch(text: ByteString, literal: ByteString, icase: bool, i: nat, k: nat)
    requires k < |literal| && (i + k >= |text| || ToLower(text[i + k]) != ToLower(literal[k]))
    ensures !LiteralAt(text, literal, icase, i)
  {
    if i + |literal| <= |text| {
      var piece := text[i..i + |literal|];
      assert piece[k] == text[i + k];
      assert Lower(piece)[k] != Lower(literal)[k];
    }
  }

  lemma {:induction false} ByteLiteral(text: ByteString, c: byte, i: nat)
    requires !IsAlpha(c)
    ensures LiteralAt(text, [c], true, i) <==> i < |text| && text[i] == c
  {
    if i < |text| {
      var piece := text[i..i + 1];
      assert piece == [text[i]];
      assert Lower(piece)[0] == ToLower(text[i]) && Lower([c])[0] == c;
      if text[i] == c { assert Lower(piece) == Lower([c]); }
    }
  }

  lemma {:induction false} ByteRuns(c: byte, rest: Regex, text: ByteString, i: nat, marks: Marks)
    requires i <= |text| && !IsAlpha(c)
    ensures Run(Literal([c], true, rest), text, i, marks) ==
            if i < |text| && text[i] == c then Run(rest, text, i + 1, marks) else None
  {
    ByteLiteral(text, c, i);
    assert |[c]| == 1;
  }

  lemma {:induction false} WordRuns(word: ByteString, next: Regex, text: ByteString, i: nat, marks: Marks)
    requires i <= |text|
    ensures Run(Literal(word, true, next), text, i, marks) ==
            if LiteralAt(text, word, true, i) then Run(next, text, i + |word|, marks) else None
  {
  }

  lemma {:induction false} SpacedStep(c: byte, rest: Regex, text: ByteString, i: nat, marks: Marks)
    requires i <= |text| && !IsAlpha(c) && !IsSpace(c)
    ensures Run(Spaced([c], rest), text, i, marks) ==
            if i < |text| && IsSpace(text[i]) then Run(Spaced([c], rest), text, i + 1, marks)
            else Run(Literal([c], true, rest), text, i, marks)
  {
    ByteRuns(c, rest, text, i, marks);
  }

  lemma {:induction false} SpacedByte(c: byte, rest: Regex, text: ByteString, i: nat, marks: Marks)
    requires i <= |text| && !IsAlpha(c) && !IsSpace(c)
    ensures var k := AfterSpaces(text, i);
            Run(Spaced([c], rest), text, i, marks) ==
            if k < |text| && text[k] == c then Run(rest, text, k + 1, marks) else None
    decreases |text| - i
  {
    SpacedStep(c, rest, text, i, marks);
    if i < |text| && IsSpace(text[i]) {
      SpacedByte(c, rest, text, i + 1, marks);
    } else {
      ByteRuns(c, rest, text, i, marks);
    }
  }

  /** A word of one byte after optional white space. */
  lemma {:induction false} SpacedMeaning(word: ByteString, c: byte, rest: Regex, text: ByteString, i: nat, marks: Marks)
    requires word == [c] && i <= |text| && !IsAlpha(c) && !IsSpace(c)
    ensures var k := AfterSpaces(text, i);
            Run(Spaced(word, rest), text, i, marks) ==
            if k < |text| && text[k] == c then Run(rest, text, k + 1, marks) else None
  {
    SpacedByte(c, rest, text, i, marks);
  }

  lemma {:induction false} ByteAfterRuns(word: ByteString, c: byte, rest: Regex, text: ByteString, i: nat, k: nat,
                                         marks: Marks)
    requires word == [c] && !IsAlpha(c) && !IsSpace(c) && ByteAfter(text, i, c, k)
    ensures k <= |text| && Run(Spaced(word, rest), text, i, marks) == Run(rest, text, k, marks)
  {
    SpacedMeaning(word, c, rest, text, i, marks);
  }

  lemma {:induction false} RunsAfterByte(word: ByteString, c: byte, rest: Regex, text: ByteString, i: nat, marks: Marks)
    returns (k: nat)
    requires word == [c] && !IsAlpha(c) && !IsSpace(c) && i <= |text| && Run(Spaced(word, rest), text, i, marks).Some?
    ensures ByteAfter(text, i, c, k) && k <= |text| && Run(rest, text, k, marks).Some?
  {
    SpacedMeaning(word, c, rest, text, i, marks);
    k := AfterSpaces(text, i) + 1;
  }

  // ---- Text between quotes of one kind ----

  /** A quote stands at `q`, the same quote at `e`, and no line ends between them. */
  predicate QuotedTo(text: ByteString, q: nat, e: nat) {
    q < e < |text| && InClass(text[q], Quotes) && text[e] == text[q] && AllIn(text, NotLineEnd, q + 1, e)
  }

  function GroupMarks(marks: Marks, g: nat, q: nat, e: nat): Marks {
    marks[g := q][g + 1 := q + 1][g + 2 := e]
  }

  /** The group may end at `e`, for the rest of the pattern then runs. */
  predicate GroupFits(g: nat, rest: Regex, text: ByteString, q: nat, e: nat, marks: Marks) {
    QuotedTo(text, q, e) && Run(rest, text, e + 1, GroupMarks(marks, g, q, e)).Some?
  }

  lemma {:induction false} OpeningQuote(g: nat, text: ByteString, q: nat, m: Marks)
    requires q < |text| && g in m && g + 1 in m && m[g] == q && m[g + 1] == q + 1
    ensures Between(text, m, g, g + 1) == [text[q]]
  {
    assert text[m[g]..m[g + 1]] == [text[q]];
  }

  lemma {:induction false} BackRefMeaning(g: nat, rest: Regex, text: ByteString, q: nat, e: nat, n: Marks)
    requires q < |text| && e <= |text| && g in n && g + 1 in n && n[g] == q && n[g + 1] == q + 1
    ensures Run(BackRef(g, g + 1, rest), text, e, n) ==
            if e < |text| && text[e] == text[q] then Run(rest, text, e + 1, n) else None
  {
    OpeningQuote(g, text, q, n);
    ByteOccurs(text, text[q], e);
    var t := Between(text, n, g, g + 1);
    assert t == [text[q]];
    var back := BackRef(g, g + 1, rest);
    if OccursAt(text, t, e) {
      assert |t| == 1;
      assert Run(back, text, e, n) == Run(rest, text, e + |t|, n) == Run(rest, text, e + 1, n);
    } else {
      assert Run(back, text, e, n) == None;
    }
  }

  lemma {:induction false} CloseMeaning(g: nat, rest: Regex, text: ByteString, q: nat, e: nat, m: Marks)
    requires q < e <= |text| && g in m && g + 1 in m && m[g] == q && m[g + 1] == q + 1
    ensures Run(GroupClose(g, rest), text, e, m) ==
            if e < |text| && text[e] == text[q] then Run(rest, text, e + 1, m[g + 2 := e]) else None
  {
    BackRefMeaning(g, rest, text, q, e, m[g + 2 := e]);
    assert Run(GroupClose(g, rest), text, e, m) == Run(BackRef(g, g + 1, rest), text, e, m[g + 2 := e]);
  }

  lemma {:induction false} ByteOccurs(text: ByteString, c: byte, i: nat)
    ensures OccursAt(text, [c], i) <==> i < |text| && text[i] == c
  {
    if i < |text| { assert text[i..i + 1] == [text[i]]; }
  }

  lemma {:induction false} GroupOpens(g: nat, rest: Regex, text: ByteString, q: nat, marks: Marks)
    requires q <= |text|
    ensures Run(QuotedGroup(g, rest), text, q, marks) ==
            if q < |text| && InClass(text[q], Quotes)
            then Run(Star(NotLineEnd, true, GroupClose(g, rest)), text, q + 1, marks[g := q][g + 1 := q + 1]) else None
  {
    var star := Star(NotLineEnd, true, GroupClose(g, rest));
    var marked, m := Mark(g + 1, star), marks[g := q];
    assert Run(QuotedGroup(g, rest), text, q, marks) == Run(One(Quotes, marked), text, q, m);
    if q < |text| && InClass(text[q], Quotes) {
      assert Run(One(Quotes, marked), text, q, m) == Run(marked, text, q + 1, m);
      assert Run(marked, text, q + 1, m) == Run(star, text, q + 1, m[g + 1 := q + 1]);
    } else {
      assert Run(One(Quotes, marked), text, q, m).None?;
    }
  }

  lemma {:induction false} NotYetFits(g: nat, rest: Regex, text: ByteString, q: nat, j: nat, marks: Marks)
    requires q < j < |text| && AllIn(text, NotLineEnd, q + 1, j) && InClass(text[q], Quotes)
    requires !GroupFits(g, rest, text, q, j, marks)
    ensures Run(GroupClose(g, rest), text, j, marks[g := q][g + 1 := q + 1]).None?
  {
    CloseMeaning(g, rest, text, q, j, marks[g := q][g + 1 := q + 1]);
  }

  lemma {:induction false} GroupStops(g: nat, rest: Regex, text: ByteString, q: nat, e: nat, marks: Marks, m: Marks)
    requires m == marks[g := q][g + 1 := q + 1] && GroupFits(g, rest, text, q, e, marks)
    requires forall d: nat :: q < d < e ==> !GroupFits(g, rest, text, q, d, marks)
    ensures Run(Star(NotLineEnd, true, GroupClose(g, rest)), text, q + 1, m)
         == Run(rest, text, e + 1, GroupMarks(marks, g, q, e))
  {
    forall j: nat | q + 1 <= j < e ensures Run(GroupClose(g, rest), text, j, m).None? {
      NotYetFits(g, rest, text, q, j, marks);
    }
    CloseMeaning(g, rest, text, q, e, m);
    LazyStar(NotLineEnd, GroupClose(g, rest), text, q + 1, e, m);
  }

  /** The group ends where it first fits. */
  lemma {:induction false} GroupFirst(g: nat, rest: Regex, text: ByteString, q: nat, e: nat, marks: Marks)
    requires GroupFits(g, rest, text, q, e, marks)
    requires forall d: nat :: q < d < e ==> !GroupFits(g, rest, text, q, d, marks)
    ensures Run(QuotedGroup(g, rest), text, q, marks) == Run(rest, text, e + 1, GroupMarks(marks, g, q, e))
  {
    GroupStops(g, rest, text, q, e, marks, marks[g := q][g + 1 := q + 1]);
    GroupOpens(g, rest, text, q, marks);
  }

  lemma {:induction false} SpacedGroupFirst(g: nat, rest: Regex, text: ByteString, k: nat, e: nat, marks: Marks)
    requires k <= |text| && GroupFits(g, rest, text, AfterSpaces(text, k), e, marks)
    requires forall d: nat :: AfterSpaces(text, k) < d < e ==> !GroupFits(g, rest, text, AfterSpaces(text, k), d, marks)
    ensures Run(SpacedGroup(g, rest), text, k, marks)
         == Run(rest, text, e + 1, GroupMarks(marks, g, AfterSpaces(text, k), e))
  {
    SpacedGroupMeaning(g, rest, text, k, marks);
    GroupFirst(g, rest, text, AfterSpaces(text, k), e, marks);
  }

  /** A group that runs fits somewhere. */
  lemma {:induction false} GroupNeedsFit(g: nat, rest: Regex, text: ByteString, q: nat, marks: Marks) returns (e: nat)
    requires q <= |text| && Run(QuotedGroup(g, rest), text, q, marks).Some?
    ensures GroupFits(g, rest, text, q, e, marks)
  {
    var m := marks[g := q][g + 1 := q + 1];
    GroupOpens(g, rest, text, q, marks);
    e := StarStops(NotLineEnd, true, GroupClose(g, rest), text, q + 1, m);
    CloseMeaning(g, rest, text, q, e, m);
  }

  lemma {:induction false} StarStops(cls: CharClass, lazy: bool, next: Regex, text: ByteString, i: nat, marks: Marks)
    returns (k: nat)
    requires i <= |text| && Run(Star(cls, lazy, next), text, i, marks).Some?
    ensures i <= k <= |text| && AllIn(text, cls, i, k) && Run(next, text, k, marks).Some?
    decreases |text| - i
  {
    if Run(next, text, i, marks).Some? {
      k := i;
    } else {
      k := StarStops(cls, lazy, next, text, i + 1, marks);
    }
  }

  lemma {:induction false} LeastFit(g: nat, rest: Regex, text: ByteString, q: nat, marks: Marks, e: nat)
    returns (f: nat)
    requires GroupFits(g, rest, text, q, e, marks)
    ensures f <= e && GroupFits(g, rest, text, q, f, marks)
    ensures forall d: nat :: q < d < f ==> !GroupFits(g, rest, text, q, d, marks)
  {
    f := e;
    if d: nat :| q < d < e && GroupFits(g, rest, text, q, d, marks) { f := LeastFit(g, rest, text, q, marks, d); }
  }

  lemma {:induction false} SpacedGroupMeaning(g: nat, rest: Regex, text: ByteString, i: nat, marks: Marks)
    requires i <= |text|
    ensures Run(SpacedGroup(g, rest), text, i, marks) == Run(QuotedGroup(g, rest), text, AfterSpaces(text, i), marks)
    decreases |text| - i
  {
    GroupOpens(g, rest, text, i, marks);
    if i < |text| && IsSpace(text[i]) { SpacedGroupMeaning(g, rest, text, i + 1, marks); }
  }

  // ---- Attributes ----

  /** From `k` on white space leads to a quote at `q`, which is first matched at `b`. */
  predicate ShortestFrom(text: ByteString, k: nat, q: nat, b: nat) {
    && k <= |text| && q == AfterSpaces(text, k) && QuotedTo(text, q, b)
    && forall d: nat :: q < d < b ==> !QuotedTo(text, q, d)
  }

  ghost predicate AssignedAt(tag: ByteString, i: nat, q: nat, b: nat) {
    exists k: nat :: ByteAfter(tag, i, '=', k) && ShortestFrom(tag, k, q, b)
  }

  /** `NAME = "..."` stands at `i`: its text is the shortest one between the quote at `q` and
      the next quote of that kind, at `b`. */
  ghost predicate AttributeAt(tag: ByteString, name: ByteString, i: nat, q: nat, b: nat) {
    BoundaryAt(tag, i) && LiteralAt(tag, name, true, i) && AssignedAt(tag, i + |name|, q, b)
  }

  lemma {:induction false} AcceptFits(text: ByteString, q: nat, e: nat, marks: Marks)
    ensures GroupFits(0, Accept, text, q, e, marks) <==> QuotedTo(text, q, e)
  {
    if QuotedTo(text, q, e) {
      var m := GroupMarks(marks, 0, q, e);
      assert Run(Accept, text, e + 1, m) == Some(Found(e + 1, m));
    }
  }

  lemma {:induction false} ShortestRuns(text: ByteString, k: nat, q: nat, b: nat, marks: Marks)
    requires ShortestFrom(text, k, q, b)
    ensures Run(SpacedGroup(0, Accept), text, k, marks) == Some(Found(b + 1, GroupMarks(marks, 0, q, b)))
  {
    AcceptFits(text, q, b, marks);
    forall d: nat | q < d < b ensures !GroupFits(0, Accept, text, q, d, marks) { AcceptFits(text, q, d, marks); }
    SpacedGroupFirst(0, Accept, text, k, b, marks);
    var m := GroupMarks(marks, 0, q, b);
    assert Run(Accept, text, b + 1, m) == Some(Found(b + 1, m));
  }

  lemma {:induction false} ShortestFound(text: ByteString, k: nat, marks: Marks) returns (q: nat, b: nat)
    requires k <= |text| && Run(SpacedGroup(0, Accept), text, k, marks).Some?
    ensures ShortestFrom(text, k, q, b)
  {
    SpacedGroupMeaning(0, Accept, text, k, marks);
    q := AfterSpaces(text, k);
    var e := GroupNeedsFit(0, Accept, text, q, marks);
    b := LeastFit(0, Accept, text, q, marks, e);
    AcceptFits(text, q, b, marks);
    forall d: nat | q < d < b ensures !QuotedTo(text, q, d) { AcceptFits(text, q, d, marks); }
  }

  lemma {:induction false} AssignedRuns(tag: ByteString, i: nat, q: nat, b: nat, marks: Marks)
    requires AssignedAt(tag, i, q, b)
    ensures i <= |tag| && Run(ATTRIBUTE_TAIL, tag, i, marks) == Some(Found(b + 1, GroupMarks(marks, 0, q, b)))
  {
    var k: nat :| ByteAfter(tag, i, '=', k) && ShortestFrom(tag, k, q, b);
    ByteAfterRuns("=", '=', SpacedGroup(0, Accept), tag, i, k, marks);
    ShortestRuns(tag, k, q, b, marks);
  }

  lemma {:induction false} AssignedFound(tag: ByteString, i: nat, marks: Marks) returns (q: nat, b: nat)
    requires i <= |tag| && Run(ATTRIBUTE_TAIL, tag, i, marks).Some?
    ensures AssignedAt(tag, i, q, b)
  {
    var k := RunsAfterByte("=", '=', SpacedGroup(0, Accept), tag, i, marks);
    q, b := ShortestFound(tag, k, marks);
  }

  lemma {:induction false} AttributeStarts(tag: ByteString, name: ByteString, i: nat)
    requires i <= |tag|
    ensures Run(Attribute(name), tag, i, map[]) ==
            if BoundaryAt(tag, i) && LiteralAt(tag, name, true, i)
            then Run(ATTRIBUTE_TAIL, tag, i + |name|, map[]) else None
  {
    var word := Literal(name, true, ATTRIBUTE_TAIL);
    assert Run(Attribute(name), tag, i, map[]) == if BoundaryAt(tag, i) then Run(word, tag, i, map[]) else None;
  }

  ghost predicate SomeAttributeAt(tag: ByteString, name: ByteString, i: nat) {
    exists q: nat, b: nat :: AttributeAt(tag, name, i, q, b)
  }

  lemma {:induction false} AttributeRuns(tag: ByteString, name: ByteString, i: nat, q: nat, b: nat)
    requires AttributeAt(tag, name, i, q, b)
    ensures i <= |tag| && Run(Attribute(name), tag, i, map[]) == Some(Found(b + 1, GroupMarks(map[], 0, q, b)))
  {
    AssignedRuns(tag, i + |name|, q, b, map[]);
    AttributeStarts(tag, name, i);
  }

  lemma {:induction false} AttributePatternMeaning(tag: ByteString, name: ByteString, i: nat)
    requires i <= |tag|
    ensures Run(Attribute(name), tag, i, map[]).Some? <==> SomeAttributeAt(tag, name, i)
  {
    if Run(Attribute(name), tag, i, map[]).Some? {
      AttributeStarts(tag, name, i);
      var q, b := AssignedFound(tag, i + |name|, map[]);
      assert AttributeAt(tag, name, i, q, b);
    }
    if SomeAttributeAt(tag, name, i) {
      var q: nat, b: nat :| AttributeAt(tag, name, i, q, b);
      AttributeRuns(tag, name, i, q, b);
    }
  }

  /** The first attribute of that name. */
  ghost predicate FirstAttributeAt(tag: ByteString, name: ByteString, i: nat, q: nat, b: nat) {
    AttributeAt(tag, name, i, q, b) && forall j: nat :: j < i ==> !SomeAttributeAt(tag, name, j)
  }

  /** `v` is the text of the first attribute of that name. */
  ghost predicate AttributeText(tag: ByteString, name: ByteString, v: ByteString) {
    exists i: nat, q: nat, b: nat :: FirstAttributeAt(tag, name, i, q, b) && q < b <= |tag| && v == tag[q + 1..b]
  }

  ghost predicate NoAttribute(tag: ByteString, name: ByteString) {
    forall i: nat :: !SomeAttributeAt(tag, name, i)
  }

  lemma {:induction false} FirstAttributeFound(tag: ByteString, name: ByteString, i: nat, q: nat, b: nat)
    requires FirstAttributeAt(tag, name, i, q, b)
    ensures q < b <= |tag| && AttributeValue(tag, name) == tag[q + 1..b]
  {
    AttributeRuns(tag, name, i, q, b);
    forall j: nat | j < i ensures Run(Attribute(name), tag, j, map[]).None? { AttributePatternMeaning(tag, name, j); }
    SearchAt(Attribute(name), tag, 0, i);
  }

  lemma {:induction false} NowhereRuns(tag: ByteString, name: ByteString)
    requires Quiet(Attribute(name), tag, 0, |tag| + 1)
    ensures NoAttribute(tag, name)
  {
    forall i: nat ensures !SomeAttributeAt(tag, name, i) {
      if i <= |tag| { AttributePatternMeaning(tag, name, i); }
    }
  }

  lemma {:induction false} FoundIsFirst(tag: ByteString, name: ByteString, i: nat)
    requires i <= |tag| && Run(Attribute(name), tag, i, map[]).Some? && Quiet(Attribute(name), tag, 0, i)
    ensures AttributeText(tag, name, AttributeValue(tag, name))
  {
    AttributePatternMeaning(tag, name, i);
    forall j: nat | j < i ensures !SomeAttributeAt(tag, name, j) { AttributePatternMeaning(tag, name, j); }
    var q: nat, b: nat :| AttributeAt(tag, name, i, q, b);
    assert FirstAttributeAt(tag, name, i, q, b);
    FirstAttributeFound(tag, name, i, q, b);
  }

  lemma {:induction false} ValueIsText(tag: ByteString, name: ByteString)
    ensures var v := AttributeValue(tag, name); AttributeText(tag, name, v) || (v == [] && NoAttribute(tag, name))
  {
    SearchFirst(Attribute(name), tag, 0);
    match Search(Attribute(name), tag, 0)
    case Some(m) => FoundIsFirst(tag, name, m.start);
    case None => NowhereRuns(tag, name);
  }

  lemma {:induction false} TextIsValue(tag: ByteString, name: ByteString, v: ByteString)
    requires AttributeText(tag, name, v)
    ensures AttributeValue(tag, name) == v && !NoAttribute(tag, name)
  {
    var i: nat, q: nat, b: nat :| FirstAttributeAt(tag, name, i, q, b) && q < b <= |tag| && v == tag[q + 1..b];
    FirstAttributeFound(tag, name, i, q, b);
    assert SomeAttributeAt(tag, name, i);
  }

  /** extractAttribute gives the text of the first attribute of that name, and nothing if there
      is none. */
  lemma {:induction false} AttributeMeaning(tag: ByteString, name: ByteString, v: ByteString)
    ensures AttributeValue(tag, name) == v <==> AttributeText(tag, name, v) || (v == [] && NoAttribute(tag, name))
  {
    ValueIsText(tag, name);
    if AttributeText(tag, name, v) { TextIsValue(tag, name, v); }
    if AttributeText(tag, name, AttributeValue(tag, name)) { TextIsValue(tag, name, AttributeValue(tag, name)); }
  }

  // ---- Input tags ----

  /** An input tag stands at i..e: the word, a word boundary, and the text up to the first `>`. */
  predicate TagAt(text: ByteString, i: nat, e: nat) {
    && LiteralAt(text, "<input", true, i) && BoundaryAt(text, i + 6)
    && i + 7 <= e <= |text| && text[e - 1] == '>' && AllIn(text, NotGreater, i + 6, e - 1)
  }

  ghost predicate SomeTagAt(text: ByteString, i: nat) {
    exists e: nat :: TagAt(text, i, e)
  }

  lemma {:induction false} TagOpens(text: ByteString, i: nat)
    requires i <= |text|
    ensures Run(INPUT_TAG, text, i, map[]) ==
            if LiteralAt(text, "<input", true, i) && BoundaryAt(text, i + 6)
            then Run(INPUT_REST, text, i + 6, map[]) else None
  {
    BoundedWord("<input", INPUT_REST, text, i);
  }

  lemma {:induction false} BoundedWord(word: ByteString, rest: Regex, text: ByteString, i: nat)
    requires i <= |text|
    ensures Run(Literal(word, true, Boundary(rest)), text, i, map[]) ==
            if LiteralAt(text, word, true, i) && BoundaryAt(text, i + |word|)
            then Run(rest, text, i + |word|, map[]) else None
  {
    if LiteralAt(text, word, true, i) {
      assert Run(Literal(word, true, Boundary(rest)), text, i, map[]) == Run(Boundary(rest), text, i + |word|, map[]);
    }
  }

  lemma {:induction false} CloseBracket(text: ByteString, k: nat)
    requires k <= |text|
    ensures Run(Literal(">", true, Accept), text, k, map[]) ==
            if k < |text| && text[k] == '>' then Some(Found(k + 1, map[])) else None
  {
    ByteLiteral(text, '>', k);
    if k < |text| { assert Run(Accept, text, k + 1, map[]) == Some(Found(k + 1, map[])); }
  }

  lemma {:induction false} TagRuns(text: ByteString, i: nat, e: nat)
    requires TagAt(text, i, e)
    ensures Run(INPUT_TAG, text, i, map[]) == Some(Found(e, map[]))
  {
    CloseBracket(text, e - 1);
    GreedyStar(NotGreater, Literal(">", true, Accept), text, i + 6, e - 1, map[]);
    TagOpens(text, i);
  }

  /** The tag pattern matches exactly where an input tag stands, and takes it whole. */
  lemma {:induction false} TagMeaning(text: ByteString, i: nat)
    requires i <= |text|
    ensures Run(INPUT_TAG, text, i, map[]).Some? <==> SomeTagAt(text, i)
    ensures forall e: nat :: TagAt(text, i, e) ==> Run(INPUT_TAG, text, i, map[]) == Some(Found(e, map[]))
  {
    if Run(INPUT_TAG, text, i, map[]).Some? {
      TagOpens(text, i);
      var k := StarStops(NotGreater, false, Literal(">", true, Accept), text, i + 6, map[]);
      CloseBracket(text, k);
      assert TagAt(text, i, k + 1);
    }
    forall e: nat | TagAt(text, i, e) ensures Run(INPUT_TAG, text, i, map[]) == Some(Found(e, map[])) {
      TagRuns(text, i, e);
    }
  }

  // ---- Calls ----

  /** White space and a closing parenthesis follow. */
  predicate ClosesAt(text: ByteString, k: nat) {
    k <= |text| && AfterSpaces(text, k) < |text| && text[AfterSpaces(text, k)] == ')'
  }

  function CloseEnd(text: ByteString, k: nat): (end: nat)
    requires ClosesAt(text, k)
    ensures k < end <= |text|
  {
    AfterSpaces(text, k) + 1
  }

  /** A second argument may run from the quote at `q` to the one at `e`. */
  predicate ValueTo(text: ByteString, q: nat, e: nat) {
    QuotedTo(text, q, e) && ClosesAt(text, e + 1)
  }

  predicate ShortestValue(text: ByteString, k: nat, q: nat, e: nat) {
    && k <= |text| && q == AfterSpaces(text, k) && ValueTo(text, q, e)
    && forall d: nat :: q < d < e ==> !ValueTo(text, q, d)
  }

  /** A comma and the second argument follow, the shortest that leads to the end of the call. */
  ghost predicate SecondAt(text: ByteString, i: nat, q: nat, e: nat) {
    exists k: nat :: ByteAfter(text, i, ',', k) && ShortestValue(text, k, q, e)
  }

  ghost predicate SomeSecondAt(text: ByteString, i: nat) {
    exists q: nat, e: nat :: SecondAt(text, i, q, e)
  }

  /** A first argument may run from the quote at `p` to the one at `b`. */
  ghost predicate NameTo(text: ByteString, p: nat, b: nat) {
    QuotedTo(text, p, b) && SomeSecondAt(text, b + 1)
  }

  ghost predicate ShortestName(text: ByteString, k: nat, p: nat, b: nat) {
    && k <= |text| && p == AfterSpaces(text, k) && NameTo(text, p, b)
    && forall d: nat :: p < d < b ==> !NameTo(text, p, d)
  }

  /** A parenthesis and the first argument follow, the shortest that leads to a second one. */
  ghost predicate FirstArgumentAt(text: ByteString, i: nat, p: nat, b: nat) {
    exists k: nat :: ByteAfter(text, i, '(', k) && ShortestName(text, k, p, b)
  }

  /** A call stands at `i`; its arguments are quoted from `p` to `b` and from `q` to `e`. */
  ghost predicate CallAt(text: ByteString, i: nat, p: nat, b: nat, q: nat, e: nat) {
    && LiteralAt(text, "createHiddenInput", true, i)
    && FirstArgumentAt(text, i + 17, p, b) && SecondAt(text, b + 1, q, e)
  }

  ghost predicate SomeCallAt(text: ByteString, i: nat) {
    exists p: nat, b: nat, q: nat, e: nat :: CallAt(text, i, p, b, q, e)
  }

  const CALL_CLOSE: Regex := Spaced(")", Accept)

  lemma {:induction false} CloseRuns(text: ByteString, k: nat, marks: Marks)
    requires k <= |text|
    ensures Run(CALL_CLOSE, text, k, marks) == if ClosesAt(text, k) then Some(Found(CloseEnd(text, k), marks)) else None
  {
    SpacedMeaning(")", ')', Accept, text, k, marks);
    if ClosesAt(text, k) {
      assert Run(Accept, text, CloseEnd(text, k), marks) == Some(Found(CloseEnd(text, k), marks));
    }
  }

  lemma {:induction false} ValueFits(text: ByteString, q: nat, e: nat, marks: Marks)
    ensures GroupFits(3, CALL_CLOSE, text, q, e, marks) <==> ValueTo(text, q, e)
  {
    if QuotedTo(text, q, e) { CloseRuns(text, e + 1, GroupMarks(marks, 3, q, e)); }
  }

  lemma {:induction false} ValueRuns(text: ByteString, k: nat, q: nat, e: nat, marks: Marks)
    requires ShortestValue(text, k, q, e)
    ensures Run(SpacedGroup(3, CALL_CLOSE), text, k, marks)
         == Some(Found(CloseEnd(text, e + 1), GroupMarks(marks, 3, q, e)))
  {
    ValueFits(text, q, e, marks);
    forall d: nat | q < d < e ensures !GroupFits(3, CALL_CLOSE, text, q, d, marks) { ValueFits(text, q, d, marks); }
    SpacedGroupFirst(3, CALL_CLOSE, text, k, e, marks);
    CloseRuns(text, e + 1, GroupMarks(marks, 3, q, e));
  }

  const CALL_TAIL: Regex := CallTail(",", ")")

  lemma {:induction false} SecondRuns(text: ByteString, i: nat, q: nat, e: nat, marks: Marks)
    requires SecondAt(text, i, q, e)
    ensures i <= |text| && ValueTo(text, q, e)
    ensures Run(CALL_TAIL, text, i, marks) == Some(Found(CloseEnd(text, e + 1), GroupMarks(marks, 3, q, e)))
  {
    var k: nat :| ByteAfter(text, i, ',', k) && ShortestValue(text, k, q, e);
    ByteAfterRuns(",", ',', SpacedGroup(3, CALL_CLOSE), text, i, k, marks);
    ValueRuns(text, k, q, e, marks);
  }

  lemma {:induction false} ValueFound(text: ByteString, k: nat, marks: Marks) returns (q: nat, e: nat)
    requires k <= |text| && Run(SpacedGroup(3, CALL_CLOSE), text, k, marks).Some?
    ensures ShortestValue(text, k, q, e)
  {
    SpacedGroupMeaning(3, CALL_CLOSE, text, k, marks);
    q := AfterSpaces(text, k);
    var f := GroupNeedsFit(3, CALL_CLOSE, text, q, marks);
    e := LeastFit(3, CALL_CLOSE, text, q, marks, f);
    ValueFits(text, q, e, marks);
    forall d: nat | q < d < e ensures !ValueTo(text, q, d) { ValueFits(text, q, d, marks); }
  }

  lemma {:induction false} SecondFound(text: ByteString, i: nat, marks: Marks)
    requires i <= |text| && Run(CALL_TAIL, text, i, marks).Some?
    ensures SomeSecondAt(text, i)
  {
    var k := RunsAfterByte(",", ',', SpacedGroup(3, CALL_CLOSE), text, i, marks);
    var q, e := ValueFound(text, k, marks);
    assert SecondAt(text, i, q, e);
  }

  lemma {:induction false} TailMeaning(text: ByteString, i: nat, marks: Marks)
    requires i <= |text|
    ensures Run(CALL_TAIL, text, i, marks).Some? <==> SomeSecondAt(text, i)
  {
    if Run(CALL_TAIL, text, i, marks).Some? { SecondFound(text, i, marks); }
    if q: nat, e: nat :| SecondAt(text, i, q, e) { SecondRuns(text, i, q, e, marks); }
  }

  lemma {:induction false} NameFits(text: ByteString, p: nat, b: nat, marks: Marks)
    ensures GroupFits(0, CALL_TAIL, text, p, b, marks) <==> NameTo(text, p, b)
  {
    if QuotedTo(text, p, b) { TailMeaning(text, b + 1, GroupMarks(marks, 0, p, b)); }
  }

  const CALL_REST: Regex := Spaced("(", SpacedGroup(0, CALL_TAIL))

  lemma {:induction false} NameRuns(text: ByteString, k: nat, p: nat, b: nat)
    requires ShortestName(text, k, p, b)
    ensures Run(SpacedGroup(0, CALL_TAIL), text, k, map[]) == Run(CALL_TAIL, text, b + 1, GroupMarks(map[], 0, p, b))
  {
    NameFits(text, p, b, map[]);
    forall d: nat | p < d < b ensures !GroupFits(0, CALL_TAIL, text, p, d, map[]) { NameFits(text, p, d, map[]); }
    SpacedGroupFirst(0, CALL_TAIL, text, k, b, map[]);
  }

  lemma {:induction false} FirstRuns(text: ByteString, i: nat, p: nat, b: nat)
    requires FirstArgumentAt(text, i, p, b)
    ensures i <= |text| && NameTo(text, p, b)
    ensures Run(CALL_REST, text, i, map[]) == Run(CALL_TAIL, text, b + 1, GroupMarks(map[], 0, p, b))
  {
    var k: nat :| ByteAfter(text, i, '(', k) && ShortestName(text, k, p, b);
    ByteAfterRuns("(", '(', SpacedGroup(0, CALL_TAIL), text, i, k, map[]);
    NameRuns(text, k, p, b);
  }

  lemma {:induction false} NameFound(text: ByteString, k: nat) returns (p: nat, b: nat)
    requires k <= |text| && Run(SpacedGroup(0, CALL_TAIL), text, k, map[]).Some?
    ensures ShortestName(text, k, p, b)
  {
    SpacedGroupMeaning(0, CALL_TAIL, text, k, map[]);
    p := AfterSpaces(text, k);
    var f := GroupNeedsFit(0, CALL_TAIL, text, p, map[]);
    b := LeastFit(0, CALL_TAIL, text, p, map[], f);
    NameFits(text, p, b, map[]);
    forall d: nat | p < d < b ensures !NameTo(text, p, d) { NameFits(text, p, d, map[]); }
  }

  lemma {:induction false} FirstFound(text: ByteString, i: nat) returns (p: nat, b: nat)
    requires i <= |text| && Run(CALL_REST, text, i, map[]).Some?
    ensures FirstArgumentAt(text, i, p, b) && SomeSecondAt(text, b + 1)
  {
    var k := RunsAfterByte("(", '(', SpacedGroup(0, CALL_TAIL), text, i, map[]);
    p, b := NameFound(text, k);
  }

  lemma {:induction false} CallOpens(text: ByteString, i: nat)
    requires i <= |text|
    ensures Run(HIDDEN_INPUT, text, i, map[]) ==
            if LiteralAt(text, CALL_WORD, true, i) then Run(CALL_REST, text, i + 17, map[]) else None
  {
    WordRuns(CALL_WORD, CALL_REST, text, i, map[]);
  }

  lemma {:induction false} ArgumentsQuoted(text: ByteString, i: nat, p: nat, b: nat, q: nat, e: nat)
    requires FirstArgumentAt(text, i, p, b) && SecondAt(text, b + 1, q, e)
    ensures QuotedTo(text, p, b) && ValueTo(text, q, e)
  {
  }

  lemma {:induction false} ArgumentsRun(text: ByteString, i: nat, p: nat, b: nat, q: nat, e: nat)
    requires FirstArgumentAt(text, i, p, b) && SecondAt(text, b + 1, q, e)
    ensures ClosesAt(text, e + 1) && i <= |text|
    ensures Run(CALL_REST, text, i, map[])
         == Some(Found(CloseEnd(text, e + 1), GroupMarks(GroupMarks(map[], 0, p, b), 3, q, e)))
  {
    FirstRuns(text, i, p, b);
    SecondRuns(text, b + 1, q, e, GroupMarks(map[], 0, p, b));
  }

  lemma {:induction false} CallRuns(text: ByteString, i: nat, p: nat, b: nat, q: nat, e: nat)
    requires CallAt(text, i, p, b, q, e)
    ensures i <= |text| && QuotedTo(text, p, b) && ValueTo(text, q, e)
    ensures Run(HIDDEN_INPUT, text, i, map[])
         == Some(Found(CloseEnd(text, e + 1), GroupMarks(GroupMarks(map[], 0, p, b), 3, q, e)))
  {
    ArgumentsQuoted(text, i + 17, p, b, q, e);
    ArgumentsRun(text, i + 17, p, b, q, e);
    CallOpens(text, i);
  }

  lemma {:induction false} ArgumentsBetween(text: ByteString, p: nat, b: nat, q: nat, e: nat)
    requires p < b <= |text| && q < e <= |text|
    ensures var m := GroupMarks(GroupMarks(map[], 0, p, b), 3, q, e);
            Between(text, m, 1, 2) == text[p + 1..b] && Between(text, m, 4, 5) == text[q + 1..e]
  {
  }

  /** The call pattern matches at `i` up to `end`, and gives the field. */
  predicate GivesField(text: ByteString, i: nat, end: nat, f: Field) {
    && i <= |text| && Run(HIDDEN_INPUT, text, i, map[]).Some?
    && var m := MatchAt(HIDDEN_INPUT, text, i); m.end == end && HiddenField(text, m) == f
  }

  /** It takes the call up to its parenthesis, and the field is of the two arguments. */
  predicate ReadWhole(text: ByteString, i: nat, p: nat, b: nat, q: nat, e: nat) {
    && p < b < |text| && q < e < |text| && ClosesAt(text, e + 1)
    && GivesField(text, i, CloseEnd(text, e + 1), Field(text[p + 1..b], text[q + 1..e]))
  }

  /** A call is taken whole, and its groups are the two arguments. */
  lemma {:induction false} CallIsRead(text: ByteString, i: nat, p: nat, b: nat, q: nat, e: nat)
    requires CallAt(text, i, p, b, q, e)
    ensures ReadWhole(text, i, p, b, q, e)
  {
    CallRuns(text, i, p, b, q, e);
    ArgumentsBetween(text, p, b, q, e);
  }

  /** The call pattern matches exactly where a call stands. */
  lemma {:induction false} CallMeaning(text: ByteString, i: nat)
    requires i <= |text|
    ensures Run(HIDDEN_INPUT, text, i, map[]).Some? <==> SomeCallAt(text, i)
  {
    if Run(HIDDEN_INPUT, text, i, map[]).Some? {
      CallOpens(text, i);
      var p, b := FirstFound(text, i + 17);
      var q: nat, e: nat :| SecondAt(text, b + 1, q, e);
      assert CallAt(text, i, p, b, q, e);
    }
    if SomeCallAt(text, i) {
      var p: nat, b: nat, q: nat, e: nat :| CallAt(text, i, p, b, q, e);
      CallRuns(text, i, p, b, q, e);
    }
  }
}
