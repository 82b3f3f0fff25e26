/** Rendering form fields as a page of input tags, and reading the page back. */
module FormPage {
  import opened Bytes
  import opened Regex
  import opened Pages
  import opened UrlForm
  import opened FormPatterns
  import opened FormMeaning

  function Tag(f: Field): ByteString {
    "<input name=\"" + (f.name + ("\" value=\"" + (f.value + "\">")))
  }

  /** A field as a tag, and the text between it and the next one. */
  datatype Item = Item(field: Field, after: ByteString)

  function Tags(items: seq<Item>): seq<Piece> {
    seq(|items|, i requires 0 <= i < |items| => Piece(Tag(items[i].field), items[i].after))
  }

  function FieldsOf(items: seq<Item>): seq<Field> {
    seq(|items|, i requires 0 <= i < |items| => items[i].field)
  }

  /** A field that fits in a tag. */
  ghost predicate Renderable(f: Field) {
    && f.name != [] && (forall c :: c in f.name ==> IsWord(c))
    && forall c :: c in f.value ==> ValueByte(c)
  }

  predicate ValueByte(c: byte) {
    c != '\"' && c != '>' && c != '\n' && c != '\r'
  }

  ghost predicate AllRenderable(items: seq<Item>) {
    forall it :: it in items ==> Renderable(it.field)
  }

  /** The page is these tags with any text around them in which no further input tag stands. */
  ghost predicate IsInputPage(page: ByteString, lead: ByteString, items: seq<Item>) {
    && page == lead + Join(Tags(items)) && AllRenderable(items)
    && forall j: nat :: InGap(lead, Tags(items), j) ==> !SomeTagAt(page, j)
  }

  /** Where the parts of a rendered tag lie. */
  ghost predicate TagLayout(tag: ByteString, f: Field, n: nat, v: nat) {
    && n == 13 + |f.name| && v == n + 9 + |f.value| && |tag| == v + 2
    && OccursAt(tag, "<input name=\"", 0) && OccursAt(tag, f.name, 13)
    && OccursAt(tag, "\" value=\"", n) && OccursAt(tag, f.value, n + 9) && OccursAt(tag, "\">", v)
  }

  lemma {:induction false} TagHasLayout(f: Field)
    ensures TagLayout(Tag(f), f, 13 + |f.name|, 22 + |f.name| + |f.value|)
  {
    var tag := Tag(f);
    assert OccursAt(tag, tag, 0);
    FivePieces(tag, 0, "<input name=\"", f.name, "\" value=\"", f.value, "\">");
  }

  lemma {:induction false} PieceByte(text: ByteString, s: ByteString, i: nat)
    requires OccursAt(text, s, i)
    ensures forall k :: 0 <= k < |s| ==> text[i + k] == s[k]
    ensures forall j :: i <= j < i + |s| ==> text[j] in s
  {
    forall k | 0 <= k < |s| ensures text[i + k] == s[k] { assert text[i..i + |s|][k] == text[i + k]; }
    forall j | i <= j < i + |s| ensures text[j] in s { assert text[i..i + |s|][j - i] == text[j]; }
  }

  lemma {:induction false} HeadBytes(text: ByteString, i: nat)
    requires OccursAt(text, "<input name=\"", i)
    ensures text[i] == '<' && text[i + 1] == 'i' && text[i + 2] == 'n' && text[i + 3] == 'p' && text[i + 4] == 'u'
    ensures text[i + 5] == 't' && text[i + 6] == ' ' && text[i + 7] == 'n' && text[i + 8] == 'a' && text[i + 9] == 'm'
    ensures text[i + 10] == 'e' && text[i + 11] == '=' && text[i + 12] == '\"'
  {
    var s: ByteString := "<input name=\"";
    assert text[i..i + 13] == s;
    forall k | 0 <= k < 13 ensures text[i + k] == s[k] { assert text[i..i + 13][k] == text[i + k]; }
    assert s[0] == '<' && s[1] == 'i' && s[2] == 'n' && s[3] == 'p' && s[4] == 'u' && s[5] == 't' && s[6] == ' ';
    assert text[i + 1] == s[1] && text[i + 2] == s[2] && text[i + 3] == s[3] && text[i + 4] == s[4];
    assert text[i + 5] == s[5] && text[i + 6] == s[6] && text[i + 7] == s[7] && text[i + 8] == s[8];
    assert text[i + 9] == s[9] && text[i + 10] == s[10] && text[i + 11] == s[11] && text[i + 12] == s[12];
  }

  lemma {:induction false} MiddleBytes(text: ByteString, i: nat)
    requires OccursAt(text, "\" value=\"", i)
    ensures text[i] == '\"' && text[i + 1] == ' ' && text[i + 2] == 'v' && text[i + 3] == 'a' && text[i + 4] == 'l'
    ensures text[i + 5] == 'u' && text[i + 6] == 'e' && text[i + 7] == '=' && text[i + 8] == '\"'
  {
    var s: ByteString := "\" value=\"";
    assert text[i..i + 9] == s;
    forall k | 0 <= k < 9 ensures text[i + k] == s[k] { assert text[i..i + 9][k] == text[i + k]; }
    assert text[i + 1] == s[1] && text[i + 2] == s[2] && text[i + 3] == s[3] && text[i + 4] == s[4];
    assert text[i + 5] == s[5] && text[i + 6] == s[6] && text[i + 7] == s[7] && text[i + 8] == s[8];
  }

  lemma {:induction false} EndBytes(text: ByteString, i: nat)
    requires OccursAt(text, "\">", i)
    ensures text[i] == '\"' && text[i + 1] == '>'
  {
    var s: ByteString := "\">";
    assert text[i..i + 2][0] == text[i] && text[i..i + 2][1] == text[i + 1] && s[1] == '>';
  }

  // ---- One tag ----

  lemma {:induction false} NoSpacesAt(text: ByteString, i: nat)
    requires i < |text| && !IsSpace(text[i])
    ensures AfterSpaces(text, i) == i
  {
  }

  /** `NAME="..."` with a value free of quotes and line ends is an attribute. */
  lemma {:induction false} PlainAttribute(tag: ByteString, name: ByteString, i: nat, e: nat)
    requires OccursAt(tag, name, i) && BoundaryAt(tag, i)
    requires i + |name| + 1 < e < |tag| && tag[i + |name|] == '=' && tag[i + |name| + 1] == '\"' && tag[e] == '\"'
    requires forall j :: i + |name| + 1 < j < e ==> ValueByte(tag[j])
    ensures AttributeAt(tag, name, i, i + |name| + 1, e)
  {
    var k := i + |name|;
    NoSpacesAt(tag, k);
    NoSpacesAt(tag, k + 1);
    assert ByteAfter(tag, k, '=', k + 1) && ShortestFrom(tag, k + 1, k + 1, e);
  }

  lemma {:induction false} FirstPlainAttribute(tag: ByteString, name: ByteString, i: nat, e: nat)
    requires OccursAt(tag, name, i) && BoundaryAt(tag, i)
    requires i + |name| + 1 < e < |tag| && tag[i + |name|] == '=' && tag[i + |name| + 1] == '\"' && tag[e] == '\"'
    requires forall j :: i + |name| + 1 < j < e ==> ValueByte(tag[j])
    requires forall j: nat :: j < i ==> !SomeAttributeAt(tag, name, j)
    ensures AttributeValue(tag, name) == tag[i + |name| + 2..e]
  {
    PlainAttribute(tag, name, i, e);
    FirstAttributeFound(tag, name, i, i + |name| + 1, e);
  }

  /** Without the word there is no attribute. */
  lemma {:induction false} NoWordAt(tag: ByteString, name: ByteString, j: nat, k: nat)
    requires k < |name| && (j + k >= |tag| || ToLower(tag[j + k]) != ToLower(name[k]))
    ensures !SomeAttributeAt(tag, name, j)
  {
    LiteralMismatch(tag, name, true, j, k);
  }

  /** Nor is there one without an equals sign after the word. */
  lemma {:induction false} NoEqualsAt(tag: ByteString, name: ByteString, j: nat)
    requires j + |name| < |tag| && !IsSpace(tag[j + |name|]) && tag[j + |name|] != '='
    ensures !SomeAttributeAt(tag, name, j)
  {
    NoSpacesAt(tag, j + |name|);
  }

  lemma {:induction false} NameStarts(tag: ByteString)
    requires OccursAt(tag, "<input name=\"", 0)
    ensures OccursAt(tag, "name", 7) && BoundaryAt(tag, 7) && tag[11] == '=' && tag[12] == '\"'
  {
    HeadBytes(tag, 0);
    assert tag[7..11] == "name";
  }

  /** The attribute name does not start within `<input `. */
  lemma {:induction false} NotName(tag: ByteString, j: nat)
    requires OccursAt(tag, "<input name=\"", 0) && j < 7
    ensures !SomeAttributeAt(tag, "name", j)
  {
    HeadBytes(tag, 0);
    NoWordAt(tag, "name", j, if j == 2 then 1 else 0);
  }

  lemma {:induction false} NameFound(tag: ByteString, f: Field, n: nat, v: nat)
    requires Renderable(f) && TagLayout(tag, f, n, v)
    ensures AttributeValue(tag, "name") == f.name
  {
    NameStarts(tag);
    MiddleBytes(tag, n);
    PieceByte(tag, f.name, 13);
    forall j: nat | j < 7 ensures !SomeAttributeAt(tag, "name", j) { NotName(tag, j); }
    FirstPlainAttribute(tag, "name", 7, n);
  }

  lemma {:induction false} ValueStarts(tag: ByteString, n: nat)
    requires OccursAt(tag, "\" value=\"", n)
    ensures OccursAt(tag, "value", n + 2) && BoundaryAt(tag, n + 2) && tag[n + 7] == '=' && tag[n + 8] == '\"'
  {
    MiddleBytes(tag, n);
    assert tag[n + 2..n + 7] == "value";
  }

  lemma {:induction false} NotValueInHead(tag: ByteString, j: nat)
    requires OccursAt(tag, "<input name=\"", 0) && j < 13
    ensures !SomeAttributeAt(tag, "value", j)
  {
    HeadBytes(tag, 0);
    NoWordAt(tag, "value", j, 0);
  }

  lemma {:induction false} NotValueBetween(tag: ByteString, n: nat, j: nat)
    requires OccursAt(tag, "\" value=\"", n) && n <= j < n + 2
    ensures !SomeAttributeAt(tag, "value", j)
  {
    MiddleBytes(tag, n);
    NoWordAt(tag, "value", j, 0);
  }

  /** A name that contains the word "value" is followed by more name or by its quote. */
  lemma {:induction false} NotValueInName(tag: ByteString, f: Field, n: nat, v: nat, j: nat)
    requires Renderable(f) && TagLayout(tag, f, n, v) && 13 <= j < n
    ensures !SomeAttributeAt(tag, "value", j)
  {
    MiddleBytes(tag, n);
    PieceByte(tag, f.name, 13);
    if j + 5 > n {
      NoWordAt(tag, "value", j, n - j);
    } else {
      assert j + 5 < n ==> IsWord(tag[j + 5]);
      NoEqualsAt(tag, "value", j);
    }
  }

  lemma {:induction false} ValueFound(tag: ByteString, f: Field, n: nat, v: nat)
    requires Renderable(f) && TagLayout(tag, f, n, v)
    ensures AttributeValue(tag, "value") == f.value
  {
    ValueStarts(tag, n);
    EndBytes(tag, v);
    PieceByte(tag, f.value, n + 9);
    forall j: nat | j < n + 2 ensures !SomeAttributeAt(tag, "value", j) {
      if j < 13 { NotValueInHead(tag, j); }
      else if j < n { NotValueInName(tag, f, n, v, j); }
      else { NotValueBetween(tag, n, j); }
    }
    FirstPlainAttribute(tag, "value", n + 2, v);
  }

  // ---- Tags on a page ----

  /** A tag starts like one and has its only closing bracket at its end. */
  ghost predicate TagShaped(t: ByteString) {
    && |t| > 7 && t[..6] == "<input" && t[6] == ' ' && t[|t| - 1] == '>'
    && forall j :: 0 < j < |t| - 1 ==> t[j] != '>'
  }

  predicate PlainByte(c: byte) { c != '<' && c != '>' && c != '(' }

  /** Inside a tag, brackets and parentheses can only stand in the value. */
  lemma {:induction false} TagByte(t: ByteString, f: Field, n: nat, v: nat, j: nat)
    requires Renderable(f) && TagLayout(t, f, n, v) && 0 < j < |t| - 1
    ensures t[j] in f.value || PlainByte(t[j])
  {
    if j < 13 { HeadBytes(t, 0); }
    else if j < n { PieceByte(t, f.name, 13); assert IsWord(t[j]); }
    else if j < n + 9 { MiddleBytes(t, n); }
    else if j < v { PieceByte(t, f.value, n + 9); }
    else { EndBytes(t, v); }
  }

  lemma {:induction false} LayoutShaped(t: ByteString, f: Field, n: nat, v: nat)
    requires Renderable(f) && TagLayout(t, f, n, v)
    ensures TagShaped(t)
  {
    assert |t| > 7 && t[..6] == "<input" && t[6] == ' ' by { HeadBytes(t, 0); }
    assert t[|t| - 1] == '>' by { EndBytes(t, v); }
    forall j | 0 < j < |t| - 1 ensures t[j] != '>' {
      TagByte(t, f, n, v, j);
      assert t[j] in f.value ==> ValueByte(t[j]);
    }
  }

  lemma {:induction false} TagFacts(f: Field)
    requires Renderable(f)
    ensures TagShaped(Tag(f)) && TagFields(Tag(f)) == [f]
  {
    var t, n, v := Tag(f), 13 + |f.name|, 22 + |f.name| + |f.value|;
    TagHasLayout(f);
    LayoutShaped(t, f, n, v);
    NameFound(t, f, n, v);
    ValueFound(t, f, n, v);
  }

  lemma {:induction false} ShapedStands(text: ByteString, i: nat, t: ByteString)
    requires TagShaped(t) && OccursAt(text, t, i)
    ensures TagAt(text, i, i + |t|)
  {
    PieceByte(text, t, i);
    assert text[i..i + 6] == t[..6];
    var s: ByteString := "<input";
    assert text[i + 5] == t[5] == t[..6][5] == s[5] == 't';
    assert BoundaryAt(text, i + 6);
    forall j | i + 6 <= j < i + |t| - 1 ensures InClass(text[j], NotGreater) { assert text[j] == t[j - i]; }
  }

  lemma {:induction false} TagIsRead(t: ByteString)
    requires TagShaped(t)
    ensures ReadsPiece(INPUT_TAG, t)
  {
    forall text, i: nat | OccursAt(text, t, i) ensures EndsOf(INPUT_TAG, text)(i) == Some(i + |t|) {
      ShapedStands(text, i, t);
      TagRuns(text, i, i + |t|);
    }
  }

  lemma {:induction false} GapIsSkipped(page: ByteString, j: nat)
    requires !SomeTagAt(page, j)
    ensures EndsOf(INPUT_TAG, page)(j) == None
  {
    if j <= |page| { TagMeaning(page, j); }
  }

  lemma {:induction false} PageIsScanned(page: ByteString, lead: ByteString, items: seq<Item>)
    requires IsInputPage(page, lead, items)
    ensures CoverAll(page, FindAll(INPUT_TAG, page, 0), Tags(items))
  {
    forall k | 0 <= k < |items| ensures Tags(items)[k].text != [] && ReadsPiece(INPUT_TAG, Tags(items)[k].text) {
      assert items[k] in items;
      TagFacts(items[k].field);
      TagIsRead(Tag(items[k].field));
    }
    forall j: nat | InGap(lead, Tags(items), j) ensures EndsOf(INPUT_TAG, page)(j) == None { GapIsSkipped(page, j); }
    ScanPage(INPUT_TAG, page, lead, Tags(items));
  }

  lemma {:induction false} CoveredTexts(page: ByteString, ms: seq<Match>, ps: seq<Piece>)
    requires CoverAll(page, ms, ps)
    ensures forall k :: 0 <= k < |ps| ==> TagTexts(page, ms)[k] == ps[k].text
  {
    forall k | 0 <= k < |ps| ensures TagTexts(page, ms)[k] == ps[k].text { assert Covers(page, ms[k], ps[k].text); }
  }

  lemma {:induction false} TagsReadBack(tags: seq<ByteString>, fields: seq<Field>)
    requires |tags| == |fields| && forall i :: 0 <= i < |tags| ==> TagFields(tags[i]) == [fields[i]]
    ensures TagsFields(tags) == fields
  {
    if tags != [] {
      forall i | 0 <= i < |tags[1..]| ensures TagFields(tags[1..][i]) == [fields[1..][i]] {
        assert tags[1..][i] == tags[i + 1];
      }
      TagsReadBack(tags[1..], fields[1..]);
      assert fields == [fields[0]] + fields[1..];
    }
  }

  lemma {:induction false} CoveredFields(page: ByteString, ms: seq<Match>, items: seq<Item>)
    requires CoverAll(page, ms, Tags(items)) && AllRenderable(items)
    ensures InputFields(page, ms) == FieldsOf(items)
  {
    CoveredTexts(page, ms, Tags(items));
    forall k | 0 <= k < |items| ensures TagFields(TagTexts(page, ms)[k]) == [items[k].field] {
      assert items[k] in items;
      TagFacts(items[k].field);
    }
    TagsReadBack(TagTexts(page, ms), FieldsOf(items));
  }

  /** The first pass finds exactly the tags of a page, whatever else the page holds. */
  lemma {:induction false} InputsOnPage(page: ByteString, lead: ByteString, items: seq<Item>)
    requires IsInputPage(page, lead, items)
    ensures InputFields(page, FindAll(INPUT_TAG, page, 0)) == FieldsOf(items)
  {
    PageIsScanned(page, lead, items);
    CoveredFields(page, FindAll(INPUT_TAG, page, 0), items);
  }
}
