/** Pages of rendered tags amid plain text, on which nothing else is read. */
module PlainPages {
  import opened Bytes
  import opened Pages
  import opened UrlForm
  import opened FormPatterns
  import opened FormMeaning
  import opened FormPage
  import opened ScriptPage

  /** Text that opens no tag and no call. */
  predicate PlainText(t: ByteString) { '<' !in t && '(' !in t }

  ghost predicate PlainItem(it: Item) {
    Renderable(it.field) && PlainText(it.field.value) && PlainText(it.after)
  }

  ghost predicate AllPlain(items: seq<Item>) {
    forall it :: it in items ==> PlainItem(it)
  }

  /** The page is these tags, with plain values and plain text around them. */
  ghost predicate IsPlainPage(page: ByteString, lead: ByteString, items: seq<Item>) {
    page == lead + Join(Tags(items)) && PlainText(lead) && AllPlain(items)
  }

  /** Where tag `k` starts, when the text before the first one starts at `from`. */
  function StartAt(from: nat, lead: ByteString, items: seq<Item>, k: nat): nat
    requires k < |items|
    decreases k
  {
    if k == 0 then from + |lead|
    else StartAt(from + |lead| + |Tag(items[0].field)|, items[0].after, items[1..], k - 1)
  }

  /** The rest of the page from `from` on is this text and these tags. */
  ghost predicate RestIs(page: ByteString, from: nat, lead: ByteString, items: seq<Item>) {
    from <= |page| && page[from..] == lead + Join(Tags(items)) && PlainText(lead) && AllPlain(items)
  }

  lemma {:induction false} TagsTail(items: seq<Item>)
    requires items != []
    ensures Tags(items) != [] && Tags(items)[0] == Piece(Tag(items[0].field), items[0].after)
    ensures Tags(items)[1..] == Tags(items[1..])
  {
  }

  /** The first tag stands after the text, and the rest of the page is of the same kind. */
  lemma {:induction false} FirstStands(page: ByteString, from: nat, lead: ByteString, items: seq<Item>)
    requires RestIs(page, from, lead, items) && items != []
    ensures OccursAt(page, lead, from) && OccursAt(page, Tag(items[0].field), from + |lead|) && PlainItem(items[0])
    ensures RestIs(page, from + |lead| + |Tag(items[0].field)|, items[0].after, items[1..])
  {
    var t, after := Tag(items[0].field), items[0].after;
    TagsTail(items);
    assert items[0] in items;
    PageSplit(page, from, lead, t, after + Join(Tags(items[1..])));
  }

  lemma {:induction false} LeadByte(page: ByteString, from: nat, lead: ByteString, j: nat)
    requires OccursAt(page, lead, from) && from <= j < from + |lead| && PlainText(lead)
    ensures page[j] != '<' && page[j] != '('
  {
    PieceByte(page, lead, from);
  }

  lemma {:induction false} TagInner(f: Field, j: nat)
    requires Renderable(f) && PlainText(f.value) && 0 < j < |Tag(f)|
    ensures Tag(f)[j] != '<' && Tag(f)[j] != '('
  {
    var t, n, v := Tag(f), 13 + |f.name|, 22 + |f.name| + |f.value|;
    TagHasLayout(f);
    if j < |t| - 1 { TagByte(t, f, n, v, j); } else { EndBytes(t, v); }
  }

  lemma {:induction false} InsideTag(page: ByteString, i: nat, f: Field, j: nat)
    requires Renderable(f) && PlainText(f.value) && OccursAt(page, Tag(f), i) && i < j < i + |Tag(f)|
    ensures page[j] != '<' && page[j] != '('
  {
    TagInner(f, j - i);
    assert page[j] == page[i..i + |Tag(f)|][j - i];
  }

  lemma {:induction false} TagOpening(page: ByteString, i: nat, f: Field)
    requires OccursAt(page, Tag(f), i)
    ensures |Tag(f)| > 13 && page[i] == '<' && page[i + 1] == 'i'
  {
    TagHasLayout(f);
    PieceByte(page, Tag(f), i);
    HeadBytes(Tag(f), 0);
    assert page[i + 0] == Tag(f)[0] && page[i + 1] == Tag(f)[1];
  }

  lemma {:induction false} LastText(page: ByteString, from: nat, lead: ByteString)
    requires RestIs(page, from, lead, [])
    ensures OccursAt(page, lead, from) && from + |lead| == |page|
  {
    assert Tags([]) == [] && lead + [] == lead;
  }

  lemma {:induction false} FirstPartByte(page: ByteString, from: nat, lead: ByteString, f: Field, j: nat)
    requires OccursAt(page, lead, from) && PlainText(lead) && OccursAt(page, Tag(f), from + |lead|)
    requires Renderable(f) && PlainText(f.value) && from <= j < from + |lead| + |Tag(f)|
    ensures page[j] != '(' && (page[j] == '<' ==> j == from + |lead|)
  {
    if j < from + |lead| { LeadByte(page, from, lead, j); }
    else if j == from + |lead| { TagOpening(page, j, f); }
    else { InsideTag(page, from + |lead|, f, j); }
  }

  lemma {:induction false} LaterStart(from: nat, lead: ByteString, items: seq<Item>, next: nat, k: nat)
    requires k + 1 < |items| && next == from + |lead| + |Tag(items[0].field)|
    ensures StartAt(from, lead, items, k + 1) == StartAt(next, items[0].after, items[1..], k)
  {
  }

  lemma {:induction false} LastByte(page: ByteString, from: nat, lead: ByteString, j: nat)
    requires RestIs(page, from, lead, []) && from <= j < |page|
    ensures page[j] != '(' && page[j] != '<'
  {
    LastText(page, from, lead);
    LeadByte(page, from, lead, j);
  }

  /** No byte opens a call, and one that opens a tag is where some tag starts. */
  lemma {:induction false} ByteOfPage(page: ByteString, from: nat, lead: ByteString, items: seq<Item>, j: nat)
    returns (k: nat)
    requires RestIs(page, from, lead, items) && from <= j < |page|
    ensures page[j] != '(' && (page[j] == '<' ==> k < |items| && j == StartAt(from, lead, items, k))
    decreases |items|
  {
    k := 0;
    if items == [] {
      LastByte(page, from, lead, j);
    } else {
      FirstStands(page, from, lead, items);
      var next := from + |lead| + |Tag(items[0].field)|;
      if j < next {
        FirstPartByte(page, from, lead, items[0].field, j);
      } else {
        k := ByteOfPage(page, next, items[0].after, items[1..], j);
        if k + 1 < |items| { LaterStart(from, lead, items, next, k); }
        k := k + 1;
      }
    }
  }

  lemma {:induction false} TagStands(page: ByteString, from: nat, lead: ByteString, items: seq<Item>, k: nat)
    requires RestIs(page, from, lead, items) && k < |items|
    ensures OccursAt(page, Tag(items[k].field), StartAt(from, lead, items, k)) && PlainItem(items[k])
    decreases k
  {
    FirstStands(page, from, lead, items);
    if k > 0 { TagStands(page, from + |lead| + |Tag(items[0].field)|, items[0].after, items[1..], k - 1); }
  }

  lemma {:induction false} WholeRest(page: ByteString, lead: ByteString, items: seq<Item>)
    requires IsPlainPage(page, lead, items)
    ensures RestIs(page, 0, lead, items)
  {
    assert page[0..] == page;
  }

  lemma {:induction false} GapByte(page: ByteString, from: nat, lead: ByteString, items: seq<Item>, j: nat)
    requires RestIs(page, from, lead, items) && InGap(lead, Tags(items), j) && from + j < |page|
    ensures page[from + j] != '<'
    decreases |items|
  {
    if items == [] {
      LastText(page, from, lead);
      LeadByte(page, from, lead, from + j);
    } else {
      FirstStands(page, from, lead, items);
      TagsTail(items);
      var n := |lead| + |Tag(items[0].field)|;
      if j < |lead| {
        LeadByte(page, from, lead, from + j);
      } else {
        GapByte(page, from + n, items[0].after, items[1..], j - n);
      }
    }
  }

  lemma {:induction false} NoOpening(page: ByteString, j: nat)
    requires j >= |page| || page[j] != '<'
    ensures !SomeTagAt(page, j) && !SomeScriptAt(page, j)
  {
    LiteralMismatch(page, "<input", true, j, 0);
    LiteralMismatch(page, "<script", true, j, 0);
  }

  lemma {:induction false} InputIsNoScript(page: ByteString, j: nat)
    requires j + 1 < |page| && page[j + 1] == 'i'
    ensures !SomeScriptAt(page, j)
  {
    LiteralMismatch(page, "<script", true, j, 1);
  }

  lemma {:induction false} NoParenNoCall(page: ByteString, j: nat)
    requires '(' !in page
    ensures !SomeCallAt(page, j)
  {
    var i := j + 17;
    forall p: nat, b: nat ensures !FirstArgumentAt(page, i, p, b) {
    }
  }

  lemma {:induction false} NoScriptOn(page: ByteString, lead: ByteString, items: seq<Item>, j: nat)
    requires RestIs(page, 0, lead, items)
    ensures !SomeScriptAt(page, j)
  {
    if j >= |page| || page[j] != '<' {
      NoOpening(page, j);
    } else {
      var k := ByteOfPage(page, 0, lead, items, j);
      TagStands(page, 0, lead, items, k);
      TagOpening(page, j, items[k].field);
      InputIsNoScript(page, j);
    }
  }

  lemma {:induction false} NoParen(page: ByteString, lead: ByteString, items: seq<Item>)
    requires RestIs(page, 0, lead, items)
    ensures '(' !in page
  {
    forall j: nat | j < |page| ensures page[j] != '(' { var k := ByteOfPage(page, 0, lead, items, j); }
  }

  /** A page of rendered tags with plain values amid plain text gives back exactly their fields. */
  lemma {:induction false} PlainRoundTrip(page: ByteString, lead: ByteString, items: seq<Item>)
    requires IsPlainPage(page, lead, items)
    ensures FormFieldsOf(page) == FieldsOf(items)
  {
    WholeRest(page, lead, items);
    NoParen(page, lead, items);
    forall j: nat ensures !SomeCallAt(page, j) { NoParenNoCall(page, j); }
    forall j: nat ensures !SomeScriptAt(page, j) { NoScriptOn(page, lead, items, j); }
    forall j: nat | InGap(lead, Tags(items), j) ensures !SomeTagAt(page, j) {
      if j < |page| { GapByte(page, 0, lead, items, j); }
      NoOpening(page, j);
    }
    assert AllRenderable(items) by { assert forall it :: it in items ==> PlainItem(it); }
    PageRoundTrip(page, lead, items);
  }

  /** The tags of these fields, one after the other. */
  function Adjacent(fields: seq<Field>): seq<Item> {
    seq(|fields|, i requires 0 <= i < |fields| => Item(fields[i], []))
  }

  /** Any fields that fit in tags and open nothing, rendered one after the other, read back as they
      are. */
  lemma {:induction false} AdjacentTags(fields: seq<Field>)
    requires forall f :: f in fields ==> Renderable(f) && PlainText(f.value)
    ensures FormFieldsOf(Join(Tags(Adjacent(fields)))) == fields
  {
    var items := Adjacent(fields);
    assert AllPlain(items) by {
      forall it | it in items ensures PlainItem(it) {
        var i :| 0 <= i < |items| && items[i] == it;
        assert fields[i] in fields;
      }
    }
    assert [] + Join(Tags(items)) == Join(Tags(items));
    PlainRoundTrip(Join(Tags(items)), [], items);
    assert FieldsOf(items) == fields;
  }
}
