/** Rendering a login page as tags amid plain text, and reading its tokens back. */
module LoginForms {
  import opened Bytes
  import opened Pages
  import opened Regex
  import opened UrlForm
  import opened FormMeaning
  import opened FormPage
  import opened PlainPages
  import opened LoginPage
  import opened LoginTokens

  predicate IsName(s: ByteString) {
    forall k :: 0 <= k < |s| ==> IsWord(s[k])
  }

  predicate SimpleValue(s: ByteString) {
    forall k :: 0 <= k < |s| ==> IsAlnum(s[k])
  }

  /** A page of rendered tags whose values are letters and digits, amid plain text. */
  ghost predicate IsLoginForm(page: ByteString, lead: ByteString, items: seq<Item>) {
    IsPlainPage(page, lead, items) && forall it :: it in items ==> SimpleValue(it.field.value)
  }

  /** The value of the first field of that name, in any case; empty when there is none. */
  function FirstNoCase(fields: seq<Field>, name: ByteString): ByteString {
    if fields == [] then []
    else if SameText(fields[0].name, name) then fields[0].value
    else FirstNoCase(fields[1..], name)
  }

  // ---- One tag ----

  /** Where the parts of a tag on a page lie. */
  ghost predicate TagLies(page: ByteString, i: nat, f: Field, n: nat, v: nat) {
    && n == i + 13 + |f.name| && v == n + 9 + |f.value| && v + 2 <= |page|
    && OccursAt(page, "<input name=\"", i) && OccursAt(page, f.name, i + 13)
    && OccursAt(page, "\" value=\"", n) && OccursAt(page, f.value, n + 9) && OccursAt(page, "\">", v)
    && IsName(f.name) && SimpleValue(f.value)
  }

  lemma {:induction false} RenderedLies(page: ByteString, i: nat, f: Field) returns (n: nat, v: nat)
    requires OccursAt(page, Tag(f), i) && Renderable(f) && SimpleValue(f.value)
    ensures TagLies(page, i, f, n, v)
  {
    n, v := i + 13 + |f.name|, i + 22 + |f.name| + |f.value|;
    FivePieces(page, i, "<input name=\"", f.name, "\" value=\"", f.value, "\">");
    forall k | 0 <= k < |f.name| ensures IsWord(f.name[k]) { assert f.name[k] in f.name; }
  }

  lemma {:induction false} NameRange(page: ByteString, i: nat, f: Field, n: nat, v: nat, j: nat)
    requires TagLies(page, i, f, n, v) && i + 13 <= j < n
    ensures IsWord(page[j])
  {
    assert page[j] == page[i + 13..i + 13 + |f.name|][j - i - 13];
  }

  lemma {:induction false} ValueRange(page: ByteString, i: nat, f: Field, n: nat, v: nat, j: nat)
    requires TagLies(page, i, f, n, v) && n + 9 <= j < v
    ensures IsAlnum(page[j])
  {
    assert page[j] == page[n + 9..n + 9 + |f.value|][j - n - 9];
  }

  /** A word that starts within a run of word bytes up to a quote has no equals sign after it. */
  lemma {:induction false} NotAssigned(text: ByteString, word: ByteString, m: nat, e: nat)
    requires IsName(word) && m <= e < |text| && text[e] == '\"' && word != []
    requires forall x :: m <= x < e ==> IsWord(text[x])
    ensures Opened(text, word, m) == None
  {
    if m + |word| > e {
      LiteralMismatch(text, word, true, m, e - m);
    } else {
      NoSpacesAt(text, m + |word|);
    }
  }

  lemma {:induction false} FirstByteDiffers(text: ByteString, word: ByteString, m: nat)
    requires word != [] && (m >= |text| || ToLower(text[m]) != ToLower(word[0]))
    ensures Opened(text, word, m) == None
  {
    LiteralMismatch(text, word, true, m, 0);
  }

  lemma {:induction false} Assigned(text: ByteString, word: ByteString, m: nat)
    requires OccursAt(text, word, m) && m + |word| + 1 < |text|
    requires text[m + |word|] == '=' && text[m + |word| + 1] == '\"'
    ensures Opened(text, word, m) == Some(m + |word| + 2)
  {
    NoSpacesAt(text, m + |word|);
    NoSpacesAt(text, m + |word| + 1);
  }

  lemma {:induction false} NamesAreWords()
    ensures IsName("name") && IsName("value")
  {
  }

  /** Within the field's own name and value no attribute opens. */
  lemma {:induction false} NotInParts(page: ByteString, i: nat, f: Field, n: nat, v: nat, word: ByteString, m: nat)
    requires TagLies(page, i, f, n, v) && IsName(word) && word != [] && (i + 13 <= m < n || n + 9 <= m < v)
    ensures Opened(page, word, m) == None
  {
    MiddleBytes(page, n);
    EndBytes(page, v);
    if m < n {
      forall x | m <= x < n ensures IsWord(page[x]) { NameRange(page, i, f, n, v, x); }
      NotAssigned(page, word, m, n);
    } else {
      forall x | m <= x < v ensures IsWord(page[x]) { ValueRange(page, i, f, n, v, x); }
      NotAssigned(page, word, m, v);
    }
  }

  /** Within the tag, the attribute name opens at one place. */
  lemma {:induction false} NameOpens(page: ByteString, i: nat, f: Field, n: nat, v: nat, m: nat)
    requires TagLies(page, i, f, n, v) && i + 6 <= m <= v + 1
    ensures Opened(page, "name", m) == if m == i + 7 then Some(i + 13) else None
  {
    NamesAreWords();
    if i + 13 <= m < n || n + 9 <= m < v {
      NotInParts(page, i, f, n, v, "name", m);
    } else {
      HeadBytes(page, i);
      MiddleBytes(page, n);
      EndBytes(page, v);
      if m == i + 7 {
        assert page[i + 7..i + 11] == "name";
        Assigned(page, "name", m);
      } else {
        FirstByteDiffers(page, "name", m);
      }
    }
  }

  /** And the attribute value at one place after the name. */
  lemma {:induction false} ValueOpens(page: ByteString, i: nat, f: Field, n: nat, v: nat, m: nat)
    requires TagLies(page, i, f, n, v) && i + 6 <= m <= v + 1
    ensures Opened(page, "value", m) == if m == n + 2 then Some(n + 9) else None
  {
    NamesAreWords();
    if i + 13 <= m < n || n + 9 <= m < v {
      NotInParts(page, i, f, n, v, "value", m);
    } else {
      HeadBytes(page, i);
      MiddleBytes(page, n);
      EndBytes(page, v);
      if m == n + 2 {
        assert page[n + 2..n + 7] == "value";
        Assigned(page, "value", m);
      } else {
        FirstByteDiffers(page, "value", m);
      }
    }
  }

  /** The quoted name is `name` exactly when the two are equal up to case. */
  lemma {:induction false} QuotedName(text: ByteString, a: nat, own: ByteString, name: ByteString)
    requires OccursAt(text, own, a) && a + |own| < |text| && text[a + |own|] == '\"' && IsName(own) && IsName(name)
    ensures QuotedEnd(text, name, a) == if SameText(own, name) then Some(a + |own| + 1) else None
  {
    assert text[a..a + |own|] == own;
    LowerMeaning(own, name);
    if |name| < |own| {
      assert text[a + |name|] == own[|name|];
    } else if |name| > |own| {
      LiteralMismatch(text, name, true, a, |own|);
    }
  }

  lemma {:induction false} NextQuoteIs(text: ByteString, a: nat, b: nat)
    requires a <= b < |text| && text[b] == '\"' && forall x :: a <= x < b ==> IsAlnum(text[x])
    ensures NextQuote(text, a) == b
    decreases b - a
  {
    if a < b { NextQuoteIs(text, a + 1, b); }
  }

  lemma {:induction false} ValueLies(page: ByteString, i: nat, f: Field, n: nat, v: nat, m: nat)
    requires TagLies(page, i, f, n, v) && i + 6 <= m <= v + 1
    ensures ValueSpan(page, m) == if m == n + 2 then Some(Span(n + 9, v)) else None
  {
    ValueOpens(page, i, f, n, v, m);
    EndBytes(page, v);
    forall x | n + 9 <= x < v ensures IsAlnum(page[x]) { ValueRange(page, i, f, n, v, x); }
    NextQuoteIs(page, n + 9, v);
  }

  lemma {:induction false} NameLies(page: ByteString, i: nat, f: Field, n: nat, v: nat, m: nat, name: ByteString)
    requires TagLies(page, i, f, n, v) && i + 6 <= m <= v + 1 && IsName(name)
    ensures NameEnd(page, name, m) == if m == i + 7 && SameText(f.name, name) then Some(n + 1) else None
  {
    NameOpens(page, i, f, n, v, m);
    MiddleBytes(page, n);
    QuotedName(page, i + 13, f.name, name);
  }

  /** No closing bracket before the end of the tag, and none is crossed after it. */
  lemma {:induction false} TagReach(page: ByteString, i: nat, f: Field, n: nat, v: nat, from: nat, m: nat)
    requires TagLies(page, i, f, n, v) && i + 6 <= from <= v + 1 && from <= m
    ensures InTag(page, from, m) ==> m <= v + 1
    ensures m <= v + 1 ==> InTag(page, from, m)
  {
    EndBytes(page, v);
    if m <= v + 1 {
      forall j | from <= j < m ensures InClass(page[j], NotGreater) { NoBracket(page, i, f, n, v, j); }
    }
  }

  lemma {:induction false} NoBracket(page: ByteString, i: nat, f: Field, n: nat, v: nat, j: nat)
    requires TagLies(page, i, f, n, v) && i + 6 <= j <= v
    ensures page[j] != '>'
  {
    if j < i + 13 { HeadBytes(page, i); }
    else if j < n { NameRange(page, i, f, n, v, j); }
    else if j < n + 9 { MiddleBytes(page, n); }
    else if j < v { ValueRange(page, i, f, n, v, j); }
    else { EndBytes(page, v); }
  }

  lemma {:induction false} InputStands(page: ByteString, i: nat)
    requires OccursAt(page, "<input name=\"", i)
    ensures LiteralAt(page, "<input", true, i)
  {
    assert page[i..i + 13][..6] == page[i..i + 6];
    assert "<input name=\""[..6] == "<input";
  }

  lemma {:induction false} NoValueAt(page: ByteString, i: nat, f: Field, n: nat, v: nat, from: nat, w: nat)
    requires TagLies(page, i, f, n, v) && from == n + 1 && n + 2 < w
    ensures !ValueIn(page, from, w)
  {
    TagReach(page, i, f, n, v, from, w);
    if w <= v + 1 { ValueLies(page, i, f, n, v, w); }
  }

  lemma {:induction false} NoLaterValue(page: ByteString, i: nat, f: Field, n: nat, v: nat, from: nat, m: nat)
    requires TagLies(page, i, f, n, v) && from == n + 1 && m == n + 2
    ensures forall w: nat :: m < w ==> !ValueIn(page, from, w)
  {
    forall w: nat | m < w ensures !ValueIn(page, from, w) { NoValueAt(page, i, f, n, v, from, w); }
  }

  lemma {:induction false} TagHasValue(page: ByteString, i: nat, f: Field, n: nat, v: nat, from: nat, m: nat)
    requires TagLies(page, i, f, n, v) && from == n + 1 && m == n + 2
    ensures LastValue(page, from, m) && ValueSpan(page, m) == Some(Span(n + 9, v))
  {
    TagReach(page, i, f, n, v, from, m);
    ValueLies(page, i, f, n, v, m);
    NoLaterValue(page, i, f, n, v, from, m);
  }

  lemma {:induction false} NoLaterName(page: ByteString, i: nat, f: Field, n: nat, v: nat, name: ByteString, m: nat)
    requires TagLies(page, i, f, n, v) && IsName(name) && InTag(page, i + 6, m)
    requires m != i + 7 || !SameText(f.name, name)
    ensures !NamedValue(page, name, m)
  {
    TagReach(page, i, f, n, v, i + 6, m);
    NameLies(page, i, f, n, v, m, name);
  }

  lemma {:induction false} NameIsLast(page: ByteString, i: nat, f: Field, n: nat, v: nat, name: ByteString)
    requires TagLies(page, i, f, n, v) && IsName(name)
    ensures forall m: nat :: i + 7 < m && InTag(page, i + 6, m) ==> !NamedValue(page, name, m)
  {
    forall m: nat | i + 7 < m && InTag(page, i + 6, m) ensures !NamedValue(page, name, m) {
      NoLaterName(page, i, f, n, v, name, m);
    }
  }

  lemma {:induction false} InputFrom(page: ByteString, name: ByteString, i: nat, m: nat, e: nat, w: nat, s: Span)
    requires LiteralAt(page, "<input", true, i) && InTag(page, i + 6, m) && NameEnd(page, name, m) == Some(e)
    requires LastValue(page, e, w) && ValueSpan(page, w) == Some(s)
    requires forall l: nat :: m < l && InTag(page, i + 6, l) ==> !NamedValue(page, name, l)
    ensures NamedInput(page, name, i, m, s)
  {
  }

  lemma {:induction false} NameStands(page: ByteString, i: nat, f: Field, n: nat, v: nat, name: ByteString, m: nat)
    requires TagLies(page, i, f, n, v) && IsName(name) && SameText(f.name, name) && m == i + 7
    ensures LiteralAt(page, "<input", true, i) && InTag(page, i + 6, m) && NameEnd(page, name, m) == Some(n + 1)
  {
    InputStands(page, i);
    TagReach(page, i, f, n, v, i + 6, m);
    NameLies(page, i, f, n, v, m, name);
  }

  /** A tag of that name gives its value. */
  lemma {:induction false} TagGives(page: ByteString, i: nat, f: Field, n: nat, v: nat, name: ByteString, m: nat)
    requires TagLies(page, i, f, n, v) && IsName(name) && SameText(f.name, name) && m == i + 7
    ensures NamedInput(page, name, i, m, Span(n + 9, v))
  {
    var e, w, s := n + 1, n + 2, Span(n + 9, v);
    NameStands(page, i, f, n, v, name, m);
    NameIsLast(page, i, f, n, v, name);
    TagHasValue(page, i, f, n, v, e, w);
    InputFrom(page, name, i, m, e, w, s);
  }

  /** A tag of another name gives nothing. */
  lemma {:induction false} OtherTag(page: ByteString, i: nat, f: Field, n: nat, v: nat, name: ByteString)
    requires TagLies(page, i, f, n, v) && IsName(name) && !SameText(f.name, name)
    ensures !SomeTokenAt(page, name, NameThenValue, i)
  {
    forall m: nat | InTag(page, i + 6, m) ensures !NamedValue(page, name, m) {
      NoLaterName(page, i, f, n, v, name, m);
    }
  }

  lemma {:induction false} NothingAtEnd(page: ByteString, i: nat, f: Field, n: nat, v: nat, name: ByteString, from: nat)
    requires TagLies(page, i, f, n, v) && IsName(name) && from == v + 1
    ensures !SomeNameIn(page, name, from)
  {
    forall k: nat ensures !NameIn(page, name, from, k) {
      if from <= k { TagReach(page, i, f, n, v, from, k); }
      if k == from { NameLies(page, i, f, n, v, k, name); }
    }
  }

  lemma {:induction false} ValuedNeedsName(page: ByteString, name: ByteString, m: nat, s: Span, from: nat)
    requires ValueSpan(page, m) == Some(s) && from == s.close + 1 && !SomeNameIn(page, name, from)
    ensures !ValuedName(page, name, m)
  {
  }

  lemma {:induction false} ValuedNeedsValue(page: ByteString, name: ByteString, m: nat)
    requires ValueSpan(page, m) == None
    ensures !ValuedName(page, name, m)
  {
  }

  lemma {:induction false} NotValuedHere(page: ByteString, i: nat, f: Field, n: nat, v: nat, name: ByteString, m: nat,
                                         from: nat)
    requires TagLies(page, i, f, n, v) && IsName(name) && m == n + 2 && from == v + 1
    ensures !ValuedName(page, name, m)
  {
    NothingAtEnd(page, i, f, n, v, name, from);
    var s := Span(n + 9, v);
    ValueLies(page, i, f, n, v, m);
    ValuedNeedsName(page, name, m, s, from);
  }

  lemma {:induction false} NotValued(page: ByteString, i: nat, f: Field, n: nat, v: nat, name: ByteString, m: nat)
    requires TagLies(page, i, f, n, v) && IsName(name) && InTag(page, i + 6, m)
    ensures !ValuedName(page, name, m)
  {
    TagReach(page, i, f, n, v, i + 6, m);
    if m == n + 2 {
      NotValuedHere(page, i, f, n, v, name, m, v + 1);
    } else {
      ValueLies(page, i, f, n, v, m);
      ValuedNeedsValue(page, name, m);
    }
  }

  /** No tag has its name after its value. */
  lemma {:induction false} NeverValueFirst(page: ByteString, i: nat, f: Field, n: nat, v: nat, name: ByteString)
    requires TagLies(page, i, f, n, v) && IsName(name)
    ensures !SomeTokenAt(page, name, ValueThenName, i)
  {
    forall m: nat | InTag(page, i + 6, m) ensures !ValuedName(page, name, m) { NotValued(page, i, f, n, v, name, m); }
  }

  // ---- The page ----

  lemma {:induction false} FormTag(page: ByteString, lead: ByteString, items: seq<Item>, k: nat)
    returns (i: nat, n: nat, v: nat)
    requires IsLoginForm(page, lead, items) && k < |items|
    ensures i == StartAt(0, lead, items, k) && TagLies(page, i, items[k].field, n, v)
  {
    WholeRest(page, lead, items);
    TagStands(page, 0, lead, items, k);
    i := StartAt(0, lead, items, k);
    assert items[k] in items;
    n, v := RenderedLies(page, i, items[k].field);
  }

  lemma {:induction false} StartsInOrder(from: nat, lead: ByteString, items: seq<Item>, k: nat, l: nat)
    requires k <= l < |items|
    ensures StartAt(from, lead, items, k) <= StartAt(from, lead, items, l)
    decreases k
  {
    if k > 0 {
      StartsInOrder(from + |lead| + |Tag(items[0].field)|, items[0].after, items[1..], k - 1, l - 1);
    } else {
      StartsAfter(from, lead, items, l);
    }
  }

  lemma {:induction false} StartsAfter(from: nat, lead: ByteString, items: seq<Item>, l: nat)
    requires l < |items|
    ensures from + |lead| <= StartAt(from, lead, items, l)
    decreases l
  {
    if l > 0 { StartsAfter(from + |lead| + |Tag(items[0].field)|, items[0].after, items[1..], l - 1); }
  }

  lemma {:induction false} NoInputHere(page: ByteString, name: ByteString, j: nat)
    requires j >= |page| || page[j] != '<'
    ensures !SomeTokenAt(page, name, NameThenValue, j) && !SomeTokenAt(page, name, ValueThenName, j)
  {
    LiteralMismatch(page, "<input", true, j, 0);
  }

  /** Where the page opens a tag, it is one of its tags. */
  lemma {:induction false} TagOrNothing(page: ByteString, lead: ByteString, items: seq<Item>, name: ByteString, j: nat)
    returns (k: nat)
    requires IsLoginForm(page, lead, items) && IsName(name)
    ensures !SomeTokenAt(page, name, ValueThenName, j)
    ensures SomeTokenAt(page, name, NameThenValue, j) ==>
              k < |items| && j == StartAt(0, lead, items, k) && SameText(items[k].field.name, name)
  {
    k := 0;
    if j >= |page| || page[j] != '<' {
      NoInputHere(page, name, j);
    } else {
      WholeRest(page, lead, items);
      k := ByteOfPage(page, 0, lead, items, j);
      var i, n, v := FormTag(page, lead, items, k);
      NeverValueFirst(page, i, items[k].field, n, v, name);
      if !SameText(items[k].field.name, name) { OtherTag(page, i, items[k].field, n, v, name); }
    }
  }

  lemma {:induction false} NoCallHere(page: ByteString, name: ByteString)
    requires '(' !in page
    ensures NoToken(page, name, AsCall)
  {
    forall j: nat ensures !SomeTokenAt(page, name, AsCall, j) {
      assert CallHead(name)[17] == '(';
      LiteralMismatch(page, CallHead(name), false, j, 17);
    }
  }

  /** Item `k` is the first of that name. */
  ghost predicate FirstNamed(items: seq<Item>, name: ByteString, k: nat) {
    && k < |items| && SameText(items[k].field.name, name)
    && forall l :: 0 <= l < k ==> !SameText(items[l].field.name, name)
  }

  lemma {:induction false} NoneBefore(page: ByteString, lead: ByteString, items: seq<Item>, name: ByteString, k: nat,
                                      j: nat)
    requires IsLoginForm(page, lead, items) && IsName(name) && FirstNamed(items, name, k)
    requires j < StartAt(0, lead, items, k)
    ensures !SomeTokenAt(page, name, NameThenValue, j)
  {
    var l := TagOrNothing(page, lead, items, name, j);
    if k <= l < |items| { StartsInOrder(0, lead, items, k, l); }
  }

  lemma {:induction false} NothingBefore(page: ByteString, lead: ByteString, items: seq<Item>, name: ByteString, k: nat,
                                         i: nat)
    requires IsLoginForm(page, lead, items) && IsName(name) && FirstNamed(items, name, k)
    requires i == StartAt(0, lead, items, k)
    ensures forall j: nat :: j < i ==> !SomeTokenAt(page, name, NameThenValue, j)
  {
    forall j: nat | j < i ensures !SomeTokenAt(page, name, NameThenValue, j) {
      NoneBefore(page, lead, items, name, k, j);
    }
  }

  function TextOf(page: ByteString, s: Span): Option<ByteString> {
    if s.open <= s.close <= |page| then Some(page[s.open..s.close]) else None
  }

  ghost predicate GivesAt(page: ByteString, name: ByteString, i: nat, value: ByteString) {
    exists s :: TokenAt(page, name, NameThenValue, i, s) && TextOf(page, s) == Some(value)
  }

  lemma {:induction false} TagGivesValue(page: ByteString, i: nat, f: Field, n: nat, v: nat, name: ByteString)
    requires TagLies(page, i, f, n, v) && IsName(name) && SameText(f.name, name)
    ensures GivesAt(page, name, i, f.value)
  {
    TagGives(page, i, f, n, v, name, i + 7);
    TagText(page, i, f, n, v);
    GivesFrom(page, name, i, i + 7, Span(n + 9, v), f.value);
  }

  lemma {:induction false} GivesFrom(page: ByteString, name: ByteString, i: nat, m: nat, s: Span, value: ByteString)
    requires NamedInput(page, name, i, m, s) && TextOf(page, s) == Some(value)
    ensures GivesAt(page, name, i, value)
  {
    assert TokenAt(page, name, NameThenValue, i, s);
  }

  lemma {:induction false} FirstTokenFrom(page: ByteString, name: ByteString, i: nat, value: ByteString)
    requires GivesAt(page, name, i, value)
    requires forall j: nat :: j < i ==> !SomeTokenAt(page, name, NameThenValue, j)
    ensures FirstToken(page, name, NameThenValue, value)
  {
    var s :| TokenAt(page, name, NameThenValue, i, s) && TextOf(page, s) == Some(value);
    assert FirstTokenAt(page, name, NameThenValue, i, s);
  }

  lemma {:induction false} FirstNamedGives(page: ByteString, lead: ByteString, items: seq<Item>, name: ByteString,
                                           k: nat)
    requires IsLoginForm(page, lead, items) && IsName(name) && FirstNamed(items, name, k)
    ensures FirstToken(page, name, NameThenValue, items[k].field.value)
  {
    var i, n, v := FormTag(page, lead, items, k);
    TagGivesValue(page, i, items[k].field, n, v, name);
    NothingBefore(page, lead, items, name, k, i);
    FirstTokenFrom(page, name, i, items[k].field.value);
  }

  lemma {:induction false} TagText(page: ByteString, i: nat, f: Field, n: nat, v: nat)
    requires TagLies(page, i, f, n, v)
    ensures TextOf(page, Span(n + 9, v)) == Some(f.value)
  {
  }

  lemma {:induction false} NoneNamedGives(page: ByteString, lead: ByteString, items: seq<Item>, name: ByteString)
    requires IsLoginForm(page, lead, items) && IsName(name)
    requires forall l :: 0 <= l < |items| ==> !SameText(items[l].field.name, name)
    ensures NoToken(page, name, NameThenValue)
  {
    forall j: nat ensures !SomeTokenAt(page, name, NameThenValue, j) {
      var l := TagOrNothing(page, lead, items, name, j);
    }
  }

  lemma {:induction false} NeverFirst(page: ByteString, lead: ByteString, items: seq<Item>, name: ByteString)
    requires IsLoginForm(page, lead, items) && IsName(name)
    ensures NoToken(page, name, ValueThenName)
  {
    forall j: nat ensures !SomeTokenAt(page, name, ValueThenName, j) {
      var l := TagOrNothing(page, lead, items, name, j);
    }
  }

  lemma {:induction false} FirstNoCaseIs(items: seq<Item>, name: ByteString, k: nat)
    requires FirstNamed(items, name, k)
    ensures FirstNoCase(FieldsOf(items), name) == items[k].field.value
    decreases k
  {
    assert FieldsOf(items)[1..] == FieldsOf(items[1..]);
    if k > 0 { FirstNoCaseIs(items[1..], name, k - 1); }
  }

  lemma {:induction false} FirstNoCaseNone(items: seq<Item>, name: ByteString)
    requires forall l :: 0 <= l < |items| ==> !SameText(items[l].field.name, name)
    ensures FirstNoCase(FieldsOf(items), name) == []
  {
    if items != [] {
      assert FieldsOf(items)[1..] == FieldsOf(items[1..]);
      FirstNoCaseNone(items[1..], name);
    }
  }

  lemma {:induction false} LeastNamed(items: seq<Item>, name: ByteString, l: nat) returns (k: nat)
    requires l < |items| && SameText(items[l].field.name, name)
    ensures FirstNamed(items, name, k)
  {
    k := l;
    if m: nat :| m < l && SameText(items[m].field.name, name) { k := LeastNamed(items, name, m); }
  }

  /** The token read off such a page is the value of the first field of its name, in any case. */
  lemma {:induction false} LoginFormRoundTrip(page: ByteString, lead: ByteString, items: seq<Item>, name: ByteString)
    requires IsLoginForm(page, lead, items) && IsName(name)
    ensures PageToken(page, name) == FirstNoCase(FieldsOf(items), name)
  {
    var value := FirstNoCase(FieldsOf(items), name);
    NeverFirst(page, lead, items, name);
    if l: nat :| l < |items| && SameText(items[l].field.name, name) {
      var k := LeastNamed(items, name, l);
      FirstNoCaseIs(items, name, k);
      FirstNamedGives(page, lead, items, name, k);
    } else {
      FirstNoCaseNone(items, name);
      NoneNamedGives(page, lead, items, name);
    }
    InputValueMeaning(page, name, value);
    WholeRest(page, lead, items);
    NoParen(page, lead, items);
    NoCallHere(page, name);
    CapturedMeaning(page, name, AsCall, []);
  }

  /** A rendered login page gives its two tokens. */
  lemma {:induction false} TwoTokens(page: ByteString, lead: ByteString, items: seq<Item>, login: ByteString,
                                     check: ByteString)
    requires IsLoginForm(page, lead, items)
    requires FieldsOf(items) == [Field(LOGIN_TOKEN, login), Field(CHECK_TOKEN, check)]
    ensures PageToken(page, LOGIN_TOKEN) == login && PageToken(page, CHECK_TOKEN) == check
  {
    TokenWords();
    LoginFormRoundTrip(page, lead, items, LOGIN_TOKEN);
    LoginFormRoundTrip(page, lead, items, CHECK_TOKEN);
    assert FieldsOf(items)[1..] == [Field(CHECK_TOKEN, check)];
  }

  lemma {:induction false} TokenWords()
    ensures IsName(LOGIN_TOKEN) && IsName(CHECK_TOKEN) && |LOGIN_TOKEN| != |CHECK_TOKEN|
  {
  }
}
