/** What the form fields of a page are, on every page. */
module PageFields {
  import opened Bytes
  import opened Regex
  import opened UrlForm
  import opened FormPatterns
  import opened FormMeaning
  import opened ScriptTokens
  import opened ScriptPage

  // ---- The tags of a page ----

  /** Where a tag starts and ends. */
  datatype Extent = Extent(start: nat, end: nat)

  ghost predicate NoTagIn(html: ByteString, from: nat, to: nat) {
    forall i: nat :: from <= i < to ==> !SomeTagAt(html, i)
  }

  /** The tags of a page, stated without the scan: the first one that stands at or after `from`,
      then those from its end on. */
  ghost predicate AreTags(html: ByteString, from: nat, ts: seq<Extent>)
    decreases |ts|
  {
    if ts == [] then NoTagIn(html, from, |html| + 1)
    else
      && from <= ts[0].start && NoTagIn(html, from, ts[0].start) && TagAt(html, ts[0].start, ts[0].end)
      && AreTags(html, ts[0].end, ts[1..])
  }

  function TextAt(html: ByteString, t: Extent): ByteString {
    if t.start <= t.end <= |html| then html[t.start..t.end] else []
  }

  function Texts(html: ByteString, ts: seq<Extent>): seq<ByteString> {
    seq(|ts|, i requires 0 <= i < |ts| => TextAt(html, ts[i]))
  }

  lemma {:induction false} NoTagIsQuiet(html: ByteString, from: nat, to: nat)
    requires NoTagIn(html, from, to)
    ensures Quiet(INPUT_TAG, html, from, to)
  {
    forall i: nat | from <= i < to && i <= |html| ensures Run(INPUT_TAG, html, i, map[]).None? { TagMeaning(html, i); }
  }

  lemma {:induction false} QuietHasNoTag(html: ByteString, from: nat, to: nat)
    requires Quiet(INPUT_TAG, html, from, to)
    ensures NoTagIn(html, from, to)
  {
    forall i: nat | from <= i < to ensures !SomeTagAt(html, i) {
      if i <= |html| { TagMeaning(html, i); }
    }
  }

  lemma {:induction false} TextsCons(html: ByteString, m: Match, ms: seq<Match>, ts: seq<Extent>)
    requires ts != [] && m.start == ts[0].start && m.end == ts[0].end && TagTexts(html, ms) == Texts(html, ts[1..])
    ensures TagTexts(html, [m] + ms) == Texts(html, ts)
  {
    assert TagTexts(html, [m] + ms) == [MatchText(html, m)] + TagTexts(html, ms);
    assert Texts(html, ts) == [TextAt(html, ts[0])] + Texts(html, ts[1..]);
  }

  lemma {:induction false} FirstTag(html: ByteString, from: nat, t: Extent)
    requires from <= t.start && NoTagIn(html, from, t.start) && TagAt(html, t.start, t.end)
    ensures t.end <= |html| && Run(INPUT_TAG, html, t.start, map[]) == Some(Found(t.end, map[]))
    ensures var m := Match(t.start, t.end, map[]);
            FindAll(INPUT_TAG, html, from) == [m] + FindAll(INPUT_TAG, html, t.end)
  {
    NoTagIsQuiet(html, from, t.start);
    TagRuns(html, t.start, t.end);
    FindAllNext(INPUT_TAG, html, from, t.start);
  }

  /** The first pass looks at exactly the tags of the page. */
  lemma {:induction false} TagsRead(html: ByteString, from: nat, ts: seq<Extent>)
    requires from <= |html| && AreTags(html, from, ts)
    ensures TagTexts(html, FindAll(INPUT_TAG, html, from)) == Texts(html, ts)
    decreases |ts|
  {
    if ts == [] {
      NoTagIsQuiet(html, from, |html| + 1);
      FindAllNone(INPUT_TAG, html, from);
    } else {
      var t := ts[0];
      FirstTag(html, from, t);
      TagsRead(html, t.end, ts[1..]);
      TextsCons(html, Match(t.start, t.end, map[]), FindAll(INPUT_TAG, html, t.end), ts);
    }
  }

  lemma {:induction false} NextTag(html: ByteString, from: nat) returns (t: Extent)
    requires from <= |html| && Search(INPUT_TAG, html, from).Some?
    ensures from <= t.start && NoTagIn(html, from, t.start) && TagAt(html, t.start, t.end)
  {
    SearchFirst(INPUT_TAG, html, from);
    var m := Search(INPUT_TAG, html, from).value;
    QuietHasNoTag(html, from, m.start);
    TagMeaning(html, m.start);
    var e: nat :| TagAt(html, m.start, e);
    t := Extent(m.start, e);
  }

  /** Every page has such a list of tags. */
  lemma {:induction false} TagsExist(html: ByteString, from: nat) returns (ts: seq<Extent>)
    requires from <= |html|
    ensures AreTags(html, from, ts)
    decreases |html| - from
  {
    if Search(INPUT_TAG, html, from).None? {
      SearchFirst(INPUT_TAG, html, from);
      QuietHasNoTag(html, from, |html| + 1);
      ts := [];
    } else {
      var t := NextTag(html, from);
      var rest := TagsExist(html, t.end);
      ts := [t] + rest;
      assert ts[1..] == rest;
    }
  }

  /** What a tag says: nothing without a name, and otherwise a field of its first name and its first
      value, an empty one if it has none. */
  ghost predicate Says(tag: ByteString, fields: seq<Field>) {
    || (fields == [] && (NoAttribute(tag, "name") || AttributeText(tag, "name", [])))
    || (|fields| == 1 && fields[0].name != [] && AttributeText(tag, "name", fields[0].name)
        && ValueOr(tag, fields[0].value))
  }

  ghost predicate ValueOr(tag: ByteString, v: ByteString) {
    AttributeText(tag, "value", v) || (v == [] && NoAttribute(tag, "value"))
  }

  lemma {:induction false} TagFieldsMeaning(tag: ByteString, fields: seq<Field>)
    ensures TagFields(tag) == fields <==> Says(tag, fields)
  {
    AttributeMeaning(tag, "name", []);
    if |fields| == 1 {
      AttributeMeaning(tag, "name", fields[0].name);
      AttributeMeaning(tag, "value", fields[0].value);
    }
  }

  // ---- The calls of a page ----

  /** Where a call starts, and where its two arguments are quoted. */
  datatype Call = Call(start: nat, p: nat, b: nat, q: nat, e: nat)

  ghost predicate StandsAsCall(html: ByteString, c: Call) {
    CallAt(html, c.start, c.p, c.b, c.q, c.e)
  }

  ghost predicate NoCallIn(html: ByteString, from: nat, to: nat) {
    forall i: nat :: from <= i < to ==> !SomeCallAt(html, i)
  }

  /** Where a call ends. */
  function EndOf(html: ByteString, c: Call): nat {
    if ClosesAt(html, c.e + 1) then CloseEnd(html, c.e + 1) else 0
  }

  /** The calls of a page, stated without the scan. */
  ghost predicate AreCalls(html: ByteString, from: nat, cs: seq<Call>)
    decreases |cs|
  {
    if cs == [] then NoCallIn(html, from, |html| + 1)
    else
      && from <= cs[0].start && NoCallIn(html, from, cs[0].start) && StandsAsCall(html, cs[0])
      && AreCalls(html, EndOf(html, cs[0]), cs[1..])
  }

  function FieldAt(html: ByteString, c: Call): Field {
    Field(if c.p < c.b <= |html| then html[c.p + 1..c.b] else [],
          if c.q < c.e <= |html| then html[c.q + 1..c.e] else [])
  }

  function FieldsAt(html: ByteString, cs: seq<Call>): seq<Field> {
    seq(|cs|, i requires 0 <= i < |cs| => FieldAt(html, cs[i]))
  }

  lemma {:induction false} NoCallIsQuiet(html: ByteString, from: nat, to: nat)
    requires NoCallIn(html, from, to)
    ensures Quiet(HIDDEN_INPUT, html, from, to)
  {
    forall i: nat | from <= i < to && i <= |html| ensures Run(HIDDEN_INPUT, html, i, map[]).None? {
      CallMeaning(html, i);
    }
  }

  lemma {:induction false} QuietHasNoCall(html: ByteString, from: nat, to: nat)
    requires Quiet(HIDDEN_INPUT, html, from, to)
    ensures NoCallIn(html, from, to)
  {
    forall i: nat | from <= i < to ensures !SomeCallAt(html, i) {
      if i <= |html| { CallMeaning(html, i); }
    }
  }

  lemma {:induction false} HiddenCons(html: ByteString, m: Match, ms: seq<Match>)
    ensures HiddenFields(html, [m] + ms) == [HiddenField(html, m)] + HiddenFields(html, ms)
  {
    var all, first, others := HiddenFields(html, [m] + ms), HiddenField(html, m), HiddenFields(html, ms);
    forall k | 0 < k <= |ms| ensures all[k] == others[k - 1] { assert ([m] + ms)[k] == ms[k - 1]; }
    assert all == [first] + others;
  }

  lemma {:induction false} FieldsAtCons(html: ByteString, cs: seq<Call>)
    requires cs != []
    ensures FieldsAt(html, cs) == [FieldAt(html, cs[0])] + FieldsAt(html, cs[1..])
  {
    var rest := cs[1..];
    var all, first, others := FieldsAt(html, cs), FieldAt(html, cs[0]), FieldsAt(html, rest);
    forall k | 0 < k < |cs| ensures all[k] == others[k - 1] { assert rest[k - 1] == cs[k]; }
    assert all == [first] + others;
  }

  lemma {:induction false} FieldIs(html: ByteString, c: Call)
    requires c.p < c.b <= |html| && c.q < c.e <= |html|
    ensures FieldAt(html, c) == Field(html[c.p + 1..c.b], html[c.q + 1..c.e])
  {
  }

  /** The match takes the call, and gives the field of its arguments. */
  predicate ReadAs(html: ByteString, c: Call, m: Match) {
    m.end == EndOf(html, c) && HiddenField(html, m) == FieldAt(html, c)
  }

  lemma {:induction false} ReadAsFrom(html: ByteString, c: Call, m: Match)
    requires c.p < c.b < |html| && c.q < c.e < |html| && ClosesAt(html, c.e + 1) && m.end == CloseEnd(html, c.e + 1)
    requires HiddenField(html, m) == Field(html[c.p + 1..c.b], html[c.q + 1..c.e])
    ensures ReadAs(html, c, m)
  {
    FieldIs(html, c);
  }

  lemma {:induction false} CallIsReadAs(html: ByteString, c: Call)
    requires StandsAsCall(html, c)
    ensures c.start <= |html| && Run(HIDDEN_INPUT, html, c.start, map[]).Some?
    ensures ReadAs(html, c, MatchAt(HIDDEN_INPUT, html, c.start))
  {
    CallIsRead(html, c.start, c.p, c.b, c.q, c.e);
    ReadAsFrom(html, c, MatchAt(HIDDEN_INPUT, html, c.start));
  }

  lemma {:induction false} FirstCall(html: ByteString, from: nat, c: Call) returns (m: Match)
    requires from <= c.start && NoCallIn(html, from, c.start) && StandsAsCall(html, c)
    ensures from < m.end <= |html| && ReadAs(html, c, m)
    ensures FindAll(HIDDEN_INPUT, html, from) == [m] + FindAll(HIDDEN_INPUT, html, m.end)
  {
    NoCallIsQuiet(html, from, c.start);
    CallIsReadAs(html, c);
    m := MatchAt(HIDDEN_INPUT, html, c.start);
    FindAllNext(HIDDEN_INPUT, html, from, c.start);
  }

  lemma {:induction false} FirstThenRest(html: ByteString, from: nat, m: Match, cs: seq<Call>)
    requires cs != [] && ReadAs(html, cs[0], m) && from <= |html| && m.end <= |html|
    requires FindAll(HIDDEN_INPUT, html, from) == [m] + FindAll(HIDDEN_INPUT, html, m.end)
    requires HiddenFields(html, FindAll(HIDDEN_INPUT, html, m.end)) == FieldsAt(html, cs[1..])
    ensures HiddenFields(html, FindAll(HIDDEN_INPUT, html, from)) == FieldsAt(html, cs)
  {
    HiddenCons(html, m, FindAll(HIDDEN_INPUT, html, m.end));
    FieldsAtCons(html, cs);
  }

  /** The second pass gives exactly the arguments of the calls of the page. */
  lemma {:induction false} CallsRead(html: ByteString, from: nat, cs: seq<Call>)
    requires from <= |html| && AreCalls(html, from, cs)
    ensures HiddenFields(html, FindAll(HIDDEN_INPUT, html, from)) == FieldsAt(html, cs)
    decreases |cs|
  {
    if cs == [] {
      NoCallIsQuiet(html, from, |html| + 1);
      FindAllNone(HIDDEN_INPUT, html, from);
    } else {
      var m := FirstCall(html, from, cs[0]);
      CallsRead(html, m.end, cs[1..]);
      FirstThenRest(html, from, m, cs);
    }
  }

  lemma {:induction false} NextCall(html: ByteString, from: nat) returns (c: Call)
    requires from <= |html| && Search(HIDDEN_INPUT, html, from).Some?
    ensures from <= c.start && NoCallIn(html, from, c.start) && StandsAsCall(html, c)
  {
    SearchFirst(HIDDEN_INPUT, html, from);
    var m := Search(HIDDEN_INPUT, html, from).value;
    QuietHasNoCall(html, from, m.start);
    CallMeaning(html, m.start);
    var p: nat, b: nat, q: nat, e: nat :| CallAt(html, m.start, p, b, q, e);
    c := Call(m.start, p, b, q, e);
  }

  /** Every page has such a list of calls. */
  lemma {:induction false} CallsExist(html: ByteString, from: nat) returns (cs: seq<Call>)
    requires from <= |html|
    ensures AreCalls(html, from, cs)
    decreases |html| - from
  {
    if Search(HIDDEN_INPUT, html, from).None? {
      SearchFirst(HIDDEN_INPUT, html, from);
      QuietHasNoCall(html, from, |html| + 1);
      cs := [];
    } else {
      var c := NextCall(html, from);
      var m := FirstCall(html, from, c);
      var rest := CallsExist(html, m.end);
      cs := [c] + rest;
      assert cs[1..] == rest;
    }
  }

  // ---- All three passes ----

  /** What the tags say, one after the other. */
  ghost predicate SayAll(tags: seq<ByteString>, fields: seq<Field>)
    decreases |tags|
  {
    if tags == [] then fields == []
    else exists n: nat :: n <= |fields| && Says(tags[0], fields[..n]) && SayAll(tags[1..], fields[n..])
  }

  lemma {:induction false} FirstSaidIsRead(tags: seq<ByteString>, fields: seq<Field>, n: nat)
    requires tags != [] && n <= |fields| && TagFields(tags[0]) == fields[..n] && TagsFields(tags[1..]) == fields[n..]
    ensures TagsFields(tags) == fields
  {
    assert fields == fields[..n] + fields[n..];
  }

  lemma {:induction false} SaidIsRead(tags: seq<ByteString>, fields: seq<Field>)
    requires SayAll(tags, fields)
    ensures TagsFields(tags) == fields
    decreases |tags|
  {
    if tags != [] {
      var n: nat :| n <= |fields| && Says(tags[0], fields[..n]) && SayAll(tags[1..], fields[n..]);
      TagFieldsMeaning(tags[0], fields[..n]);
      SaidIsRead(tags[1..], fields[n..]);
      FirstSaidIsRead(tags, fields, n);
    }
  }

  lemma {:induction false} ReadIsSaid(tags: seq<ByteString>)
    ensures SayAll(tags, TagsFields(tags))
    decreases |tags|
  {
    if tags != [] {
      var fields, n := TagsFields(tags), |TagFields(tags[0])|;
      assert fields[..n] == TagFields(tags[0]) && fields[n..] == TagsFields(tags[1..]);
      TagFieldsMeaning(tags[0], fields[..n]);
      ReadIsSaid(tags[1..]);
    }
  }

  /** The form fields of any page: what its tags say, the arguments of its calls, and the token of
      the first of its scripts that gives one by itself. */
  lemma {:induction false} FormFieldsMeaning(html: ByteString, ts: seq<Extent>, said: seq<Field>, cs: seq<Call>,
                                             ss: seq<Script>, given: seq<Field>)
    requires AreTags(html, 0, ts) && SayAll(Texts(html, ts), said)
    requires AreCalls(html, 0, cs)
    requires AreScripts(html, 0, ss) && GivesFields(Bodies(html, ss), given)
    ensures FormFieldsOf(html) == said + FieldsAt(html, cs) + given
  {
    TagsRead(html, 0, ts);
    SaidIsRead(Texts(html, ts), said);
    CallsRead(html, 0, cs);
    ThirdPassMeaning(html, ss);
    TokenOfMeaning(Bodies(html, ss), given);
  }

  /** Every page has tags, calls and scripts in this sense. */
  lemma {:induction false} PageHasParts(html: ByteString)
    returns (ts: seq<Extent>, said: seq<Field>, cs: seq<Call>, ss: seq<Script>, given: seq<Field>)
    ensures AreTags(html, 0, ts) && SayAll(Texts(html, ts), said)
    ensures AreCalls(html, 0, cs)
    ensures AreScripts(html, 0, ss) && GivesFields(Bodies(html, ss), given)
  {
    ts := TagsExist(html, 0);
    said := TagsFields(Texts(html, ts));
    ReadIsSaid(Texts(html, ts));
    cs := CallsExist(html, 0);
    ss := ScriptsFound(html, 0);
    given := TokenOf(Bodies(html, ss));
    TokenIsGiven(Bodies(html, ss));
  }
}
