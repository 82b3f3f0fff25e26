/** The patterns that read form fields out of a router page, and the fields they give. */
module FormPatterns {
  import opened Bytes
  import opened Regex
  import opened UrlForm

  const TOKEN_NAME: ByteString := "_SESSION_TOKEN"

  // <input\b[^>]*>   (icase)
  const INPUT_REST: Regex := Star(NotGreater, false, Literal(">", true, Accept))
  const INPUT_TAG: Regex := Literal("<input", true, Boundary(INPUT_REST))

  /** (["'])(.*?)\1 and then the rest; the quote is marks a..a+1, the text a+1..a+2. */
  function QuotedGroup(a: nat, rest: Regex): Regex {
    Mark(a, One(Quotes, Mark(a + 1, Star(NotLineEnd, true, GroupClose(a, rest)))))
  }

  function GroupClose(a: nat, rest: Regex): Regex {
    Mark(a + 2, BackRef(a, a + 1, rest))
  }

  function SpacedGroup(a: nat, rest: Regex): Regex {
    Star(Spaces, false, QuotedGroup(a, rest))
  }

  function Spaced(word: ByteString, rest: Regex): Regex {
    Star(Spaces, false, Literal(word, true, rest))
  }

  // \bNAME\s*=\s*(["'])(.*?)\1   (icase)
  const ATTRIBUTE_TAIL: Regex := Spaced("=", SpacedGroup(0, Accept))

  function Attribute(name: ByteString): Regex {
    Boundary(Literal(name, true, ATTRIBUTE_TAIL))
  }

  // createHiddenInput\s*\(\s*(["'])(.*?)\1\s*,\s*(["'])(.*?)\3\s*\)   (icase)
  /** A name and two quoted groups in a call's parentheses. */
  function CallPattern(head: ByteString, open: ByteString, comma: ByteString, close: ByteString): Regex {
    Literal(head, true, Spaced(open, SpacedGroup(0, CallTail(comma, close))))
  }

  function CallTail(comma: ByteString, close: ByteString): Regex {
    Spaced(comma, SpacedGroup(3, Spaced(close, Accept)))
  }

  const CALL_WORD: ByteString := "createHiddenInput"
  const HIDDEN_INPUT: Regex := CallPattern(CALL_WORD, "(", ",", ")")

  // <script\b[^>]*>([\s\S]*?)</script\s*>   (icase)
  const SCRIPT_CLOSE: Regex := Mark(1, Literal("</script", true, Spaced(">", Accept)))
  const SCRIPT_BODY: Regex := Mark(0, Star(Anything, true, SCRIPT_CLOSE))
  const SCRIPT: Regex :=
    Literal("<script", true, Boundary(Star(NotGreater, false, Literal(">", true, SCRIPT_BODY))))

  /** An opening quote, then text free of quotes that begins at mark 1. */
  function QuotedLiteral(close: Regex): Regex {
    Mark(0, One(Quotes, Mark(1, Star(NotQuotes, false, close))))
  }

  /** The quote that opened the literal, then optional space and a terminator. */
  function LiteralClose(terminator: ByteString): Regex {
    Mark(2, BackRef(0, 1, Star(Spaces, false, Literal(terminator, false, Accept))))
  }

  /** A keyword, white space, and two words before the rest. */
  function DeclarationOf(v: ByteString, s: ByteString, e: ByteString, rest: Regex): Regex {
    Boundary(Literal(v, false,
      One(Spaces, Star(Spaces, false, Literal(s, false, Star(Spaces, false, Literal(e, false, rest)))))))
  }

  // \bvar\s+session_token\s*=\s*(["'])([^"']*)\1\s*;
  const TOKEN_DECLARATION: Regex :=
    DeclarationOf("var", "session_token", "=", Star(Spaces, false, QuotedLiteral(LiteralClose(";"))))

  /** A key in quotes of either kind, recorded as marks a..b. */
  function QuotedKey(key: ByteString, a: nat, b: nat, next: Regex): Regex {
    Mark(a, One(Quotes, Mark(b, Literal(key, false, BackRef(a, b, next)))))
  }

  /** Three words, a quoted key and a fourth word, each after optional space. */
  function FiveWords(u: ByteString, v: ByteString, w: ByteString, key: ByteString, x: ByteString, rest: Regex): Regex {
    Star(Spaces, false, Literal(u, false, Star(Spaces, false, Literal(v, false, Star(Spaces, false, Literal(w, false,
      Star(Spaces, false, QuotedKey(key, 2, 3, Star(Spaces, false, Literal(x, false, rest))))))))))
  }

  // \s*\.\s*setAttribute\s*\(\s*(["'])KEY\1\s*,\s*REST
  function SetAttribute(key: ByteString, rest: Regex): Regex {
    FiveWords(".", "setAttribute", "(", key, ",", Star(Spaces, false, rest))
  }

  /** An identifier, recorded as marks 0..1. */
  function Identifier(next: Regex): Regex {
    Mark(0, One(IdentHead, Star(IdentTail, false, Mark(1, next))))
  }

  const CLOSE_CALL: Regex := Star(Spaces, false, Literal(")", false, Accept))

  // \b([A-Za-z_$][A-Za-z0-9_$]*)\s*\.\s*setAttribute\s*\(\s*(["'])name\2\s*,\s*(["'])_SESSION_TOKEN\3\s*\)
  const NAME_CALL: Regex := SetAttribute("name", QuotedKey("_SESSION_TOKEN", 4, 5, CLOSE_CALL))
  const NAME_ASSIGNMENT: Regex := Boundary(Identifier(NAME_CALL))

  // \bIDENTIFIER\s*\.\s*setAttribute\s*\(\s*(["'])value\1\s*,\s*session_token\s*\)
  const VALUE_CALL: Regex := SetAttribute("value", Literal("session_token", false, CLOSE_CALL))

  function ValueAssignment(identifier: ByteString): Regex {
    Boundary(Spliced(identifier, VALUE_CALL))
  }

  // ---- The three passes ----

  /** extractAttribute: the first quoted value of the attribute, or nothing. */
  function AttributeValue(tag: ByteString, name: ByteString): ByteString {
    match Search(Attribute(name), tag, 0)
    case Some(m) => Between(tag, m.marks, 1, 2)
    case None => []
  }

  function TagFields(tag: ByteString): seq<Field> {
    var name := AttributeValue(tag, "name");
    if name == [] then [] else [Field(name, AttributeValue(tag, "value"))]
  }

  function MatchText(text: ByteString, m: Match): ByteString {
    if m.start <= m.end <= |text| then text[m.start..m.end] else []
  }

  function TagTexts(html: ByteString, ms: seq<Match>): seq<ByteString> {
    seq(|ms|, i requires 0 <= i < |ms| => MatchText(html, ms[i]))
  }

  function TagsFields(tags: seq<ByteString>): seq<Field> {
    if tags == [] then [] else TagFields(tags[0]) + TagsFields(tags[1..])
  }

  function InputFields(html: ByteString, ms: seq<Match>): seq<Field> {
    TagsFields(TagTexts(html, ms))
  }

  function HiddenField(html: ByteString, m: Match): Field {
    Field(Between(html, m.marks, 1, 2), Between(html, m.marks, 4, 5))
  }

  function HiddenFields(html: ByteString, ms: seq<Match>): seq<Field> {
    seq(|ms|, i requires 0 <= i < |ms| => HiddenField(html, ms[i]))
  }

  /** The token that one script gives: the first declared literal, provided the pattern into which
      the identifier that first takes the name is spliced finds something. */
  function ScriptToken(script: ByteString): Option<ByteString> {
    var declared := Search(TOKEN_DECLARATION, script, 0);
    var named := Search(NAME_ASSIGNMENT, script, 0);
    if declared.None? || named.None? then None
    else
      var identifier := Between(script, named.value.marks, 0, 1);
      if Search(ValueAssignment(identifier), script, 0).Some?
      then Some(Between(script, declared.value.marks, 1, 2)) else None
  }

  function ScriptBody(html: ByteString, m: Match): ByteString {
    Between(html, m.marks, 0, 1)
  }

  /** The token of the first script that gives one. */
  function ScriptFields(html: ByteString, ms: seq<Match>): seq<Field> {
    if ms == [] then []
    else match ScriptToken(ScriptBody(html, ms[0]))
      case Some(token) => [Field(TOKEN_NAME, token)]
      case None => ScriptFields(html, ms[1..])
  }

  function FormFieldsOf(html: ByteString): seq<Field> {
    InputFields(html, FindAll(INPUT_TAG, html, 0))
    + HiddenFields(html, FindAll(HIDDEN_INPUT, html, 0))
    + ScriptFields(html, FindAll(SCRIPT, html, 0))
  }

  method ExtractFormFields(html: ByteString) returns (fields: FormFields)
    ensures fresh(fields) && fields.items == FormFieldsOf(html)
  {
    fields := CollectFields(html, FindAll(INPUT_TAG, html, 0), FindAll(HIDDEN_INPUT, html, 0),
                            FindAll(SCRIPT, html, 0));
  }

  method CollectFields(html: ByteString, tags: seq<Match>, calls: seq<Match>, scripts: seq<Match>)
    returns (fields: FormFields)
    ensures fresh(fields)
    ensures fields.items == InputFields(html, tags) + HiddenFields(html, calls) + ScriptFields(html, scripts)
  {
    fields := new FormFields([]);
    AppendInputs(fields, html, tags);
    assert fields.items == InputFields(html, tags);
    AppendHidden(fields, html, calls);
    AppendScriptToken(fields, html, scripts);
  }

  lemma {:induction false} TagStep(before: seq<Field>, tags: seq<ByteString>, i: nat)
    requires i < |tags|
    ensures before + TagsFields(tags[i..]) == (before + TagFields(tags[i])) + TagsFields(tags[i + 1..])
  {
    assert tags[i..][1..] == tags[i + 1..];
  }

  method AppendTag(fields: FormFields, tag: ByteString)
    modifies fields
    ensures fields.items == old(fields.items) + TagFields(tag)
  {
    var name := AttributeValue(tag, "name");
    if name != [] {
      var value := AttributeValue(tag, "value");
      fields.Append(name, value);
    }
  }

  /** First pass: literal input tags. */
  method AppendInputs(fields: FormFields, html: ByteString, ms: seq<Match>)
    modifies fields
    ensures fields.items == old(fields.items) + InputFields(html, ms)
  {
    ghost var tags := TagTexts(html, ms);
    for i := 0 to |ms|
      invariant fields.items + TagsFields(tags[i..]) == old(fields.items) + TagsFields(tags)
    {
      TagStep(fields.items, tags, i);
      AppendTag(fields, MatchText(html, ms[i]));
    }
  }

  /** Second pass: createHiddenInput calls. */
  method AppendHidden(fields: FormFields, html: ByteString, ms: seq<Match>)
    modifies fields
    ensures fields.items == old(fields.items) + HiddenFields(html, ms)
  {
    for i := 0 to |ms|
      invariant fields.items == old(fields.items) + HiddenFields(html, ms)[..i]
    {
      fields.Append(Between(html, ms[i].marks, 1, 2), Between(html, ms[i].marks, 4, 5));
    }
  }

  /** Third pass: the token that a script sets on an element. */
  method AppendScriptToken(fields: FormFields, html: ByteString, ms: seq<Match>)
    modifies fields
    ensures fields.items == old(fields.items) + ScriptFields(html, ms)
  {
    for i := 0 to |ms|
      invariant fields.items == old(fields.items)
      invariant ScriptFields(html, ms[i..]) == ScriptFields(html, ms)
    {
      assert ms[i..][1..] == ms[i + 1..];
      var token := ScriptToken(ScriptBody(html, ms[i]));
      if token.Some? {
        fields.Append(TOKEN_NAME, token.value);
        return;
      }
    }
  }
}
