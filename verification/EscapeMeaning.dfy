/** What the two unescaping loops read, stated on texts: which texts are escapes, which byte each gives,
    and that every other byte is kept. */
module EscapeMeaning {
  import opened Bytes
  import opened Numbers
  import opened Escapes

  // ---- &#d; ----

  /** An entity: at most four bytes before its semicolon, which read as a numeral. */
  ghost predicate EntityOf(e: ByteString, d: ByteString, space: ByteString, sign: ByteString, digits: ByteString,
                           tail: ByteString, v: int) {
    && e == "&#" + d + ";" && |d| <= 4 && ';' !in d && ReadsAs(d, space, sign, digits, tail)
    && var n: int := DigitsValue(digits); v == if sign == ['-'] then -n else n
  }

  ghost predicate IsEntity(e: ByteString, v: int) {
    exists d, space, sign, digits, tail :: EntityOf(e, d, space, sign, digits, tail, v)
  }

  lemma {:induction false} ShortIsSmall(s: ByteString)
    requires AllDigits(s) && |s| <= 4
    ensures DigitsValue(s) <= if |s| == 0 then 0 else if |s| == 1 then 9 else if |s| == 2 then 99
                              else if |s| == 3 then 999 else 9999
  {
    if s != [] {
      assert s[|s| - 1] in s;
      ShortIsSmall(s[..|s| - 1]);
    }
  }

  /** The entity that stands at the start of a text. */
  lemma {:induction false} EntityAhead(d: ByteString, rest: ByteString, v: int)
    requires ';' !in d && d != [] && |d| <= 4 && Stoi(d) == Parsed(v)
    ensures var t := "&#" + d + ";" + rest;
            HtmlEntity(t) == Some(Entity(v, |d| + 3)) && t[|d| + 3..] == rest
  {
    var t := "&#" + d + ";" + rest;
    assert t[0] == '&' && t[1] == '#' && t[2..2 + |d|] == d && t[2 + |d|] == ';';
    FindSeparator(t, ';', 2, 2 + |d|);
  }

  /** An entity becomes the byte of its code, modulo 256. */
  lemma {:induction false} EntityReads(e: ByteString, v: int, rest: ByteString) returns (c: byte)
    requires IsEntity(e, v)
    ensures c as int == v % 256 && HtmlText(e + rest) == [c] + HtmlText(rest)
  {
    var d, space, sign, digits, tail :| EntityOf(e, d, space, sign, digits, tail, v);
    assert |digits| <= |d|;
    ShortIsSmall(digits);
    StoiReads(d, space, sign, digits, tail);
    EntityAhead(d, rest, v);
    c := CastToByte(v);
    var t := e + rest;
    assert t == "&#" + d + ";" + rest;
    assert HtmlText(t) == [c] + HtmlText(t[|d| + 3..]);
  }

  lemma {:induction false} HeadIsEntity(s: ByteString)
    requires HtmlEntity(s).Some?
    ensures exists e, v :: IsEntity(e, v) && e <= s
  {
    var semi := Find(s, ";", 2).value;
    var d, e := s[2..semi], s[..semi + 1];
    var space, sign, digits, tail := StoiDecomposes(d);
    forall j | 2 <= j < semi ensures s[j] != ';' {
      assert !OccursAt(s, ";", j);
      assert s[j..j + 1] == [s[j]];
    }
    assert s[semi..semi + 1] == ";";
    assert e == "&#" + d + ";";
    var n: int := DigitsValue(digits);
    var v: int := if sign == ['-'] then -n else n;
    assert EntityOf(e, d, space, sign, digits, tail, v);
    assert IsEntity(e, v);
  }

  /** A byte at which no entity starts is kept. */
  lemma {:induction false} NoEntityKeeps(c: byte, rest: ByteString)
    requires forall e, v :: IsEntity(e, v) ==> !(e <= [c] + rest)
    ensures HtmlText([c] + rest) == [c] + HtmlText(rest)
  {
    var s := [c] + rest;
    if HtmlEntity(s).Some? { HeadIsEntity(s); }
    assert s[1..] == rest;
  }

  // ---- \xHH ----

  /** An escape: two bytes after its mark, which read as a numeral in base sixteen. */
  ghost predicate EscapeOf(e: ByteString, d: ByteString, space: ByteString, sign: ByteString, mark: ByteString,
                           digits: ByteString, tail: ByteString, v: int) {
    && e == "\\x" + d && |d| == 2 && ReadsAsHex(d, space, sign, mark, digits, tail)
    && var n := HexNumber(digits); v == if sign == ['-'] then -n else n
  }

  ghost predicate IsEscape(e: ByteString, v: int) {
    exists d, space, sign, mark, digits, tail :: EscapeOf(e, d, space, sign, mark, digits, tail, v)
  }

  lemma {:induction false} ShortHexIsSmall(s: ByteString)
    requires AllHex(s) && |s| <= 2
    ensures 0 <= HexNumber(s) <= if |s| == 0 then 0 else if |s| == 1 then 15 else 255
  {
    if s != [] {
      assert s[|s| - 1] in s;
      ShortHexIsSmall(s[..|s| - 1]);
    }
  }

  /** An escape becomes the byte of its code, modulo 256. */
  lemma {:induction false} EscapeReads(e: ByteString, v: int, rest: ByteString) returns (c: byte)
    requires IsEscape(e, v)
    ensures c as int == v % 256 && ZteText(e + rest) == [c] + ZteText(rest)
  {
    var d, space, sign, mark, digits, tail :| EscapeOf(e, d, space, sign, mark, digits, tail, v);
    assert |digits| <= |d|;
    ShortHexIsSmall(digits);
    StoiHexReads(d, space, sign, mark, digits, tail);
    c := CastToByte(v);
    var t := e + rest;
    assert t[0] == '\\' && t[1] == 'x' && t[2..4] == d && t[4..] == rest;
    assert ZteText(t) == [c] + ZteText(t[4..]);
  }

  lemma {:induction false} HeadIsEscape(s: ByteString)
    requires ZteEscape(s).Some?
    ensures exists e, v :: IsEscape(e, v) && e <= s
  {
    var d, e := s[2..4], s[..4];
    StoiHexRejects(d);
    var space, sign, mark, digits, tail :| ReadsAsHex(d, space, sign, mark, digits, tail);
    assert e == "\\x" + d;
    var v: int := if sign == ['-'] then -HexNumber(digits) else HexNumber(digits);
    assert EscapeOf(e, d, space, sign, mark, digits, tail, v);
    assert IsEscape(e, v);
  }

  /** A byte at which no escape starts is kept. */
  lemma {:induction false} NoEscapeKeeps(c: byte, rest: ByteString)
    requires forall e, v :: IsEscape(e, v) ==> !(e <= [c] + rest)
    ensures ZteText([c] + rest) == [c] + ZteText(rest)
  {
    var s := [c] + rest;
    if ZteEscape(s).Some? { HeadIsEscape(s); }
    assert s[1..] == rest;
  }
}
