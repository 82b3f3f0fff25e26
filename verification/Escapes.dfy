/** The two escape notations of the router's pages: `\xHH` in script strings and `&#d;`
    in HTML text. */
module Escapes {
  import opened Bytes
  import opened Numbers
  import opened UrlForm

  // ---- \xHH ----

  predicate AllHex(s: ByteString) {
    forall c :: c in s ==> IsHex(c)
  }

  function HexNumber(s: ByteString): int
    requires AllHex(s)
  {
    if s == [] then 0
    else
      var c := s[|s| - 1];
      assert c in s;
      16 * HexNumber(s[..|s| - 1]) + HexValue(c)
  }

  function HexPrefix(s: ByteString): (d: ByteString)
    ensures AllHex(d)
  {
    if s != [] && IsHex(s[0]) then [s[0]] + HexPrefix(s[1..]) else []
  }

  /** `0x` is a mark of base sixteen only when a digit follows it. */
  predicate Marked(s: ByteString) {
    |s| > 2 && s[0] == '0' && (s[1] == 'x' || s[1] == 'X') && IsHex(s[2])
  }

  /** What the text after white space and sign gives. */
  function HexResult(u: ByteString, negative: bool): StoiResult {
    var digits := HexPrefix(if Marked(u) then u[2..] else u);
    if digits == [] then InvalidArgument else InRange(HexNumber(digits), negative)
  }

  function InRange(n: int, negative: bool): StoiResult {
    var v := if negative then -n else n;
    if INT_MIN <= v <= INT_MAX then Parsed(v) else OutOfRange
  }

  /** std::stoi(_, nullptr, 16). */
  function StoiHex(s: ByteString): StoiResult {
    var t := SkipSpaces(s);
    if t != [] && (t[0] == '-' || t[0] == '+') then HexResult(t[1..], t[0] == '-') else HexResult(t, false)
  }

  /** Perhaps `0x`, the digits, and text that does not go on with a digit. */
  ghost predicate HexTail(u: ByteString, mark: ByteString, digits: ByteString, rest: ByteString) {
    && u == mark + (digits + rest)
    && (mark == [] || mark == ['0', 'x'] || mark == ['0', 'X'])
    && (mark == [] ==> !Marked(u))
    && digits != [] && AllHex(digits)
    && (rest == [] || !IsHex(rest[0]))
  }

  /** A numeral in base sixteen: white space, at most one sign, and then mark and digits. */
  ghost predicate ReadsAsHex(s: ByteString, space: ByteString, sign: ByteString, mark: ByteString, digits: ByteString,
                             rest: ByteString) {
    && s == space + (sign + (mark + (digits + rest)))
    && (forall c :: c in space ==> IsSpace(c))
    && (sign == [] || sign == ['-'] || sign == ['+'])
    && HexTail(mark + (digits + rest), mark, digits, rest)
  }

  lemma {:induction false} HexPrefixIs(digits: ByteString, rest: ByteString)
    requires AllHex(digits) && (rest == [] || !IsHex(rest[0]))
    ensures HexPrefix(digits + rest) == digits
  {
    if digits == [] {
      assert digits + rest == rest;
    } else {
      assert (digits + rest)[0] == digits[0] && (digits + rest)[1..] == digits[1..] + rest;
      HexPrefixIs(digits[1..], rest);
    }
  }

  lemma {:induction false} TailGives(u: ByteString, mark: ByteString, digits: ByteString, rest: ByteString,
                                     negative: bool)
    requires HexTail(u, mark, digits, rest)
    ensures HexResult(u, negative) == InRange(HexNumber(digits), negative) && u != [] && IsHex(u[0])
  {
    assert IsHex(digits[0]);
    HexPrefixIs(digits, rest);
    if mark == [] { assert u == digits + rest; } else { assert u[2] == digits[0] && u[2..] == digits + rest; }
  }

  lemma {:induction false} SignSplit(t: ByteString, sign: ByteString, u: ByteString)
    requires t == sign + u && u != [] && IsHex(u[0]) && (sign == [] || sign == ['-'] || sign == ['+'])
    ensures t != []
    ensures (t[0] == '-' || t[0] == '+') <==> sign != []
    ensures sign == [] ==> t == u
    ensures sign != [] ==> t[1..] == u && (t[0] == '-' <==> sign == ['-'])
    ensures !IsSpace(t[0])
  {
    assert t[0] == if sign == [] then u[0] else sign[0];
  }

  /** However a text reads as a numeral in base sixteen, stoi gives the signed value of its digits, or
      is out of the range of int. */
  lemma {:induction false} StoiHexReads(s: ByteString, space: ByteString, sign: ByteString, mark: ByteString,
                                        digits: ByteString, rest: ByteString)
    requires ReadsAsHex(s, space, sign, mark, digits, rest)
    ensures var v := if sign == ['-'] then -HexNumber(digits) else HexNumber(digits);
            StoiHex(s) == if -2147483648 <= v <= 2147483647 then Parsed(v) else OutOfRange
  {
    var u := mark + (digits + rest);
    var t := sign + u;
    TailGives(u, mark, digits, rest, sign == ['-']);
    SignSplit(t, sign, u);
    SkipSpacesIs(space, t);
  }

  lemma {:induction false} PrefixedHex(s: ByteString) returns (rest: ByteString)
    ensures s == HexPrefix(s) + rest && (rest == [] || !IsHex(rest[0]))
  {
    if s != [] && IsHex(s[0]) {
      rest := PrefixedHex(s[1..]);
      assert s == [s[0]] + s[1..];
    } else {
      rest := s;
    }
  }

  ghost predicate IsHexNumeral(s: ByteString) {
    exists space, sign, mark, digits, rest :: ReadsAsHex(s, space, sign, mark, digits, rest)
  }

  lemma {:induction false} TailDecomposes(u: ByteString, negative: bool)
    returns (mark: ByteString, digits: ByteString, rest: ByteString)
    requires HexResult(u, negative) != InvalidArgument
    ensures HexTail(u, mark, digits, rest)
  {
    mark := if Marked(u) then u[..2] else [];
    var w := u[|mark|..];
    assert u == mark + w;
    digits := HexPrefix(w);
    rest := PrefixedHex(w);
  }

  lemma {:induction false} StoiHexDecomposes(s: ByteString)
    requires StoiHex(s) != InvalidArgument
    ensures IsHexNumeral(s)
  {
    var t := SkipSpaces(s);
    var space := SkippedSpaces(s);
    var sign: ByteString := if t != [] && (t[0] == '-' || t[0] == '+') then [t[0]] else [];
    var u := t[|sign|..];
    assert t == sign + u;
    var mark, digits, rest := TailDecomposes(u, sign == ['-']);
    assert ReadsAsHex(s, space, sign, mark, digits, rest);
  }

  /** Stoi in base sixteen rejects exactly the texts that do not read as such a numeral. */
  lemma {:induction false} StoiHexRejects(s: ByteString)
    ensures StoiHex(s) == InvalidArgument <==> !IsHexNumeral(s)
  {
    if IsHexNumeral(s) {
      var space, sign, mark, digits, rest :| ReadsAsHex(s, space, sign, mark, digits, rest);
      StoiHexReads(s, space, sign, mark, digits, rest);
    }
    if StoiHex(s) != InvalidArgument { StoiHexDecomposes(s); }
  }

  lemma {:induction false} TwoHexDigits(a: byte, b: byte)
    requires IsHex(a) && IsHex(b)
    ensures StoiHex([a, b]) == Parsed(16 * HexValue(a) + HexValue(b))
  {
    var digits: ByteString := [a, b];
    assert digits == [] + ([] + ([] + (digits + [])));
    assert digits + [] == digits;
    StoiHexReads(digits, [], [], [], digits, []);
    assert digits[..1] == [a] && [a][..0] == [];
    assert HexNumber([a]) == HexValue(a);
  }

  /** The escape that `s` begins with, if its digits parse. */
  function ZteEscape(s: ByteString): Option<int> {
    if |s| > 3 && s[0] == '\\' && s[1] == 'x'
    then match StoiHex(s[2..4]) case Parsed(code) => Some(code) case _ => None
    else None
  }

  function ZteText(s: ByteString): ByteString {
    if s == [] then []
    else match ZteEscape(s)
      case Some(code) => [CastToByte(code)] + ZteText(s[4..])
      case None => [s[0]] + ZteText(s[1..])
  }

  method UnescapeZteStr(str: ByteString) returns (res: ByteString)
    ensures res == ZteText(str)
  {
    res := [];
    var i := 0;
    while i < |str|
      invariant 0 <= i <= |str|
      invariant res + ZteText(str[i..]) == ZteText(str)
    {
      ZteStep(res, str, i);
      if str[i] == '\\' && i + 3 < |str| && str[i + 1] == 'x' {
        match StoiHex(str[i + 2..i + 4])
        case Parsed(code) =>
          res := res + [CastToByte(code)];
          i := i + 4;
        case _ =>
          res := res + [str[i]];
          i := i + 1;
      } else {
        res := res + [str[i]];
        i := i + 1;
      }
    }
  }

  lemma {:induction false} ZteStep(res: ByteString, str: ByteString, i: nat)
    requires i < |str|
    ensures ZteEscape(str[i..]) ==
            if str[i] == '\\' && i + 3 < |str| && str[i + 1] == 'x'
            then match StoiHex(str[i + 2..i + 4]) case Parsed(code) => Some(code) case _ => None
            else None
    ensures ZteEscape(str[i..]).Some? ==>
              i + 3 < |str| &&
              res + ZteText(str[i..]) == (res + [CastToByte(ZteEscape(str[i..]).value)]) + ZteText(str[i + 4..])
    ensures ZteEscape(str[i..]).None? ==> res + ZteText(str[i..]) == (res + [str[i]]) + ZteText(str[i + 1..])
  {
    var s := str[i..];
    assert s[1..] == str[i + 1..];
    if |s| > 3 { assert s[4..] == str[i + 4..] && s[2..4] == str[i + 2..i + 4]; }
  }

  function LowerHex(n: nat): (c: byte)
    requires n < 16
    ensures IsHex(c) && HexValue(c) == n && IsAlnum(c)
  {
    if n < 10 then FromCode('0' as int + n) else FromCode('a' as int + n - 10)
  }

  function ZteEscaped(s: ByteString): ByteString {
    if s == [] then []
    else (if IsAlnum(s[0]) then [s[0]] else ['\\', 'x', LowerHex(s[0] as int / 16), LowerHex(s[0] as int % 16)])
         + ZteEscaped(s[1..])
  }

  lemma {:induction false} EscapedByte(c: byte, t: ByteString)
    requires |t| > 3 && t[..4] == ['\\', 'x', LowerHex(c as int / 16), LowerHex(c as int % 16)]
    ensures ZteEscape(t) == Some(c as int)
  {
    var a, b := LowerHex(c as int / 16), LowerHex(c as int % 16);
    assert t[0] == t[..4][0] && t[1] == t[..4][1];
    assert t[2..4] == t[..4][2..4] == [a, b];
    TwoHexDigits(a, b);
  }

  lemma {:induction false} ZteRoundTrip(s: ByteString)
    ensures ZteText(ZteEscaped(s)) == s
  {
    if s != [] {
      ZteRoundTrip(s[1..]);
      var t, rest := ZteEscaped(s), ZteEscaped(s[1..]);
      if IsAlnum(s[0]) {
        assert t[0] == s[0] && t[1..] == rest;
      } else {
        EscapedByte(s[0], t);
        assert t[4..] == rest;
      }
    }
  }

  lemma {:induction false} ZteEscapedAlphabet(s: ByteString)
    ensures forall c :: c in ZteEscaped(s) ==> IsAlnum(c) || c == '\\'
  {
    if s != [] { ZteEscapedAlphabet(s[1..]); }
  }

  lemma {:induction false} ZteIdentity(s: ByteString)
    requires '\\' !in s
    ensures ZteText(s) == s
  {
    if s != [] { ZteIdentity(s[1..]); }
  }

  lemma {:induction false} ZteNeverLengthens(s: ByteString)
    ensures |ZteText(s)| <= |s|
    decreases |s|
  {
    if s != [] { ZteNeverLengthens(s[if ZteEscape(s).Some? then 4 else 1..]); }
  }

  // ---- &#d; ----

  datatype Entity = Entity(code: int, length: nat)

  /** The entity that `s` begins with: at most four characters before the semicolon, and
      they parse as a number. */
  function HtmlEntity(s: ByteString): (r: Option<Entity>)
    ensures r.Some? ==> 2 < r.value.length <= |s|
  {
    if |s| > 2 && s[0] == '&' && s[1] == '#' then
      match Find(s, ";", 2)
      case Some(semi) =>
        if semi <= 6 && Stoi(s[2..semi]).Parsed? then Some(Entity(Stoi(s[2..semi]).value, semi + 1)) else None
      case None => None
    else None
  }

  function HtmlText(s: ByteString): ByteString {
    if s == [] then []
    else match HtmlEntity(s)
      case Some(e) => [CastToByte(e.code)] + HtmlText(s[e.length..])
      case None => [s[0]] + HtmlText(s[1..])
  }

  /** One try at position `i`: the entity there, if its number parses. */
  method ReadEntity(str: ByteString, i: nat) returns (entity: Option<Entity>)
    requires i < |str|
    ensures entity == HtmlEntity(str[i..])
  {
    HtmlEntityAt(str, i);
    if str[i] == '&' && i + 2 < |str| && str[i + 1] == '#' {
      var semi := Find(str, ";", i + 2);
      if semi.Some? && semi.value - i <= 6 {
        var code := Stoi(str[i + 2..semi.value]);
        if code.Parsed? { return Some(Entity(code.value, semi.value - i + 1)); }
      }
    }
    return None;
  }

  /** One turn of the loop: the byte to append, and how far to move on. */
  method NextByte(str: ByteString, i: nat) returns (c: byte, n: nat)
    requires i < |str|
    ensures 0 < n <= |str| - i && HtmlText(str[i..]) == [c] + HtmlText(str[i + n..])
  {
    HtmlStep(str, i);
    var entity := ReadEntity(str, i);
    match entity
    case Some(e) => c, n := CastToByte(e.code), e.length;
    case None => c, n := str[i], 1;
  }

  method UnescapeHtmlEntities(str: ByteString) returns (res: ByteString)
    ensures res == HtmlText(str)
  {
    res := [];
    var i := 0;
    assert str[0..] == str;
    while i < |str|
      invariant 0 <= i <= |str|
      invariant res + HtmlText(str[i..]) == HtmlText(str)
    {
      var c, n := NextByte(str, i);
      Regroup(res, [c], HtmlText(str[i + n..]));
      res := res + [c];
      i := i + n;
    }
    assert HtmlText(str[i..]) == [];
  }

  lemma {:induction false} Regroup(a: ByteString, b: ByteString, c: ByteString)
    ensures a + (b + c) == (a + b) + c
  {
  }

  lemma {:induction false} OccursShift(t: ByteString, p: ByteString, i: nat, j: nat)
    requires i <= |t|
    ensures OccursAt(t, p, i + j) <==> OccursAt(t[i..], p, j)
  {
    if i + j + |p| <= |t| { assert t[i..][j..j + |p|] == t[i + j..i + j + |p|]; }
  }

  lemma {:induction false} AbsentShift(t: ByteString, p: ByteString, i: nat, from: nat, k: nat, j: nat)
    requires i <= |t| && Find(t[i..], p, from) == Some(k) && i + from <= j < i + k
    ensures !OccursAt(t, p, j)
  {
    OccursShift(t, p, i, j - i);
  }

  lemma {:induction false} FoundShift(t: ByteString, p: ByteString, i: nat, from: nat, k: nat)
    requires i <= |t| && Find(t[i..], p, from) == Some(k)
    ensures Find(t, p, i + from) == Some(i + k)
  {
    OccursShift(t, p, i, k);
    forall j: nat | i + from <= j < i + k ensures !OccursAt(t, p, j) { AbsentShift(t, p, i, from, k, j); }
    FindIs(t, p, i + from, i + k);
  }

  /** Searching a suffix is searching the whole text from there. */
  lemma {:induction false} FindShift(t: ByteString, p: ByteString, i: nat, from: nat)
    requires i <= |t|
    ensures Find(t, p, i + from) ==
            match Find(t[i..], p, from) case Some(k) => Some(i + k) case None => None
  {
    match Find(t[i..], p, from)
    case Some(k) => FoundShift(t, p, i, from, k);
    case None =>
      match Find(t, p, i + from)
      case Some(k) => OccursShift(t, p, i, k - i);
      case None =>
  }

  /** The entity at position `i`, in terms of positions of the whole text. */
  lemma {:induction false} HtmlEntityAt(str: ByteString, i: nat)
    requires i < |str|
    ensures var semi := Find(str, ";", i + 2);
            HtmlEntity(str[i..]) ==
            if str[i] == '&' && i + 2 < |str| && str[i + 1] == '#' && semi.Some? && semi.value - i <= 6
               && Stoi(str[i + 2..semi.value]).Parsed?
            then Some(Entity(Stoi(str[i + 2..semi.value]).value, semi.value - i + 1)) else None
  {
    var s := str[i..];
    FindShift(str, ";", i, 2);
    if i + 2 < |str| && Find(s, ";", 2).Some? {
      var k := Find(s, ";", 2).value;
      assert s[2..k] == str[i + 2..i + k];
    }
  }

  lemma {:induction false} HtmlStep(str: ByteString, i: nat)
    requires i < |str|
    ensures HtmlText(str[i..]) ==
            match HtmlEntity(str[i..])
            case Some(e) => [CastToByte(e.code)] + HtmlText(str[i + e.length..])
            case None => [str[i]] + HtmlText(str[i + 1..])
  {
    var s := str[i..];
    assert s[1..] == str[i + 1..];
    match HtmlEntity(s)
    case Some(e) => assert s[e.length..] == str[i + e.length..];
    case None =>
  }

  function HtmlEscaped(s: ByteString): ByteString {
    if s == [] then [] else "&#" + Decimal(s[0] as int) + ";" + HtmlEscaped(s[1..])
  }

  lemma {:induction false} HtmlRoundTrip(s: ByteString)
    ensures HtmlText(HtmlEscaped(s)) == s
  {
    if s != [] {
      HtmlRoundTrip(s[1..]);
      var t, k := HtmlEscaped(s), |Decimal(s[0] as int)| + 3;
      EntityOfByte(s[0], HtmlEscaped(s[1..]));
      assert t[k..] == HtmlEscaped(s[1..]);
    }
  }

  lemma {:induction false} EntityOfByte(c: byte, rest: ByteString)
    ensures var d := Decimal(c as int);
            HtmlEntity("&#" + d + ";" + rest) == Some(Entity(c as int, |d| + 3))
  {
    var d := Decimal(c as int);
    var t := "&#" + d + ";" + rest;
    assert t[0] == '&' && t[1] == '#' && t[2..2 + |d|] == d && t[2 + |d|] == ';';
    FindSeparator(t, ';', 2, 2 + |d|);
    ByteDecimalShort(c as int);
    StoiDecimal(c as int);
  }

  lemma {:induction false} ByteDecimalShort(n: nat)
    requires n < 1000
    ensures |Decimal(n)| <= 3
  {
    if n >= 100 {
      assert Decimal(n) ==
        (Decimal(n / 10 / 10) + [Decimal(n / 10)[|Decimal(n / 10)| - 1]]) + [Decimal(n)[|Decimal(n)| - 1]];
    }
  }

  lemma {:induction false} StoiIgnoresRest(n: nat, x: byte)
    requires n <= INT_MAX && !IsDigit(x)
    ensures Stoi(Decimal(n) + [x]) == Parsed(n)
  {
    var d := Decimal(n);
    assert d + [x] == [] + ([] + (d + [x]));
    DigitsValueDecimal(n);
    StoiReads(d + [x], [], [], d, [x]);
  }

  /** A byte between the digits and the semicolon is ignored. */
  lemma {:induction false} EntityIgnoresRest(c: byte, x: byte)
    requires !IsDigit(x) && x != ';'
    ensures HtmlText("&#" + (Decimal(c as int) + [x]) + ";") == [c]
  {
    var d := Decimal(c as int) + [x];
    var t := "&#" + d + ";";
    assert t[0] == '&' && t[1] == '#' && t[2..2 + |d|] == d && t[2 + |d|] == ';';
    FindSeparator(t, ';', 2, 2 + |d|);
    ByteDecimalShort(c as int);
    StoiIgnoresRest(c as int, x);
    assert HtmlEntity(t) == Some(Entity(c as int, |t|));
    assert t[|t|..] == [] && HtmlText(t[|t|..]) == [];
  }

  lemma {:induction false} SixtyFiveIsA()
    ensures HtmlText("&#65x;") == "A"
  {
    assert Decimal(6) == ['6'] && Decimal(65) == ['6', '5'];
    assert "&#" + (Decimal(65) + ['x']) + ";" == "&#65x;";
    EntityIgnoresRest('A', 'x');
  }

  lemma {:induction false} HtmlIdentity(s: ByteString)
    requires '&' !in s
    ensures HtmlText(s) == s
  {
    if s != [] { HtmlIdentity(s[1..]); }
  }

  lemma {:induction false} HtmlNeverLengthens(s: ByteString)
    ensures |HtmlText(s)| <= |s|
    decreases |s|
  {
    if s != [] { HtmlNeverLengthens(s[match HtmlEntity(s) case Some(e) => e.length case None => 1..]); }
  }
}
