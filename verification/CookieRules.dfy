/** What sections 5.2 and 5.3 of RFC 6265 do with the same lines, and when it is what the client
    does. */
module CookieRules {
  import opened Bytes
  import opened Cookies

  /** A space or a tab. */
  predicate IsBlank(c: byte) { c == ' ' || c == '\t' }

  function TrimLeft(t: ByteString): (r: ByteString)
    ensures |r| <= |t| && (r == t <==> t == [] || !IsBlank(t[0]))
  {
    if t != [] && IsBlank(t[0]) then TrimLeft(t[1..]) else t
  }

  function TrimRight(t: ByteString): (r: ByteString)
    ensures |r| <= |t| && (r == t <==> t == [] || !IsBlank(t[|t| - 1]))
  {
    if t != [] && IsBlank(t[|t| - 1]) then TrimRight(t[..|t| - 1]) else t
  }

  function Trimmed(t: ByteString): ByteString {
    TrimRight(TrimLeft(t))
  }

  /** Neither the first nor the last byte is blank. */
  predicate Tight(t: ByteString) {
    t == [] || (!IsBlank(t[0]) && !IsBlank(t[|t| - 1]))
  }

  lemma {:induction false} TightIsTrimmed(t: ByteString)
    ensures Trimmed(t) == t <==> Tight(t)
  {
    if Trimmed(t) == t { assert |TrimLeft(t)| == |t|; }
  }

  /** The texts between the `;` of a line. */
  function Parts(line: ByteString): (ps: seq<ByteString>)
    ensures ps != []
    decreases |line|
  {
    match Find(line, ";", 0)
    case None => [line]
    case Some(k) => [line[..k]] + Parts(line[k + 1..])
  }

  /** A Max-Age attribute that counts, and whether its age is not positive. */
  function MaxAge(attribute: ByteString): Option<bool> {
    match Find(attribute, "=", 0)
    case None => None
    case Some(k) =>
      var name, age := Trimmed(attribute[..k]), Trimmed(attribute[k + 1..]);
      if SameText(name, "Max-Age") && IsAge(age) then Some(NotPositive(age)) else None
  }

  /** A digit or a minus sign, and then digits. */
  predicate IsAge(age: ByteString) {
    age != [] && (IsDigit(age[0]) || age[0] == '-') && forall k :: 1 <= k < |age| ==> IsDigit(age[k])
  }

  predicate NotPositive(age: ByteString)
    requires age != []
  {
    age[0] == '-' || forall k :: 0 <= k < |age| ==> age[k] == '0'
  }

  /** The last Max-Age counts. */
  function LastAge(attributes: seq<ByteString>): Option<bool> {
    if attributes == [] then None
    else
      var init, last := attributes[..|attributes| - 1], attributes[|attributes| - 1];
      match MaxAge(last) case Some(expired) => Some(expired) case None => LastAge(init)
  }

  predicate ExpiresAtOnce(line: ByteString) {
    LastAge(Parts(line)[1..]) == Some(true)
  }

  /** The pair of a line: name and value without blanks around them, and none without a name. */
  function StandardPair(line: ByteString): Option<Cookie> {
    match PairOf(line)
    case None => None
    case Some(c) => if Trimmed(c.name) == [] then None else Some(Cookie(Trimmed(c.name), Trimmed(c.value)))
  }

  /** The jar after a line: the cookie is stored, or removed when its age is not positive. */
  function StandardStored(jar: Jar, line: ByteString): Jar {
    match StandardPair(line)
    case None => jar
    case Some(c) => if ExpiresAtOnce(line) then jar - {c.name} else jar[c.name := c.value]
  }

  /** The line holds no pair, or a plain one: a name, no blanks around it or its value, and no age
      that is not positive. */
  predicate IsPlain(line: ByteString) {
    match PairOf(line)
    case None => true
    case Some(c) => c.name != [] && Tight(c.name) && Tight(c.value) && !ExpiresAtOnce(line)
  }

  lemma {:induction false} PairsAgree(line: ByteString)
    ensures StandardPair(line) == PairOf(line) <==>
            match PairOf(line) case None => true case Some(c) => c.name != [] && Tight(c.name) && Tight(c.value)
  {
    match PairOf(line)
    case None =>
    case Some(c) =>
      TightIsTrimmed(c.name);
      TightIsTrimmed(c.value);
  }

  lemma {:induction false} NotPlainDiffers(line: ByteString)
    requires !IsPlain(line)
    ensures Stored(map[], PairOf(line)) != StandardStored(map[], line)
  {
    PairsAgree(line);
    var c := PairOf(line).value;
    assert c.name in Stored(map[], PairOf(line)) && Stored(map[], PairOf(line))[c.name] == c.value;
    if StandardPair(line).Some? && !ExpiresAtOnce(line) {
      var d := StandardPair(line).value;
      assert StandardStored(map[], line).Keys == {d.name} && StandardStored(map[], line)[d.name] == d.value;
    }
  }

  /** The client does with a line what the standard does, whatever the jar, exactly when the line is
      plain. */
  lemma {:induction false} LineIsStandard(line: ByteString)
    ensures (forall jar: Jar :: Stored(jar, PairOf(line)) == StandardStored(jar, line)) <==> IsPlain(line)
  {
    if IsPlain(line) { PairsAgree(line); } else { NotPlainDiffers(line); }
  }

  /** Every cookie line of the headers from `i` on. */
  function StandardCookies(headers: ByteString, i: nat, jar: Jar): Jar
    decreases |headers| - i
  {
    if i >= |headers| then jar
    else if OccursAt(headers, SET_COOKIE, i)
    then StandardCookies(headers, i + 1, StandardStored(jar, LineAt(headers, i + 12)))
    else StandardCookies(headers, i + 1, jar)
  }

  /** When every cookie line is plain the client reads the headers as the standard does. */
  lemma {:induction false} HeadersAreStandard(headers: ByteString, i: nat, jar: Jar)
    requires forall j: nat :: j >= i && OccursAt(headers, SET_COOKIE, j) ==> IsPlain(LineAt(headers, j + 12))
    ensures AllCookies(headers, i, jar) == StandardCookies(headers, i, jar)
    decreases |headers| - i
  {
    if i < |headers| {
      if OccursAt(headers, SET_COOKIE, i) {
        LineIsStandard(LineAt(headers, i + 12));
        HeadersAreStandard(headers, i + 1, StandardStored(jar, LineAt(headers, i + 12)));
      } else {
        HeadersAreStandard(headers, i + 1, jar);
      }
    }
  }

  // ---- Lines that are read differently ----

  lemma {:induction false} FirstPart(part: ByteString, rest: ByteString)
    requires ';' !in part
    ensures Upto(part, ";") == part
    ensures Upto(part + (";" + rest), ";") == part && Parts(part + (";" + rest)) == [part] + Parts(rest)
  {
    FindAbsent(part, ';', 0);
    var line := part + (";" + rest);
    assert line[..|part|] == part && line[|part|] == ';' && line[|part| + 1..] == rest;
    assert line[0..|part|] == part;
    FindSeparator(line, ';', 0, |part|);
  }

  lemma {:induction false} PairFrom(line: ByteString, name: ByteString, value: ByteString)
    requires '=' !in name && Upto(line, ";") == name + ("=" + value)
    ensures PairOf(line) == Some(Cookie(name, value))
  {
    SplitAtEquals(name + ("=" + value), name, value);
  }

  lemma {:induction false} SplitAtEquals(t: ByteString, name: ByteString, value: ByteString)
    requires '=' !in name && t == name + ("=" + value)
    ensures Find(t, "=", 0) == Some(|name|) && t[..|name|] == name && t[|name| + 1..] == value
  {
    assert t[..|name|] == name && t[|name|] == '=' && t[|name| + 1..] == value && t[0..|name|] == name;
    FindSeparator(t, '=', 0, |name|);
  }

  /** A blank before the `;` stays in the value; the standard drops it. */
  lemma {:induction false} BlankIsKept(name: ByteString, value: ByteString, rest: ByteString)
    requires SafeCookie(name, value) && name != [] && Tight(name) && Tight(value)
    ensures var line := name + ("=" + (value + " ")) + (";" + rest);
            PairOf(line) == Some(Cookie(name, value + " ")) && StandardPair(line) == Some(Cookie(name, value))
  {
    var part := name + ("=" + (value + " "));
    FirstPart(part, rest);
    PairFrom(part + (";" + rest), name, value + " ");
    TightIsTrimmed(name);
    BlankIsTrimmed(value);
  }

  lemma {:induction false} BlankIsTrimmed(value: ByteString)
    requires Tight(value)
    ensures Trimmed(value + " ") == value
  {
    var t := value + " ";
    assert t[..|t| - 1] == value && t[|t| - 1] == ' ';
    if value == [] {
      assert t == [' '] && t[1..] == [];
    } else {
      assert t[0] == value[0];
      assert TrimRight(value) == value;
    }
  }

  /** A cookie whose age is not positive is stored; the standard removes it. */
  lemma {:induction false} AgeIsIgnored(name: ByteString, value: ByteString, attribute: ByteString, jar: Jar)
    requires SafeCookie(name, value) && name != [] && Tight(name) && Tight(value)
    requires ';' !in attribute && MaxAge(attribute) == Some(true)
    ensures var line := name + ("=" + value) + (";" + attribute);
            Stored(jar, PairOf(line)) == jar[name := value] && StandardStored(jar, line) == jar - {name}
  {
    var part := name + ("=" + value);
    var line := part + (";" + attribute);
    FirstPart(part, attribute);
    FindAbsent(attribute, ';', 0);
    PairFrom(line, name, value);
    OneAge(line, part, attribute);
    ExpiredIsRemoved(line, name, value, jar);
  }

  lemma {:induction false} ExpiredIsRemoved(line: ByteString, name: ByteString, value: ByteString, jar: Jar)
    requires PairOf(line) == Some(Cookie(name, value)) && name != [] && Tight(name) && Tight(value)
    requires ExpiresAtOnce(line)
    ensures Stored(jar, PairOf(line)) == jar[name := value] && StandardStored(jar, line) == jar - {name}
  {
    PairsAgree(line);
  }

  lemma {:induction false} OneAge(line: ByteString, part: ByteString, attribute: ByteString)
    requires Parts(line) == [part] + [attribute] && MaxAge(attribute) == Some(true)
    ensures ExpiresAtOnce(line)
  {
    assert Parts(line)[1..] == [attribute];
  }

  lemma {:induction false} MaxAgeFrom(name: ByteString, age: ByteString)
    requires '=' !in name
    ensures var n, a := Trimmed(name), Trimmed(age);
            MaxAge(name + ("=" + age)) == if SameText(n, "Max-Age") && IsAge(a) then Some(NotPositive(a)) else None
  {
    SplitAtEquals(name + ("=" + age), name, age);
  }

  lemma {:induction false} LeadingBlank(t: ByteString)
    requires Tight(t)
    ensures Trimmed([' '] + t) == t
  {
    var u := [' '] + t;
    assert u[1..] == t;
    TightIsTrimmed(t);
  }

  const MAX_AGE: ByteString := "Max-Age"

  lemma {:induction false} MaxAgeIsTight()
    ensures Tight(MAX_AGE) && '=' !in [' '] + MAX_AGE
  {
  }

  /** `Max-Age=0`, for one. */
  lemma {:induction false} ZeroAge()
    ensures MaxAge([' '] + MAX_AGE + ("=" + "0")) == Some(true)
  {
    MaxAgeIsTight();
    LeadingBlank(MAX_AGE);
    MaxAgeFrom([' '] + MAX_AGE, "0");
  }
}
