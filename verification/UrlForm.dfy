/** Percent-encoding and application/x-www-form-urlencoded bodies, with the decoder a
    server applies to them. */
module UrlForm {
  import opened Bytes

  datatype Field = Field(name: ByteString, value: ByteString)

  // ---- Percent-encoding ----

  predicate IsHex(c: byte) { IsDigit(c) || 'a' <= c <= 'f' || 'A' <= c <= 'F' }

  function HexValue(c: byte): (v: int)
    requires IsHex(c)
    ensures 0 <= v < 16
  {
    if IsDigit(c) then c as int - '0' as int
    else if 'a' <= c <= 'f' then c as int - 'a' as int + 10
    else c as int - 'A' as int + 10
  }

  function UpperHex(n: nat): (c: byte)
    requires n < 16
    ensures IsHex(c) && HexValue(c) == n && IsAlnum(c)
  {
    if n < 10 then FromCode('0' as int + n) else FromCode('A' as int + n - 10)
  }

  /** The unreserved characters of section 2.3 of RFC 3986. */
  predicate IsUnreserved(c: byte) {
    IsAlnum(c) || c == '-' || c == '_' || c == '.' || c == '~'
  }

  function EncodeByte(c: byte): ByteString {
    if IsUnreserved(c) then [c] else ['%', UpperHex(c as int / 16), UpperHex(c as int % 16)]
  }

  function Encoded(s: ByteString): ByteString {
    if s == [] then [] else EncodeByte(s[0]) + Encoded(s[1..])
  }

  /** The digit of a value, from the table. */
  lemma {:induction false} UpperHexMeaning(n: nat)
    requires n < 16
    ensures UpperHex(n) == "0123456789ABCDEF"[n]
  {
  }

  /** Every base-sixteen digit, of either case, has the value of its place in the table. */
  lemma {:induction false} HexValueMeaning(c: byte)
    requires IsHex(c)
    ensures SameLetter("0123456789ABCDEF"[HexValue(c)], c)
  {
  }

  /** Encoding goes byte by byte. */
  lemma {:induction false} EncodedByteByByte(c: byte, rest: ByteString)
    ensures Encoded([]) == [] && Encoded([c] + rest) == Encoded([c]) + Encoded(rest)
  {
    assert ([c] + rest)[1..] == rest && [c][1..] == [];
  }

  /** Letters, digits and four marks are kept; any other byte becomes a percent sign and its two digits,
      high before low. */
  lemma {:induction false} EncodedByte(c: byte)
    ensures var n := c as int;
            Encoded([c]) == if 48 <= n <= 57 || 65 <= n <= 90 || 97 <= n <= 122 || c in "-_.~" then [c]
                            else ['%', "0123456789ABCDEF"[n / 16], "0123456789ABCDEF"[n % 16]]
  {
    UpperHexMeaning(c as int / 16);
    UpperHexMeaning(c as int % 16);
    assert [c][1..] == [] && Encoded([c]) == EncodeByte(c) + Encoded([]);
    assert c in "-_.~" <==> c == '-' || c == '_' || c == '.' || c == '~';
  }

  lemma {:induction false} EncodedStep(out: ByteString, s: ByteString, i: nat)
    requires i < |s|
    ensures out + Encoded(s[i..]) == (out + EncodeByte(s[i])) + Encoded(s[i + 1..])
  {
    assert s[i..][1..] == s[i + 1..];
  }

  method UrlEncode(value: ByteString) returns (out: ByteString)
    ensures out == Encoded(value)
  {
    out := [];
    for i := 0 to |value|
      invariant out + Encoded(value[i..]) == Encoded(value)
    {
      var c := value[i];
      EncodedStep(out, value, i);
      if IsUnreserved(c) {
        out := out + [c];
      } else {
        out := out + ['%', UpperHex(c as int / 16), UpperHex(c as int % 16)];
      }
    }
    assert out + Encoded([]) == out;
  }

  /** Form decoding: `%HH` is a byte, `+` is a space, anything else stands for itself. */
  function Decoded(t: ByteString): ByteString {
    if t == [] then []
    else if t[0] == '%' && |t| >= 3 && IsHex(t[1]) && IsHex(t[2]) then
      [FromCode(16 * HexValue(t[1]) + HexValue(t[2]))] + Decoded(t[3..])
    else [if t[0] == '+' then ' ' else t[0]] + Decoded(t[1..])
  }

  lemma {:induction false} DecodedEncoded(s: ByteString)
    ensures Decoded(Encoded(s)) == s
  {
    if s != [] {
      var c, e, rest := s[0], EncodeByte(s[0]), Encoded(s[1..]);
      DecodedEncoded(s[1..]);
      assert (e + rest)[0] == e[0] && (e + rest)[|e|..] == rest;
      if !IsUnreserved(c) {
        assert (e + rest)[1] == e[1] && (e + rest)[2] == e[2];
      }
    }
  }

  /** Encoded text consists of unreserved characters and percent signs only. */
  lemma {:induction false} EncodedAlphabet(s: ByteString)
    ensures forall c :: c in Encoded(s) ==> IsUnreserved(c) || c == '%'
  {
    if s != [] { EncodedAlphabet(s[1..]); }
  }

  lemma {:induction false} EncodedUnreserved(s: ByteString)
    requires forall c :: c in s ==> IsUnreserved(c)
    ensures Encoded(s) == s
  {
    if s != [] { EncodedUnreserved(s[1..]); }
  }

  // ---- Form bodies ----

  function PairText(f: Field): (t: ByteString)
    ensures t != []
  {
    Encoded(f.name) + "=" + Encoded(f.value)
  }

  /** The pairs joined with `&`. */
  function BodyOf(fields: seq<Field>): ByteString {
    if fields == [] then []
    else if |fields| == 1 then PairText(fields[0])
    else PairText(fields[0]) + "&" + BodyOf(fields[1..])
  }

  /** How a body of two fields reads. */
  lemma {:induction false} TwoFieldBody(a: ByteString, v: ByteString, b: ByteString, w: ByteString)
    ensures BodyOf([Field(a, v), Field(b, w)]) ==
            (Encoded(a) + "=" + Encoded(v)) + "&" + (Encoded(b) + "=" + Encoded(w))
  {
    assert [Field(a, v), Field(b, w)][1..] == [Field(b, w)];
  }

  lemma {:induction false} BodySnoc(fields: seq<Field>, f: Field)
    ensures fields == [] ==> BodyOf(fields + [f]) == PairText(f)
    ensures fields != [] ==> BodyOf(fields) != [] && BodyOf(fields + [f]) == BodyOf(fields) + "&" + PairText(f)
  {
    if fields != [] {
      assert (fields + [f])[1..] == fields[1..] + [f];
      BodySnoc(fields[1..], f);
      if |fields| > 1 {
        var a, b, c := PairText(fields[0]), BodyOf(fields[1..]), PairText(f);
        assert a + "&" + (b + "&" + c) == (a + "&" + b) + "&" + c;
      }
    }
  }

  function ParsePair(t: ByteString): Field {
    match Find(t, "=", 0)
    case None => Field(Decoded(t), [])
    case Some(k) => Field(Decoded(t[..k]), Decoded(t[k + 1..]))
  }

  function ParsePairs(t: ByteString): seq<Field> {
    match Find(t, "&", 0)
    case None => [ParsePair(t)]
    case Some(k) => [ParsePair(t[..k])] + ParsePairs(t[k + 1..])
  }

  /** What a server reads from a body: split on `&`, then on the first `=`, then decode
      (section 17.13.4.1 of HTML 4.01). */
  function ParseForm(body: ByteString): seq<Field> {
    if body == [] then [] else ParsePairs(body)
  }

  lemma {:induction false} ParsePairSplit(a: ByteString, b: ByteString)
    requires '=' !in a
    ensures ParsePair(a + "=" + b) == Field(Decoded(a), Decoded(b))
  {
    var t := a + "=" + b;
    FindSeparator(t, '=', 0, |a|);
    assert t[..|a|] == a && t[|a| + 1..] == b;
  }

  lemma {:induction false} NoAmpersand(f: Field)
    ensures '&' !in PairText(f)
  {
    EncodedAlphabet(f.name);
    EncodedAlphabet(f.value);
  }

  lemma {:induction false} ParsePairText(f: Field)
    ensures ParsePair(PairText(f)) == f
  {
    assert '=' !in Encoded(f.name) by { EncodedAlphabet(f.name); }
    ParsePairSplit(Encoded(f.name), Encoded(f.value));
    DecodedEncoded(f.name);
    DecodedEncoded(f.value);
  }

  /** Decoding a built body gives back the fields: names, values, order, duplicates. */
  lemma {:induction false} ParseBody(fields: seq<Field>)
    ensures ParseForm(BodyOf(fields)) == fields
  {
    if fields != [] {
      ParsePairText(fields[0]);
      NoAmpersand(fields[0]);
      var a := PairText(fields[0]);
      if |fields| == 1 {
        FindAbsent(a, '&', 0);
      } else {
        var b := BodyOf(fields[1..]);
        ParseBody(fields[1..]);
        var t := a + "&" + b;
        FindSeparator(t, '&', 0, |a|);
        assert t[..|a|] == a && t[|a| + 1..] == b;
        BodyNonEmpty(fields[1..]);
      }
    }
  }

  lemma {:induction false} BodyNonEmpty(fields: seq<Field>)
    requires fields != []
    ensures BodyOf(fields) != []
  {
  }

  lemma {:induction false} BodyInjective(a: seq<Field>, b: seq<Field>)
    requires BodyOf(a) == BodyOf(b)
    ensures a == b
  {
    ParseBody(a);
    ParseBody(b);
  }

  // ---- The field list the operations edit ----

  ghost predicate HasName(fields: seq<Field>, name: ByteString) {
    exists f :: f in fields && f.name == name
  }

  /** The value under the first field of that name; empty when there is none. */
  function Lookup(fields: seq<Field>, name: ByteString): ByteString {
    if fields == [] then []
    else if fields[0].name == name then fields[0].value
    else Lookup(fields[1..], name)
  }

  /** Position `i` is the first field called `name`. */
  ghost predicate FirstAt(fields: seq<Field>, name: ByteString, i: int) {
    && 0 <= i < |fields|
    && fields[i].name == name
    && forall j :: 0 <= j < i ==> fields[j].name != name
  }

  /** Overwrite the first field of that name, or append one. */
  function Updated(fields: seq<Field>, u: Field): seq<Field> {
    if fields == [] then [u]
    else if fields[0].name == u.name then [u] + fields[1..]
    else [fields[0]] + Updated(fields[1..], u)
  }

  lemma {:induction false} LookupIsFirst(fields: seq<Field>, name: ByteString)
    ensures forall i :: FirstAt(fields, name, i) ==> Lookup(fields, name) == fields[i].value
    ensures !HasName(fields, name) ==> Lookup(fields, name) == []
    ensures HasName(fields, name) ==> exists i :: FirstAt(fields, name, i)
  {
    if fields != [] {
      var rest := fields[1..];
      LookupIsFirst(rest, name);
      if fields[0].name == name {
        assert FirstAt(fields, name, 0);
      } else {
        forall i | FirstAt(fields, name, i) ensures Lookup(fields, name) == fields[i].value {
          assert FirstAt(rest, name, i - 1);
        }
        if HasName(fields, name) {
          var f :| f in fields && f.name == name;
          assert f in rest;
          var i :| FirstAt(rest, name, i);
          assert FirstAt(fields, name, i + 1);
        }
        if HasName(rest, name) {
          var f :| f in rest && f.name == name;
          assert f in fields;
        }
      }
    }
  }

  /** Updating changes one position, the first of that name, or appends. */
  lemma {:induction false} UpdatedShape(fields: seq<Field>, u: Field)
    ensures forall i :: FirstAt(fields, u.name, i) ==> Updated(fields, u) == fields[i := u]
    ensures !HasName(fields, u.name) ==> Updated(fields, u) == fields + [u]
  {
    if fields != [] {
      var rest := fields[1..];
      UpdatedShape(rest, u);
      if fields[0].name != u.name {
        forall i | FirstAt(fields, u.name, i) ensures Updated(fields, u) == fields[i := u] {
          assert FirstAt(rest, u.name, i - 1);
        }
        if HasName(rest, u.name) {
          var f :| f in rest && f.name == u.name;
          assert f in fields;
        }
      } else {
        assert fields[0] in fields;
      }
    }
  }

  /** Under first-occurrence lookup the list behaves as a map. */
  lemma {:induction false} LookupUpdated(fields: seq<Field>, u: Field, name: ByteString)
    ensures Lookup(Updated(fields, u), name) == if name == u.name then u.value else Lookup(fields, name)
  {
    if fields != [] && fields[0].name != u.name { LookupUpdated(fields[1..], u, name); }
  }

  /** The updates applied in order. */
  function UpdatedAll(fields: seq<Field>, us: seq<Field>): seq<Field> {
    if us == [] then fields
    else Updated(UpdatedAll(fields, us[..|us| - 1]), us[|us| - 1])
  }

  ghost predicate DistinctNames(fields: seq<Field>) {
    forall i, j :: 0 <= i < j < |fields| ==> fields[i].name != fields[j].name
  }

  /** The updates whose name the list lacks, in order. */
  ghost function Missing(fields: seq<Field>, us: seq<Field>): seq<Field> {
    if us == [] then []
    else
      var init, u := Missing(fields, us[..|us| - 1]), us[|us| - 1];
      if HasName(fields, u.name) then init else init + [u]
  }

  /** What position `i` of the list holds once the updates are applied: the update of that
      name if `i` is the first field so called, and otherwise what it held. */
  ghost function Overridden(fields: seq<Field>, us: seq<Field>, i: nat): Field
    requires i < |fields|
  {
    if FirstAt(fields, fields[i].name, i) && HasName(us, fields[i].name)
    then Field(fields[i].name, Lookup(us, fields[i].name)) else fields[i]
  }

  ghost function Overrides(fields: seq<Field>, us: seq<Field>): (r: seq<Field>)
    ensures |r| == |fields|
    ensures forall i :: 0 <= i < |fields| ==> r[i] == Overridden(fields, us, i)
    ensures forall i :: 0 <= i < |fields| ==> r[i].name == fields[i].name
  {
    seq(|fields|, i requires 0 <= i < |fields| => Overridden(fields, us, i))
  }

  /** Distinct updates override first occurrences in place and append the others in order. */
  lemma {:induction false} UpdatedAllMeaning(fields: seq<Field>, us: seq<Field>)
    requires DistinctNames(us)
    ensures UpdatedAll(fields, us) == Overrides(fields, us) + Missing(fields, us)
  {
    if us == [] {
    } else {
      var init, u := us[..|us| - 1], us[|us| - 1];
      UpdatedAllMeaning(fields, init);
      LookupLast(init, u);
      assert us == init + [u];
      if HasName(fields, u.name) {
        UpdatePresent(fields, init, u);
      } else {
        UpdateAbsent(fields, init, u);
      }
    }
  }

  lemma {:induction false} FirstInOverrides(fields: seq<Field>, us: seq<Field>, name: ByteString, k: nat)
    requires FirstAt(fields, name, k)
    ensures FirstAt(Overrides(fields, us) + Missing(fields, us), name, k)
  {
    var o := Overrides(fields, us);
    var r := o + Missing(fields, us);
    forall j | 0 <= j <= k ensures r[j].name == fields[j].name { assert r[j] == o[j]; }
  }

  lemma {:induction false} UpdatePresent(fields: seq<Field>, init: seq<Field>, u: Field)
    requires !HasName(init, u.name) && HasName(fields, u.name)
    ensures Updated(Overrides(fields, init) + Missing(fields, init), u) ==
            Overrides(fields, init + [u]) + Missing(fields, init)
  {
    var o, m := Overrides(fields, init), Missing(fields, init);
    LookupIsFirst(fields, u.name);
    var k :| FirstAt(fields, u.name, k);
    assert Overrides(fields, init + [u]) == o[k := u] by { OverridesSnoc(fields, init, u); }
    FirstInOverrides(fields, init, u.name, k);
    UpdateInFront(o, m, u, k);
  }

  lemma {:induction false} UpdateInFront(o: seq<Field>, m: seq<Field>, u: Field, k: nat)
    requires k < |o| && FirstAt(o + m, u.name, k)
    ensures Updated(o + m, u) == o[k := u] + m
  {
    UpdatedShape(o + m, u);
    assert (o + m)[k := u] == o[k := u] + m;
  }

  lemma {:induction false} UpdateAbsent(fields: seq<Field>, init: seq<Field>, u: Field)
    requires !HasName(init, u.name) && !HasName(fields, u.name)
    ensures Updated(Overrides(fields, init) + Missing(fields, init), u) ==
            Overrides(fields, init + [u]) + (Missing(fields, init) + [u])
  {
    var before := Overrides(fields, init) + Missing(fields, init);
    forall f | f in before ensures f.name != u.name {
      MissingNames(fields, init);
      var i :| 0 <= i < |before| && before[i] == f;
      if i >= |fields| { assert f in Missing(fields, init); } else { assert fields[i] in fields; }
    }
    UpdatedShape(before, u);
    OverridesSnoc(fields, init, u);
  }

  lemma {:induction false} MissingNames(fields: seq<Field>, us: seq<Field>)
    ensures forall f :: f in Missing(fields, us) ==> f in us && !HasName(fields, f.name)
  {
    if us != [] { MissingNames(fields, us[..|us| - 1]); }
  }

  lemma {:induction false} LookupLast(init: seq<Field>, u: Field)
    ensures HasName(init, u.name) || Lookup(init + [u], u.name) == u.value
    ensures forall n :: n != u.name ==> Lookup(init + [u], n) == Lookup(init, n)
    ensures forall n :: HasName(init + [u], n) <==> HasName(init, n) || n == u.name
  {
    forall n ensures HasName(init + [u], n) <==> HasName(init, n) || n == u.name {
      assert u in init + [u];
      if HasName(init, n) {
        var f :| f in init && f.name == n;
        assert f in init + [u];
      }
    }
    if init != [] {
      assert (init + [u])[1..] == init[1..] + [u];
      LookupLast(init[1..], u);
      assert init[0] in init;
      if HasName(init[1..], u.name) {
        var f :| f in init[1..] && f.name == u.name;
        assert f in init;
      }
    }
  }

  lemma {:induction false} OverridesSnoc(fields: seq<Field>, init: seq<Field>, u: Field)
    requires !HasName(init, u.name)
    ensures forall k :: FirstAt(fields, u.name, k) ==>
              Overrides(fields, init + [u]) == Overrides(fields, init)[k := u]
    ensures !HasName(fields, u.name) ==> Overrides(fields, init + [u]) == Overrides(fields, init)
  {
    LookupLast(init, u);
    if !HasName(fields, u.name) {
      forall i | 0 <= i < |fields| ensures fields[i].name != u.name { assert fields[i] in fields; }
    }
  }

  /** Lookup after distinct updates: the update wins, every other name keeps its value. */
  lemma {:induction false} LookupUpdatedAll(fields: seq<Field>, us: seq<Field>, name: ByteString)
    requires DistinctNames(us)
    ensures Lookup(UpdatedAll(fields, us), name) == if HasName(us, name) then Lookup(us, name) else Lookup(fields, name)
  {
    if us != [] {
      var init, u := us[..|us| - 1], us[|us| - 1];
      assert us == init + [u];
      LookupUpdatedAll(fields, init, name);
      LookupUpdated(UpdatedAll(fields, init), u, name);
      LookupLast(init, u);
    }
  }

  /** Distinct fields written to an empty list are that list. */
  lemma {:induction false} UpdatedAllFresh(us: seq<Field>)
    requires DistinctNames(us)
    ensures UpdatedAll([], us) == us
  {
    UpdatedAllMeaning([], us);
    MissingAll(us);
  }

  lemma {:induction false} MissingAll(us: seq<Field>)
    ensures Missing([], us) == us
  {
    if us != [] { MissingAll(us[..|us| - 1]); }
  }

  /** Overwriting reaches the first occurrence only: after the update every field of that
      name carries the new value exactly when no later duplicate held another one. */
  lemma {:induction false} StaleDuplicates(fields: seq<Field>, u: Field)
    ensures (forall f :: f in Updated(fields, u) && f.name == u.name ==> f.value == u.value) <==>
            (forall i, j :: 0 <= i < j < |fields| && fields[i].name == u.name && fields[j].name == u.name
                            ==> fields[j].value == u.value)
  {
    var r := Updated(fields, u);
    UpdatedShape(fields, u);
    LookupIsFirst(fields, u.name);
    if HasName(fields, u.name) {
      var k :| FirstAt(fields, u.name, k);
      assert r == fields[k := u];
      if (forall f :: f in r && f.name == u.name ==> f.value == u.value) {
        forall i, j | 0 <= i < j < |fields| && fields[i].name == u.name && fields[j].name == u.name
          ensures fields[j].value == u.value
        {
          assert r[j] in r;
        }
      }
    } else {
      forall i | 0 <= i < |fields| ensures fields[i].name != u.name { assert fields[i] in fields; }
    }
  }

  /** For example, the second of two fields of a name keeps its old value. */
  lemma {:induction false} SecondGoesStale(name: ByteString, first: ByteString, second: ByteString, value: ByteString)
    requires second != value
    ensures var r := Updated([Field(name, first), Field(name, second)], Field(name, value));
            r == [Field(name, value), Field(name, second)] && Field(name, second) in r
  {
    assert [Field(name, first), Field(name, second)][1..] == [Field(name, second)];
    assert [Field(name, value), Field(name, second)][1] == Field(name, second);
  }

  /** The std::vector of pairs that the operations pass around by reference. */
  class FormFields {
    var items: seq<Field>

    constructor (items: seq<Field>)
      ensures this.items == items
    {
      this.items := items;
    }

    method Append(name: ByteString, value: ByteString)
      modifies this
      ensures items == old(items) + [Field(name, value)]
    {
      items := items + [Field(name, value)];
    }

    method Clear()
      modifies this
      ensures items == []
    {
      items := [];
    }

    method SetField(name: ByteString, value: ByteString)
      modifies this
      ensures items == Updated(old(items), Field(name, value))
    {
      var u := Field(name, value);
      UpdatedShape(items, u);
      for i := 0 to |items|
        invariant items == old(items)
        invariant forall j :: 0 <= j < i ==> items[j].name != name
      {
        if items[i].name == name {
          assert FirstAt(items, name, i);
          items := items[i := u];
          return;
        }
      }
      items := items + [u];
    }

    method GetField(name: ByteString) returns (value: ByteString)
      ensures value == Lookup(items, name)
    {
      LookupIsFirst(items, name);
      for i := 0 to |items|
        invariant forall j :: 0 <= j < i ==> items[j].name != name
      {
        if items[i].name == name {
          assert FirstAt(items, name, i);
          return items[i].value;
        }
      }
      return [];
    }

    method BuildFormBody() returns (body: ByteString)
      ensures body == BodyOf(items)
      ensures ParseForm(body) == items
    {
      body := [];
      for i := 0 to |items|
        invariant body == BodyOf(items[..i])
      {
        BodySnoc(items[..i], items[i]);
        assert items[..i + 1] == items[..i] + [items[i]];
        if body != [] { body := body + "&"; }
        var name := UrlEncode(items[i].name);
        var value := UrlEncode(items[i].value);
        body := body + (name + "=" + value);
      }
      assert items[..|items|] == items;
      ParseBody(items);
    }
  }
}
