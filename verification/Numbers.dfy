/** Decimal numerals: std::to_string and std::stoi. */
module Numbers {
  import opened Bytes

  const INT_MAX: int := 2147483647
  const INT_MIN: int := -2147483648

  predicate AllDigits(s: ByteString) {
    forall c :: c in s ==> IsDigit(c)
  }

  function Decimal(n: nat): (s: ByteString)
    ensures s != [] && AllDigits(s)
  {
    var last := [FromCode('0' as int + n % 10)];
    if n < 10 then last else Decimal(n / 10) + last
  }

  function DigitsValue(s: ByteString): nat
    requires AllDigits(s)
  {
    if s == [] then 0
    else
      var c := s[|s| - 1];
      assert c in s;
      DigitsValue(s[..|s| - 1]) * 10 + (c as int - '0' as int)
  }

  lemma {:induction false} DigitsValueDecimal(n: nat)
    ensures DigitsValue(Decimal(n)) == n
  {
    if n >= 10 {
      DigitsValueDecimal(n / 10);
      var s := Decimal(n);
      assert s[..|s| - 1] == Decimal(n / 10);
    }
  }

  /** How std::stoi ends: a value, or one of the two exceptions it throws. */
  datatype StoiResult = Parsed(value: int) | InvalidArgument | OutOfRange

  function SkipSpaces(s: ByteString): ByteString {
    if s != [] && IsSpace(s[0]) then SkipSpaces(s[1..]) else s
  }

  function DigitPrefix(s: ByteString): (d: ByteString)
    ensures AllDigits(d)
  {
    if s != [] && IsDigit(s[0]) then [s[0]] + DigitPrefix(s[1..]) else []
  }

  /** std::stoi in base ten: leading spaces and one sign are skipped, and whatever follows
      the digits is ignored. */
  function Stoi(s: ByteString): StoiResult {
    var t := SkipSpaces(s);
    var signed := t != [] && (t[0] == '-' || t[0] == '+');
    var digits := DigitPrefix(if signed then t[1..] else t);
    if digits == [] then InvalidArgument
    else
      var n: int := DigitsValue(digits);
      var v := if signed && t[0] == '-' then -n else n;
      if INT_MIN <= v <= INT_MAX then Parsed(v) else OutOfRange
  }

  /** A numeral as stoi reads one: white space, at most one sign, the digits, and text that
      does not go on with a digit. */
  ghost predicate ReadsAs(s: ByteString, space: ByteString, sign: ByteString, digits: ByteString, rest: ByteString) {
    && s == space + (sign + (digits + rest))
    && (forall c :: c in space ==> IsSpace(c))
    && (sign == [] || sign == ['-'] || sign == ['+'])
    && digits != [] && AllDigits(digits)
    && (rest == [] || !IsDigit(rest[0]))
  }

  lemma {:induction false} SkipSpacesIs(space: ByteString, t: ByteString)
    requires (forall c :: c in space ==> IsSpace(c)) && (t == [] || !IsSpace(t[0]))
    ensures SkipSpaces(space + t) == t
  {
    if space == [] {
      assert space + t == t;
    } else {
      assert (space + t)[0] == space[0] && (space + t)[1..] == space[1..] + t;
      SkipSpacesIs(space[1..], t);
    }
  }

  lemma {:induction false} DigitPrefixIs(digits: ByteString, rest: ByteString)
    requires AllDigits(digits) && (rest == [] || !IsDigit(rest[0]))
    ensures DigitPrefix(digits + rest) == digits
  {
    if digits == [] {
      assert digits + rest == rest;
    } else {
      assert (digits + rest)[0] == digits[0] && (digits + rest)[1..] == digits[1..] + rest;
      DigitPrefixIs(digits[1..], rest);
    }
  }

  /** However a text reads as a numeral, stoi gives the signed value of its digits, or is out
      of the range of int. */
  lemma {:induction false} StoiReads(s: ByteString, space: ByteString, sign: ByteString, digits: ByteString,
                                     rest: ByteString)
    requires ReadsAs(s, space, sign, digits, rest)
    ensures var n: int := DigitsValue(digits); var v := if sign == ['-'] then -n else n;
            Stoi(s) == if -2147483648 <= v <= 2147483647 then Parsed(v) else OutOfRange
  {
    var t := sign + (digits + rest);
    assert IsDigit(digits[0]);
    assert t[0] == if sign == [] then digits[0] else sign[0];
    SkipSpacesIs(space, t);
    DigitPrefixIs(digits, rest);
    if sign == [] { assert t == digits + rest; } else { assert t[1..] == digits + rest; }
  }

  lemma {:induction false} SkippedSpaces(s: ByteString) returns (space: ByteString)
    ensures s == space + SkipSpaces(s) && (forall c :: c in space ==> IsSpace(c))
  {
    if s != [] && IsSpace(s[0]) {
      var more := SkippedSpaces(s[1..]);
      space := [s[0]] + more;
      assert s == [s[0]] + s[1..];
    } else {
      space := [];
    }
  }

  lemma {:induction false} PrefixedDigits(s: ByteString) returns (rest: ByteString)
    ensures s == DigitPrefix(s) + rest && (rest == [] || !IsDigit(rest[0]))
  {
    if s != [] && IsDigit(s[0]) {
      rest := PrefixedDigits(s[1..]);
      assert s == [s[0]] + s[1..];
    } else {
      rest := s;
    }
  }

  ghost predicate IsNumeral(s: ByteString) {
    exists space, sign, digits, rest :: ReadsAs(s, space, sign, digits, rest)
  }

  lemma {:induction false} StoiDecomposes(s: ByteString)
    returns (space: ByteString, sign: ByteString, digits: ByteString, rest: ByteString)
    requires Stoi(s) != InvalidArgument
    ensures ReadsAs(s, space, sign, digits, rest)
  {
    var t := SkipSpaces(s);
    space := SkippedSpaces(s);
    sign := if t != [] && (t[0] == '-' || t[0] == '+') then [t[0]] else [];
    var u := t[|sign|..];
    assert t == sign + u;
    digits := DigitPrefix(u);
    rest := PrefixedDigits(u);
  }

  /** Stoi rejects exactly the texts that do not read as a numeral. */
  lemma {:induction false} StoiRejects(s: ByteString)
    ensures Stoi(s) == InvalidArgument <==> !IsNumeral(s)
  {
    if IsNumeral(s) {
      var space, sign, digits, rest :| ReadsAs(s, space, sign, digits, rest);
      StoiReads(s, space, sign, digits, rest);
    }
    if Stoi(s) != InvalidArgument { var space, sign, digits, rest := StoiDecomposes(s); }
  }

  /** On a numeral of digits only, stoi succeeds exactly up to INT_MAX. */
  lemma {:induction false} StoiDigits(s: ByteString)
    requires s != [] && AllDigits(s)
    ensures Stoi(s) == if DigitsValue(s) <= 2147483647 then Parsed(DigitsValue(s)) else OutOfRange
  {
    assert s == [] + ([] + (s + []));
    StoiReads(s, [], [], s, []);
  }

  lemma {:induction false} StoiDecimal(n: nat)
    requires n <= INT_MAX
    ensures Stoi(Decimal(n)) == Parsed(n)
  {
    StoiDigits(Decimal(n));
    DigitsValueDecimal(n);
  }
}
