/** Byte strings in the C locale: the character classes, case folding, searching and
    integer parsing that the rest of the model takes from the C++ standard library. */
module Bytes {

  /** One byte of a std::string, written as the character with that code. */
  type byte = c: char | c as int < 256 witness ' '

  type ByteString = seq<byte>

  datatype Option<+T> = None | Some(value: T)

  predicate IsDigit(c: byte) { '0' <= c <= '9' }
  predicate IsAlpha(c: byte) { 'a' <= c <= 'z' || 'A' <= c <= 'Z' }
  predicate IsAlnum(c: byte) { IsDigit(c) || IsAlpha(c) }
  predicate IsWord(c: byte) { IsAlnum(c) || c == '_' }
  predicate IsSpace(c: byte) { c == ' ' || 9 <= c as int <= 13 }

  function FromCode(n: int): (c: byte)
    requires 0 <= n < 256
    ensures c as int == n
  {
    n as char
  }

  /** static_cast<char> of an int: reduction modulo 256. */
  function CastToByte(n: int): (c: byte)
    ensures exists k :: n == 256 * k + c as int
  {
    assert n == 256 * (n / 256) + n % 256;
    FromCode(n % 256)
  }

  function ToLower(c: byte): (l: byte)
    ensures ToLowerIsFixed(l)
  {
    if 'A' <= c <= 'Z' then FromCode(c as int + 32) else c
  }

  predicate ToLowerIsFixed(c: byte) { !('A' <= c <= 'Z') }

  function Lower(s: ByteString): (l: ByteString)
    ensures |l| == |s|
    ensures forall i :: 0 <= i < |s| ==> l[i] == ToLower(s[i])
  {
    seq(|s|, i requires 0 <= i < |s| => ToLower(s[i]))
  }

  /** An upper-case letter and its lower-case one, 32 codes apart. */
  predicate IsPair(upper: byte, lower: byte) {
    65 <= upper as int <= 90 && lower as int == upper as int + 32
  }

  /** Equal, or the two letters of one pair. */
  predicate SameLetter(a: byte, b: byte) {
    a == b || IsPair(a, b) || IsPair(b, a)
  }

  /** Equal up to case: as long, and the same letter at every position. */
  predicate SameText(a: ByteString, b: ByteString) {
    |a| == |b| && forall i :: 0 <= i < |a| ==> SameLetter(a[i], b[i])
  }

  lemma {:induction false} ToLowerMeaning(a: byte, b: byte)
    ensures ToLower(a) == ToLower(b) <==> SameLetter(a, b)
  {
    assert ToLower(a) as int == if 65 <= a as int <= 90 then a as int + 32 else a as int;
    assert ToLower(b) as int == if 65 <= b as int <= 90 then b as int + 32 else b as int;
  }

  /** Two texts have one lower-case form exactly when they are equal up to case. */
  lemma {:induction false} LowerMeaning(a: ByteString, b: ByteString)
    ensures Lower(a) == Lower(b) <==> SameText(a, b)
  {
    if |a| == |b| {
      forall i | 0 <= i < |a| ensures Lower(a)[i] == Lower(b)[i] <==> SameLetter(a[i], b[i]) {
        ToLowerMeaning(a[i], b[i]);
      }
      if SameText(a, b) { assert Lower(a) == Lower(b); }
    }
  }

  /** `pattern` occurs in `text` at position `i`. */
  predicate OccursAt(text: ByteString, pattern: ByteString, i: int) {
    0 <= i && i + |pattern| <= |text| && text[i..i + |pattern|] == pattern
  }

  /** std::string::find: the first occurrence at or after `from`; None is npos. */
  function Find(text: ByteString, pattern: ByteString, from: nat): (r: Option<nat>)
    ensures r.Some? ==> from <= r.value && OccursAt(text, pattern, r.value)
    ensures r.Some? ==> forall j :: from <= j < r.value ==> !OccursAt(text, pattern, j)
    ensures r.None? ==> forall j :: from <= j ==> !OccursAt(text, pattern, j)
    decreases |text| - from
  {
    if from + |pattern| > |text| then None
    else if text[from..from + |pattern|] == pattern then Some(from)
    else Find(text, pattern, from + 1)
  }

  lemma {:induction false} FindIs(text: ByteString, pattern: ByteString, from: nat, k: nat)
    requires from <= k && OccursAt(text, pattern, k) && forall j :: from <= j < k ==> !OccursAt(text, pattern, j)
    ensures Find(text, pattern, from) == Some(k)
  {
  }

  predicate Contains(text: ByteString, pattern: ByteString) {
    Find(text, pattern, 0).Some?
  }

  /** The pattern occurs somewhere in the text. */
  ghost predicate Holds(text: ByteString, pattern: ByteString) {
    exists p :: OccursAt(text, pattern, p)
  }

  lemma {:induction false} ContainsMeaning(text: ByteString, pattern: ByteString)
    ensures Contains(text, pattern) <==> Holds(text, pattern)
  {
    if Contains(text, pattern) { assert OccursAt(text, pattern, Find(text, pattern, 0).value); }
  }

  /** The pattern occurs somewhere in the text, up to case. */
  ghost predicate HoldsNoCase(text: ByteString, pattern: ByteString) {
    exists p: nat :: SameTextAt(text, pattern, p)
  }

  predicate SameTextAt(text: ByteString, pattern: ByteString, p: nat) {
    p + |pattern| <= |text| && SameText(text[p..p + |pattern|], pattern)
  }

  lemma {:induction false} LowerSlice(text: ByteString, i: nat, j: nat)
    requires i <= j <= |text|
    ensures Lower(text)[i..j] == Lower(text[i..j])
  {
  }

  lemma {:induction false} LowerOccurs(text: ByteString, pattern: ByteString, p: nat)
    ensures OccursAt(Lower(text), Lower(pattern), p) <==> SameTextAt(text, pattern, p)
  {
    if p + |pattern| <= |text| {
      LowerSlice(text, p, p + |pattern|);
      LowerMeaning(text[p..p + |pattern|], pattern);
    }
  }

  lemma {:induction false} LowerContains(text: ByteString, pattern: ByteString)
    ensures Contains(Lower(text), Lower(pattern)) <==> HoldsNoCase(text, pattern)
  {
    ContainsMeaning(Lower(text), Lower(pattern));
    if p :| OccursAt(Lower(text), Lower(pattern), p) { LowerOccurs(text, pattern, p); }
    if p: nat :| SameTextAt(text, pattern, p) { LowerOccurs(text, pattern, p); }
  }

  /** A separator is found at its first position. */
  lemma {:induction false} FindSeparator(t: ByteString, sep: byte, from: nat, k: nat)
    requires from <= k < |t| && t[k] == sep && sep !in t[from..k]
    ensures Find(t, [sep], from) == Some(k)
  {
    assert t[k..k + 1] == [sep];
    assert OccursAt(t, [sep], k);
    forall j | from <= j < k ensures !OccursAt(t, [sep], j) {
      assert t[j] == t[from..k][j - from];
      assert t[j..j + 1][0] == t[j];
    }
  }

  lemma {:induction false} FindAbsent(t: ByteString, sep: byte, from: nat)
    requires from <= |t| && sep !in t[from..]
    ensures Find(t, [sep], from) == None
  {
    forall j | from <= j && j + 1 <= |t| ensures !OccursAt(t, [sep], j) {
      assert t[j] == t[from..][j - from];
      assert t[j..j + 1][0] == t[j];
    }
  }

  /** A concatenation occurs exactly when its parts occur one after the other. */
  lemma {:induction false} SplitOccurs(text: ByteString, i: nat, a: ByteString, b: ByteString)
    ensures OccursAt(text, a + b, i) <==> OccursAt(text, a, i) && OccursAt(text, b, i + |a|)
  {
    if i + |a| + |b| <= |text| {
      var w := text[i..i + |a| + |b|];
      assert w == text[i..i + |a|] + text[i + |a|..i + |a| + |b|];
      assert w[..|a|] == text[i..i + |a|] && w[|a|..] == text[i + |a|..i + |a| + |b|];
      assert (a + b)[..|a|] == a && (a + b)[|a|..] == b;
    }
  }

  /** An occurrence within an occurrence. */
  lemma {:induction false} OccursWithin(text: ByteString, b: ByteString, i: nat, a: ByteString, j: nat)
    requires OccursAt(text, b, i) && OccursAt(b, a, j)
    ensures OccursAt(text, a, i + j)
  {
    assert b == b[..j] + (b[j..j + |a|] + b[j + |a|..]);
    SplitOccurs(text, i, b[..j], a + b[j + |a|..]);
    SplitOccurs(text, i + j, a, b[j + |a|..]);
  }
}
