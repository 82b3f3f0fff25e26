/** Which variable a token comes from: the script pass compares the words it captures, not the
    names of variables. */
module Variables {
  import opened Bytes
  import opened Regex
  import opened FormPatterns
  import opened ScriptTokens

  // ---- Variables in a script ----

  /** Where the run of name bytes that ends at `n` begins. */
  function RunStart(script: ByteString, n: nat): (s: nat)
    requires n <= |script|
    ensures s <= n && AllIn(script, IdentTail, s, n) && (s == 0 || !InClass(script[s - 1], IdentTail))
  {
    if n > 0 && InClass(script[n - 1], IdentTail) then RunStart(script, n - 1) else n
  }

  /** Where the white space that ends at `s` begins. */
  function SpaceStart(script: ByteString, s: nat): (k: nat)
    requires s <= |script|
    ensures k <= s && AllIn(script, Spaces, k, s) && (k == 0 || !IsSpace(script[k - 1]))
  {
    if s > 0 && IsSpace(script[s - 1]) then SpaceStart(script, s - 1) else s
  }

  /** What stands at `s` is a property of something. */
  predicate AfterDot(script: ByteString, s: nat) {
    s <= |script| && var k := SpaceStart(script, s); k > 0 && script[k - 1] == '.'
  }

  /** The name `x`, and not the end of a longer one, stands at `s`. */
  predicate NameAt(script: ByteString, s: nat, x: ByteString) {
    && IsIdentifier(x) && OccursAt(script, x, s)
    && (s == 0 || !InClass(script[s - 1], IdentTail))
  }

  /** The variable `x` stands at `s`: a whole name, and no property. */
  predicate VariableAt(script: ByteString, s: nat, x: ByteString) {
    NameAt(script, s, x) && !AfterDot(script, s)
  }

  ghost predicate NamingCall(script: ByteString, i: nat, x: ByteString) {
    exists key, value, end: nat :: NamedWith(script, i, x, key, value, end)
  }

  ghost predicate ValuingCall(script: ByteString, i: nat, x: ByteString) {
    exists key, end: nat :: ValuedWith(script, i, x, key, end)
  }

  /** A mention of the variable that ends at `e` takes the name. */
  ghost predicate TakesName(script: ByteString, x: ByteString, e: nat) {
    exists s: nat :: VariableAt(script, s, x) && s + |x| == e && NamingCall(script, s, x)
  }

  /** A mention of the variable takes the value. */
  ghost predicate TakesValue(script: ByteString, x: ByteString) {
    exists r: nat :: VariableAt(script, r, x) && ValuingCall(script, r, x)
  }

  /** The variable mentioned up to `e` takes the name there, and takes the value. */
  ghost predicate OneVariable(script: ByteString, e: nat) {
    exists x :: TakesName(script, x, e) && TakesValue(script, x)
  }

  // ---- What the captured word says about the variable ----

  /** Before both positions stand the same name bytes, which with the word make an identifier that
      is no property. */
  predicate SameName(script: ByteString, n: nat, v: nat, id: ByteString) {
    && n <= |script| && v <= |script|
    && var s, r := RunStart(script, n), RunStart(script, v);
       && script[s..n] == script[r..v] && IsIdentifier(script[s..n] + id)
       && !AfterDot(script, s) && !AfterDot(script, r)
  }

  /** A word that `v` begins takes the value, and its whole name is that of the word at `n`. */
  ghost predicate SameNameTaken(script: ByteString, n: nat, id: ByteString) {
    exists v: nat :: ValuesAt(script, v, id) && SameName(script, n, v, id)
  }

  lemma {:induction false} RunStartIs(script: ByteString, s: nat, n: nat)
    requires s <= n <= |script| && AllIn(script, IdentTail, s, n) && (s == 0 || !InClass(script[s - 1], IdentTail))
    ensures RunStart(script, n) == s
  {
    if s < n { RunStartIs(script, s, n - 1); }
  }

  lemma {:induction false} RunStartCovers(script: ByteString, n: nat, e: nat)
    requires n <= e <= |script| && AllIn(script, IdentTail, n, e)
    ensures RunStart(script, e) == RunStart(script, n)
  {
    if n < e { RunStartCovers(script, n, e - 1); }
  }

  lemma {:induction false} NameIsTail(script: ByteString, s: nat, x: ByteString)
    requires IsIdentifier(x) && OccursAt(script, x, s)
    ensures AllIn(script, IdentTail, s, s + |x|)
  {
    forall j | s <= j < s + |x| ensures InClass(script[j], IdentTail) {
      assert script[j] == script[s..s + |x|][j - s] == x[j - s];
    }
  }

  /** A name that ends where a captured word ends begins at or before it. */
  lemma {:induction false} NameCoversWord(script: ByteString, s: nat, x: ByteString, n: nat, id: ByteString)
    requires NameAt(script, s, x) && IsIdentifier(id) && OccursAt(script, id, n) && s + |x| == n + |id|
    ensures s <= n && RunStart(script, n) == s && x == script[s..n] + id
  {
    NameIsTail(script, n, id);
    NameIsTail(script, s, x);
    RunStartIs(script, s, n + |id|);
    RunStartCovers(script, n, n + |id|);
    assert script[s..s + |x|] == script[s..n] + script[n..n + |id|];
  }

  /** A word without `$` begins with a word byte, so its boundary is what precedes it. */
  lemma {:induction false} WordBoundary(script: ByteString, n: nat, id: ByteString)
    requires IsIdentifier(id) && '$' !in id && OccursAt(script, id, n)
    ensures BoundaryAt(script, n) <==> n == 0 || !IsWord(script[n - 1])
  {
    assert id[0] in id && script[n] == script[n..n + |id|][0];
  }

  /** The end of a name is a captured word when the rest of the name is. */
  lemma {:induction false} WordInName(script: ByteString, r: nat, v: nat, x: ByteString, before: ByteString,
                                      id: ByteString)
    requires NameAt(script, r, x) && x == before + id && v == r + |before|
    requires IsIdentifier(id) && '$' !in id && (before == [] || !IsWord(before[|before| - 1]))
    ensures OccursAt(script, id, v) && BoundaryAt(script, v)
    ensures RunStart(script, v) == r && script[r..v] == before
  {
    SplitOccurs(script, r, before, id);
    NameIsTail(script, r, x);
    RunStartIs(script, r, v);
    WordBoundary(script, v, id);
    if r < v { assert script[v - 1] == script[r..v][v - r - 1]; }
  }

  lemma {:induction false} ValueMoves(script: ByteString, i: nat, x: ByteString, v: nat, id: ByteString)
    requires ValuingCall(script, i, x) && i + |x| == v + |id|
    ensures ValuingCall(script, v, id)
  {
    var key, end: nat :| ValuedWith(script, i, x, key, end);
    assert ValuedWith(script, v, id, key, end);
  }

  lemma {:induction false} NameMoves(script: ByteString, i: nat, x: ByteString, v: nat, id: ByteString)
    requires NamingCall(script, i, x) && i + |x| == v + |id|
    ensures NamingCall(script, v, id)
  {
    var key, value, end: nat :| NamedWith(script, i, x, key, value, end);
    assert NamedWith(script, v, id, key, value, end);
  }

  /** What precedes a captured word in its name does not end in a word byte. */
  lemma {:induction false} BeforeWord(script: ByteString, s: nat, n: nat, id: ByteString)
    requires s <= n && IsIdentifier(id) && '$' !in id && OccursAt(script, id, n) && BoundaryAt(script, n)
    ensures s < n ==> !IsWord(script[s..n][n - s - 1])
  {
    WordBoundary(script, n, id);
  }

  lemma {:induction false} SameNameFrom(script: ByteString, n: nat, v: nat, s: nat, r: nat, id: ByteString)
    requires n <= |script| && v <= |script| && s == RunStart(script, n) && r == RunStart(script, v)
    requires script[s..n] == script[r..v] && IsIdentifier(script[s..n] + id)
    requires !AfterDot(script, s) && !AfterDot(script, r)
    ensures SameName(script, n, v, id)
  {
  }

  /** The word at the end of another mention of the variable. */
  lemma {:induction false} WordAgrees(script: ByteString, n: nat, id: ByteString, x: ByteString, s: nat, r: nat)
    returns (v: nat)
    requires IsIdentifier(id) && '$' !in id && OccursAt(script, id, n) && BoundaryAt(script, n)
    requires NameAt(script, s, x) && s + |x| == n + |id| && NameAt(script, r, x)
    ensures v + |id| == r + |x| && OccursAt(script, id, v) && BoundaryAt(script, v)
    ensures s == RunStart(script, n) && r == RunStart(script, v)
    ensures script[s..n] == script[r..v] && IsIdentifier(script[s..n] + id)
  {
    NameCoversWord(script, s, x, n, id);
    var before := script[s..n];
    v := r + |before|;
    BeforeWord(script, s, n, id);
    WordInName(script, r, v, x, before, id);
  }

  lemma {:induction false} NamesAgree(script: ByteString, n: nat, id: ByteString, x: ByteString, s: nat, r: nat)
    returns (v: nat)
    requires IsIdentifier(id) && '$' !in id && OccursAt(script, id, n) && BoundaryAt(script, n)
    requires VariableAt(script, s, x) && s + |x| == n + |id| && VariableAt(script, r, x)
    ensures v + |id| == r + |x| && OccursAt(script, id, v) && BoundaryAt(script, v) && SameName(script, n, v, id)
  {
    v := WordAgrees(script, n, id, x, s, r);
    SameNameFrom(script, n, v, s, r, id);
  }

  lemma {:induction false} ValuesFrom(script: ByteString, v: nat, id: ByteString)
    requires BoundaryAt(script, v) && OccursAt(script, id, v) && ValuingCall(script, v, id)
    ensures ValuesAt(script, v, id)
  {
  }

  lemma {:induction false} NameMention(script: ByteString, x: ByteString, e: nat) returns (s: nat)
    requires TakesName(script, x, e)
    ensures VariableAt(script, s, x) && s + |x| == e
  {
    s :| VariableAt(script, s, x) && s + |x| == e && NamingCall(script, s, x);
  }

  lemma {:induction false} ValueMention(script: ByteString, x: ByteString) returns (r: nat)
    requires TakesValue(script, x)
    ensures VariableAt(script, r, x) && ValuingCall(script, r, x)
  {
    r :| VariableAt(script, r, x) && ValuingCall(script, r, x);
  }

  lemma {:induction false} MentionsGiveWord(script: ByteString, n: nat, id: ByteString, x: ByteString, s: nat, r: nat)
    requires IsIdentifier(id) && '$' !in id && OccursAt(script, id, n) && BoundaryAt(script, n)
    requires VariableAt(script, s, x) && s + |x| == n + |id| && VariableAt(script, r, x) && ValuingCall(script, r, x)
    ensures SameNameTaken(script, n, id)
  {
    var v := NamesAgree(script, n, id, x, s, r);
    ValueMoves(script, r, x, v, id);
    ValuesFrom(script, v, id);
    assert ValuesAt(script, v, id) && SameName(script, n, v, id);
  }

  lemma {:induction false} VariableGivesWord(script: ByteString, n: nat, id: ByteString, x: ByteString)
    requires NamesAt(script, n, id) && '$' !in id && TakesName(script, x, n + |id|) && TakesValue(script, x)
    ensures SameNameTaken(script, n, id)
  {
    var s := NameMention(script, x, n + |id|);
    var r := ValueMention(script, x);
    MentionsGiveWord(script, n, id, x, s, r);
  }

  lemma {:induction false} WholeNameAt(script: ByteString, n: nat, id: ByteString, s: nat)
    requires OccursAt(script, id, n) && s == RunStart(script, n) && IsIdentifier(script[s..n] + id)
             && !AfterDot(script, s)
    ensures VariableAt(script, s, script[s..n] + id)
  {
    SplitOccurs(script, s, script[s..n], id);
  }

  lemma {:induction false} WordTakesName(script: ByteString, n: nat, id: ByteString, s: nat)
    requires NamesAt(script, n, id) && s == RunStart(script, n)
    requires IsIdentifier(script[s..n] + id) && !AfterDot(script, s)
    ensures TakesName(script, script[s..n] + id, n + |id|)
  {
    WholeNameAt(script, n, id, s);
    assert NamingCall(script, n, id);
    NameMoves(script, n, id, s, script[s..n] + id);
  }

  lemma {:induction false} WordTakesValue(script: ByteString, v: nat, id: ByteString, r: nat)
    requires ValuesAt(script, v, id) && r == RunStart(script, v)
    requires IsIdentifier(script[r..v] + id) && !AfterDot(script, r)
    ensures TakesValue(script, script[r..v] + id)
  {
    WholeNameAt(script, v, id, r);
    assert ValuingCall(script, v, id);
    ValueMoves(script, v, id, r, script[r..v] + id);
  }

  lemma {:induction false} WordGivesVariable(script: ByteString, n: nat, id: ByteString, v: nat)
    requires NamesAt(script, n, id) && ValuesAt(script, v, id) && SameName(script, n, v, id)
    ensures OneVariable(script, n + |id|)
  {
    WordTakesName(script, n, id, RunStart(script, n));
    WordTakesValue(script, v, id, RunStart(script, v));
  }

  lemma {:induction false} WordMeaning(script: ByteString, n: nat, id: ByteString)
    requires NamesAt(script, n, id) && '$' !in id
    ensures OneVariable(script, n + |id|) <==> SameNameTaken(script, n, id)
  {
    if OneVariable(script, n + |id|) {
      var x :| TakesName(script, x, n + |id|) && TakesValue(script, x);
      VariableGivesWord(script, n, id, x);
    }
    if SameNameTaken(script, n, id) {
      var v: nat :| ValuesAt(script, v, id) && SameName(script, n, v, id);
      WordGivesVariable(script, n, id, v);
    }
  }

  lemma {:induction false} FirstNamesUnique(script: ByteString, n: nat, id: ByteString, m: nat, other: ByteString)
    requires FirstNames(script, n, id) && FirstNames(script, m, other)
    ensures n == m && id == other
  {
    assert n == m;
    IdentifierUnique(script, n, id, other);
  }

  lemma {:induction false} NamedHasNoDollar(script: ByteString, n: nat, id: ByteString)
    requires NamedTakesValue(script) && FirstNames(script, n, id)
    ensures '$' !in id
  {
    var m: nat, v: nat, other: ByteString :|
      FirstNames(script, m, other) && '$' !in other && ValuesAt(script, v, other);
    FirstNamesUnique(script, n, id, m, other);
  }

  /** A token that the pass takes from a script comes from one variable exactly when the bytes
      before the word that first takes the name, and before one that takes the value, make the
      same name. */
  lemma {:induction false} TokenFromOneVariable(script: ByteString, token: ByteString, n: nat, id: ByteString)
    requires ScriptToken(script) == Some(token) && FirstNames(script, n, id)
    ensures OneVariable(script, n + |id|) <==> SameNameTaken(script, n, id)
  {
    ScriptTokenMeaning(script, token);
    NamedHasNoDollar(script, n, id);
    WordMeaning(script, n, id);
  }

  /** A captured word with a `$` in it never gives a token. */
  lemma {:induction false} DollarGivesNone(script: ByteString, n: nat, id: ByteString)
    requires FirstNames(script, n, id) && '$' in id
    ensures ScriptToken(script) == None
  {
    if NamedTakesValue(script) {
      NamedHasNoDollar(script, n, id);
    }
    NoTokenIsNone(script);
  }
}
