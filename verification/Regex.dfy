/** The fragment of ECMAScript regular expressions that the client uses, matched by
    backtracking in priority order, with a declarative meaning to compare against. */
module Regex {
  import opened Bytes

  datatype CharClass =
    | Spaces          // \s
    | Quotes          // ["']
    | NotQuotes       // [^"']
    | NotSingle       // [^']
    | NotDouble       // [^"]
    | NotGreater      // [^>]
    | NotLineEnd      // .
    | Anything        // [\s\S]
    | Letters         // [A-Za-z]
    | Digits          // \d
    | IdentHead       // [A-Za-z_$]
    | IdentTail       // [A-Za-z0-9_$]

  predicate InClass(c: byte, cls: CharClass) {
    match cls
    case Spaces => IsSpace(c)
    case Quotes => c == '\"' || c == '\''
    case NotQuotes => c != '\"' && c != '\''
    case NotSingle => c != '\''
    case NotDouble => c != '\"'
    case NotGreater => c != '>'
    case NotLineEnd => c != '\n' && c != '\r'
    case Anything => true
    case Letters => IsAlpha(c)
    case Digits => IsDigit(c)
    case IdentHead => IsAlpha(c) || c == '_' || c == '$'
    case IdentTail => IsAlnum(c) || c == '_' || c == '$'
  }

  /** A pattern is a chain of items, each carrying what follows it. Mark(k, _) records
      the current position; a capture group is the text between two marks. */
  datatype Regex =
    | Accept
    | Literal(text: ByteString, icase: bool, next: Regex)
    | One(cls: CharClass, next: Regex)
    | Star(cls: CharClass, lazy: bool, next: Regex)
    | Boundary(next: Regex)
    | AtEnd(next: Regex)
    | Mark(id: nat, next: Regex)
    | BackRef(from: nat, to: nat, next: Regex)

  type Marks = map<nat, nat>

  datatype Found = Found(end: nat, marks: Marks)
  datatype Match = Match(start: nat, end: nat, marks: Marks)

  predicate LiteralAt(text: ByteString, literal: ByteString, icase: bool, i: nat) {
    && i + |literal| <= |text|
    && if icase then Lower(text[i..i + |literal|]) == Lower(literal)
       else text[i..i + |literal|] == literal
  }

  /** A literal stands where its text does, or with the flag where its text does up to case. */
  lemma {:induction false} LiteralMeaning(text: ByteString, literal: ByteString, i: nat)
    ensures LiteralAt(text, literal, false, i) <==> OccursAt(text, literal, i)
    ensures LiteralAt(text, literal, true, i) <==> SameTextAt(text, literal, i)
  {
    if i + |literal| <= |text| { LowerMeaning(text[i..i + |literal|], literal); }
  }

  /** The character classes, by the codes of their bytes. */
  lemma {:induction false} ClassMeaning(c: byte)
    ensures InClass(c, Spaces) <==> c as int == 32 || 9 <= c as int <= 13
    ensures InClass(c, Quotes) <==> c as int == 34 || c as int == 39
    ensures InClass(c, NotQuotes) <==> c as int != 34 && c as int != 39
    ensures InClass(c, NotSingle) <==> c as int != 39
    ensures InClass(c, NotDouble) <==> c as int != 34
    ensures InClass(c, NotGreater) <==> c as int != 62
    ensures InClass(c, NotLineEnd) <==> c as int != 10 && c as int != 13
    ensures InClass(c, Anything)
    ensures InClass(c, Letters) <==> 65 <= c as int <= 90 || 97 <= c as int <= 122
    ensures InClass(c, Digits) <==> 48 <= c as int <= 57
    ensures InClass(c, IdentHead) <==> InClass(c, Letters) || c as int == 95 || c as int == 36
    ensures InClass(c, IdentTail) <==> InClass(c, IdentHead) || InClass(c, Digits)
    ensures IsWord(c) <==> InClass(c, Letters) || InClass(c, Digits) || c as int == 95
  {
  }

  predicate WordAt(text: ByteString, i: int) {
    0 <= i < |text| && IsWord(text[i])
  }

  predicate BoundaryAt(text: ByteString, i: nat) {
    WordAt(text, i - 1) != WordAt(text, i)
  }

  /** The pattern that a captured word is when it is spliced into a pattern as it stands: `$` asserts
      the end of the text, and every other byte of an identifier matches itself. */
  function Spliced(word: ByteString, next: Regex): Regex {
    if word == [] then next
    else if word[0] == '$' then AtEnd(Spliced(word[1..], next))
    else Literal([word[0]], false, Spliced(word[1..], next))
  }

  /** The text between two marks; empty when they were not set in order. */
  function Between(text: ByteString, marks: Marks, from: nat, to: nat): ByteString {
    if from in marks && to in marks && marks[from] <= marks[to] <= |text|
    then text[marks[from]..marks[to]] else []
  }

  /** The least number of bytes a match consumes. */
  function MinLength(re: Regex): nat {
    match re
    case Accept => 0
    case Literal(t, _, next) => |t| + MinLength(next)
    case One(_, next) => 1 + MinLength(next)
    case Star(_, _, next) => MinLength(next)
    case Boundary(next) => MinLength(next)
    case AtEnd(next) => MinLength(next)
    case Mark(_, next) => MinLength(next)
    case BackRef(_, _, next) => MinLength(next)
  }

  /** Match `re` at position `i` by backtracking: a greedy star prefers one more byte,
      a lazy star prefers to stop. */
  function Run(re: Regex, text: ByteString, i: nat, marks: Marks): (r: Option<Found>)
    requires i <= |text|
    ensures r.Some? ==> i + MinLength(re) <= r.value.end <= |text|
    decreases re, |text| - i
  {
    match re
    case Accept => Some(Found(i, marks))
    case Literal(t, icase, next) =>
      if LiteralAt(text, t, icase, i) then Run(next, text, i + |t|, marks) else None
    case One(cls, next) =>
      if i < |text| && InClass(text[i], cls) then Run(next, text, i + 1, marks) else None
    case Star(cls, lazy, next) =>
      var more := if i < |text| && InClass(text[i], cls) then Run(re, text, i + 1, marks) else None;
      var stop := Run(next, text, i, marks);
      if lazy then (if stop.Some? then stop else more)
      else (if more.Some? then more else stop)
    case Boundary(next) =>
      if BoundaryAt(text, i) then Run(next, text, i, marks) else None
    case AtEnd(next) =>
      if i == |text| then Run(next, text, i, marks) else None
    case Mark(id, next) => Run(next, text, i, marks[id := i])
    case BackRef(a, b, next) =>
      var t := Between(text, marks, a, b);
      if OccursAt(text, t, i) then Run(next, text, i + |t|, marks) else None
  }

  /** Every byte of text[i..k] is in the class. */
  predicate AllIn(text: ByteString, cls: CharClass, i: nat, k: nat)
    requires k <= |text|
  {
    forall j :: i <= j < k ==> InClass(text[j], cls)
  }

  /** What a pattern allows, with no search order: some way of choosing how far each
      star reaches makes every item fit. */
  ghost predicate Accepts(re: Regex, text: ByteString, i: nat, marks: Marks, found: Found)
    requires i <= |text|
    decreases re, 0
  {
    match re
    case Accept => found == Found(i, marks)
    case Literal(t, icase, next) =>
      LiteralAt(text, t, icase, i) && Accepts(next, text, i + |t|, marks, found)
    case One(cls, next) =>
      i < |text| && InClass(text[i], cls) && Accepts(next, text, i + 1, marks, found)
    case Star(cls, _, next) =>
      exists k :: Reaches(cls, next, text, i, k, marks, found)
    case Boundary(next) =>
      BoundaryAt(text, i) && Accepts(next, text, i, marks, found)
    case AtEnd(next) =>
      i == |text| && Accepts(next, text, i, marks, found)
    case Mark(id, next) => Accepts(next, text, i, marks[id := i], found)
    case BackRef(a, b, next) =>
      var t := Between(text, marks, a, b);
      OccursAt(text, t, i) && Accepts(next, text, i + |t|, marks, found)
  }

  /** A star may run from `i` to `k`, and what follows it fits from there. */
  ghost predicate Reaches(cls: CharClass, next: Regex, text: ByteString, i: nat, k: nat, marks: Marks, found: Found)
    decreases next, 1
  {
    i <= k <= |text| && AllIn(text, cls, i, k) && Accepts(next, text, k, marks, found)
  }

  /** The backtracking search misses no match the pattern allows. */
  lemma {:induction false} RunComplete(re: Regex, text: ByteString, i: nat, marks: Marks, found: Found)
    requires i <= |text|
    requires Accepts(re, text, i, marks, found)
    ensures Run(re, text, i, marks).Some?
    decreases re, 1
  {
    match re
    case Accept =>
    case Boundary(next) => RunComplete(next, text, i, marks, found);
    case AtEnd(next) => RunComplete(next, text, i, marks, found);
    case Mark(id, next) => RunComplete(next, text, i, marks[id := i], found);
    case Star(cls, lazy, next) =>
      var k :| Reaches(cls, next, text, i, k, marks, found);
      RunComplete(next, text, k, marks, found);
      StarReaches(cls, lazy, next, text, i, k, marks);
    case _ => TakenComplete(re, text, i, marks, found);
  }

  lemma {:induction false} TakenComplete(re: Regex, text: ByteString, i: nat, marks: Marks, found: Found)
    requires i <= |text| && (re.Literal? || re.One? || re.BackRef?)
    requires Accepts(re, text, i, marks, found)
    ensures Run(re, text, i, marks).Some?
    decreases re, 0
  {
    match re
    case Literal(t, _, next) => RunComplete(next, text, i + |t|, marks, found);
    case One(_, next) => RunComplete(next, text, i + 1, marks, found);
    case BackRef(a, b, next) => RunComplete(next, text, i + |Between(text, marks, a, b)|, marks, found);
  }

  /** A star succeeds when what follows it succeeds at any point the star can reach. */
  lemma {:induction false} StarReaches(cls: CharClass, lazy: bool, next: Regex, text: ByteString, i: nat,
                                       k: nat, marks: Marks)
    requires i <= k <= |text| && AllIn(text, cls, i, k)
    requires Run(next, text, k, marks).Some?
    ensures Run(Star(cls, lazy, next), text, i, marks).Some?
    decreases k - i
  {
    if i < k { StarReaches(cls, lazy, next, text, i + 1, k, marks); }
  }

  /** What a pattern means: of the ways it allows, the one in which each star in turn reaches
      as far as it can, or if it is lazy as near as it can, with the rest still fitting. */
  ghost predicate Means(re: Regex, text: ByteString, i: nat, marks: Marks, found: Found)
    requires i <= |text|
    decreases re, 0
  {
    match re
    case Accept => found == Found(i, marks)
    case Literal(t, icase, next) =>
      LiteralAt(text, t, icase, i) && Means(next, text, i + |t|, marks, found)
    case One(cls, next) =>
      i < |text| && InClass(text[i], cls) && Means(next, text, i + 1, marks, found)
    case Star(cls, lazy, next) =>
      exists k :: Prefers(cls, lazy, next, text, i, k, marks, found)
    case Boundary(next) =>
      BoundaryAt(text, i) && Means(next, text, i, marks, found)
    case AtEnd(next) =>
      i == |text| && Means(next, text, i, marks, found)
    case Mark(id, next) => Means(next, text, i, marks[id := i], found)
    case BackRef(a, b, next) =>
      var t := Between(text, marks, a, b);
      OccursAt(text, t, i) && Means(next, text, i + |t|, marks, found)
  }

  /** The star reaches `k`, the rest means what it means from there, and no point the star
      likes better would do. */
  ghost predicate Prefers(cls: CharClass, lazy: bool, next: Regex, text: ByteString, i: nat, k: nat, marks: Marks,
                          found: Found)
    decreases next, 1
  {
    && i <= k <= |text| && AllIn(text, cls, i, k) && Means(next, text, k, marks, found)
    && forall j: nat :: CouldStop(cls, next, text, i, j, marks) ==> if lazy then k <= j else j <= k
  }

  ghost predicate CouldStop(cls: CharClass, next: Regex, text: ByteString, i: nat, j: nat, marks: Marks) {
    exists found :: Reaches(cls, next, text, i, j, marks, found)
  }

  lemma {:induction false} StopNeedsRun(cls: CharClass, next: Regex, text: ByteString, i: nat, j: nat, marks: Marks)
    requires i <= |text| && CouldStop(cls, next, text, i, j, marks)
    ensures i <= j <= |text| && AllIn(text, cls, i, j) && Run(next, text, j, marks).Some?
  {
    var found :| Reaches(cls, next, text, i, j, marks, found);
    RunComplete(next, text, j, marks, found);
  }

  lemma {:induction false} StopsHere(cls: CharClass, lazy: bool, next: Regex, text: ByteString, i: nat,
                                     marks: Marks, found: Found)
    requires i <= |text| && Means(next, text, i, marks, found)
    requires !lazy ==> Run(Star(cls, lazy, next), text, i, marks) == Run(next, text, i, marks)
    requires !lazy && i < |text| && InClass(text[i], cls) ==> Run(Star(cls, lazy, next), text, i + 1, marks).None?
    ensures Means(Star(cls, lazy, next), text, i, marks, found)
  {
    forall j: nat | CouldStop(cls, next, text, i, j, marks) ensures if lazy then i <= j else j <= i {
      StopNeedsRun(cls, next, text, i, j, marks);
      if i < j { StarReaches(cls, lazy, next, text, i + 1, j, marks); }
    }
    assert Prefers(cls, lazy, next, text, i, i, marks, found);
  }

  lemma {:induction false} GoesOn(cls: CharClass, lazy: bool, next: Regex, text: ByteString, i: nat,
                                  marks: Marks, found: Found)
    requires i < |text| && InClass(text[i], cls) && Means(Star(cls, lazy, next), text, i + 1, marks, found)
    requires lazy ==> Run(next, text, i, marks).None?
    ensures Means(Star(cls, lazy, next), text, i, marks, found)
  {
    var k: nat :| Prefers(cls, lazy, next, text, i + 1, k, marks, found);
    forall j: nat | CouldStop(cls, next, text, i, j, marks) ensures if lazy then k <= j else j <= k {
      StopNeedsRun(cls, next, text, i, j, marks);
      if i < j {
        var f :| Reaches(cls, next, text, i, j, marks, f);
        assert Reaches(cls, next, text, i + 1, j, marks, f);
        assert CouldStop(cls, next, text, i + 1, j, marks);
      }
    }
    assert Prefers(cls, lazy, next, text, i, k, marks, found);
  }

  /** What backtracking finds is what the pattern means. */
  lemma {:induction false} RunMeans(re: Regex, text: ByteString, i: nat, marks: Marks)
    requires i <= |text|
    ensures var r := Run(re, text, i, marks); r.Some? ==> Means(re, text, i, marks, r.value)
    decreases re, |text| - i, 1
  {
    match re
    case Accept =>
    case Star(cls, lazy, next) => StarMeans(cls, lazy, next, text, i, marks);
    case Boundary(next) => RunMeans(next, text, i, marks);
    case AtEnd(next) => RunMeans(next, text, i, marks);
    case Mark(id, next) => RunMeans(next, text, i, marks[id := i]);
    case _ => TakenMeans(re, text, i, marks);
  }

  lemma {:induction false} TakenMeans(re: Regex, text: ByteString, i: nat, marks: Marks)
    requires i <= |text| && (re.Literal? || re.One? || re.BackRef?)
    ensures var r := Run(re, text, i, marks); r.Some? ==> Means(re, text, i, marks, r.value)
    decreases re, |text| - i, 0
  {
    match re
    case Literal(t, icase, next) =>
      if LiteralAt(text, t, icase, i) { RunMeans(next, text, i + |t|, marks); }
    case One(cls, next) =>
      if i < |text| { RunMeans(next, text, i + 1, marks); }
    case BackRef(a, b, next) =>
      var t := Between(text, marks, a, b);
      if OccursAt(text, t, i) { RunMeans(next, text, i + |t|, marks); }
  }

  lemma {:induction false} StarMeans(cls: CharClass, lazy: bool, next: Regex, text: ByteString, i: nat, marks: Marks)
    requires i <= |text|
    ensures var r := Run(Star(cls, lazy, next), text, i, marks);
            r.Some? ==> Means(Star(cls, lazy, next), text, i, marks, r.value)
    decreases Star(cls, lazy, next), |text| - i, 0
  {
    var re := Star(cls, lazy, next);
    var more := if i < |text| && InClass(text[i], cls) then Run(re, text, i + 1, marks) else None;
    var stop := Run(next, text, i, marks);
    RunMeans(next, text, i, marks);
    if more.Some? { RunMeans(re, text, i + 1, marks); }
    if more.Some? && (!lazy || stop.None?) {
      GoesOn(cls, lazy, next, text, i, marks, more.value);
    } else if stop.Some? {
      StopsHere(cls, lazy, next, text, i, marks, stop.value);
    }
  }

  lemma {:induction false} MeansAccepts(re: Regex, text: ByteString, i: nat, marks: Marks, found: Found)
    requires i <= |text| && Means(re, text, i, marks, found)
    ensures Accepts(re, text, i, marks, found)
    decreases re
  {
    match re
    case Accept =>
    case Literal(t, _, next) => MeansAccepts(next, text, i + |t|, marks, found);
    case One(_, next) => MeansAccepts(next, text, i + 1, marks, found);
    case Star(cls, lazy, next) =>
      var k: nat :| Prefers(cls, lazy, next, text, i, k, marks, found);
      MeansAccepts(next, text, k, marks, found);
      assert Reaches(cls, next, text, i, k, marks, found);
    case Boundary(next) => MeansAccepts(next, text, i, marks, found);
    case AtEnd(next) => MeansAccepts(next, text, i, marks, found);
    case Mark(id, next) => MeansAccepts(next, text, i, marks[id := i], found);
    case BackRef(a, b, next) => MeansAccepts(next, text, i + |Between(text, marks, a, b)|, marks, found);
  }

  /** A pattern means at most one match at each position. */
  lemma {:induction false} MeansUnique(re: Regex, text: ByteString, i: nat, marks: Marks, found: Found, other: Found)
    requires i <= |text| && Means(re, text, i, marks, found) && Means(re, text, i, marks, other)
    ensures found == other
    decreases re, 1
  {
    match re
    case Accept =>
    case Literal(t, _, next) => MeansUnique(next, text, i + |t|, marks, found, other);
    case One(_, next) => MeansUnique(next, text, i + 1, marks, found, other);
    case Star(cls, lazy, next) => StarUnique(cls, lazy, next, text, i, marks, found, other);
    case Boundary(next) => MeansUnique(next, text, i, marks, found, other);
    case AtEnd(next) => MeansUnique(next, text, i, marks, found, other);
    case Mark(id, next) => MeansUnique(next, text, i, marks[id := i], found, other);
    case BackRef(a, b, next) =>
      MeansUnique(next, text, i + |Between(text, marks, a, b)|, marks, found, other);
  }

  lemma {:induction false} StarUnique(cls: CharClass, lazy: bool, next: Regex, text: ByteString, i: nat, marks: Marks,
                                      found: Found, other: Found)
    requires i <= |text|
    requires Means(Star(cls, lazy, next), text, i, marks, found) && Means(Star(cls, lazy, next), text, i, marks, other)
    ensures found == other
    decreases Star(cls, lazy, next), 0
  {
    var k: nat :| Prefers(cls, lazy, next, text, i, k, marks, found);
    var l: nat :| Prefers(cls, lazy, next, text, i, l, marks, other);
    MeansAccepts(next, text, k, marks, found);
    MeansAccepts(next, text, l, marks, other);
    assert Reaches(cls, next, text, i, k, marks, found) && Reaches(cls, next, text, i, l, marks, other);
    assert CouldStop(cls, next, text, i, k, marks) && CouldStop(cls, next, text, i, l, marks);
    MeansUnique(next, text, k, marks, found, other);
  }

  /** Backtracking computes exactly what the pattern means. */
  lemma {:induction false} RunMeaning(re: Regex, text: ByteString, i: nat, marks: Marks, found: Found)
    requires i <= |text|
    ensures Run(re, text, i, marks) == Some(found) <==> Means(re, text, i, marks, found)
  {
    RunMeans(re, text, i, marks);
    if Means(re, text, i, marks, found) {
      MeansAccepts(re, text, i, marks, found);
      RunComplete(re, text, i, marks, found);
      MeansUnique(re, text, i, marks, found, Run(re, text, i, marks).value);
    }
  }

  /** The backtracking search only reports matches the pattern allows. */
  lemma {:induction false} RunSound(re: Regex, text: ByteString, i: nat, marks: Marks)
    requires i <= |text|
    ensures var r := Run(re, text, i, marks); r.Some? ==> Accepts(re, text, i, marks, r.value)
  {
    RunMeans(re, text, i, marks);
    var r := Run(re, text, i, marks);
    if r.Some? { MeansAccepts(re, text, i, marks, r.value); }
  }

  lemma {:induction false} SplicedLength(word: ByteString, next: Regex)
    ensures MinLength(Spliced(word, next)) >= MinLength(next)
  {
    if word != [] { SplicedLength(word[1..], next); }
  }

  lemma {:induction false} SplicedStep(word: ByteString, next: Regex, text: ByteString, i: nat, marks: Marks)
    requires word != [] && word[0] != '$' && i <= |text|
    ensures Run(Spliced(word, next), text, i, marks) ==
            if LiteralAt(text, [word[0]], false, i) then Run(Spliced(word[1..], next), text, i + 1, marks) else None
  {
  }

  lemma {:induction false} AtEndFails(next: Regex, text: ByteString, i: nat, marks: Marks)
    requires MinLength(next) > 0 && i <= |text|
    ensures Run(AtEnd(next), text, i, marks).None?
  {
  }

  /** A spliced word with a `$` in it never matches before something that takes a byte. */
  lemma {:induction false} SplicedDollar(word: ByteString, next: Regex, text: ByteString, i: nat, marks: Marks)
    requires '$' in word && MinLength(next) > 0 && i <= |text|
    ensures Run(Spliced(word, next), text, i, marks).None?
  {
    if word[0] == '$' {
      SplicedLength(word[1..], next);
      AtEndFails(Spliced(word[1..], next), text, i, marks);
    } else {
      SplicedStep(word, next, text, i, marks);
      if i < |text| { SplicedDollar(word[1..], next, text, i + 1, marks); }
    }
  }

  lemma {:induction false} FirstByteAt(text: ByteString, word: ByteString, i: nat)
    requires word != []
    ensures LiteralAt(text, word, false, i) <==>
            LiteralAt(text, [word[0]], false, i) && LiteralAt(text, word[1..], false, i + 1)
  {
    assert word == [word[0]] + word[1..];
    SplitOccurs(text, i, [word[0]], word[1..]);
  }

  lemma {:induction false} LiteralStep(word: ByteString, next: Regex, text: ByteString, i: nat, marks: Marks)
    requires word != [] && i <= |text|
    ensures Run(Literal(word, false, next), text, i, marks) ==
            if LiteralAt(text, [word[0]], false, i) then Run(Literal(word[1..], false, next), text, i + 1, marks)
            else None
  {
    FirstByteAt(text, word, i);
  }

  /** Without a `$` it matches as a literal. */
  lemma {:induction false} SplicedLiteral(word: ByteString, next: Regex, text: ByteString, i: nat, marks: Marks)
    requires '$' !in word && i <= |text|
    ensures Run(Spliced(word, next), text, i, marks) == Run(Literal(word, false, next), text, i, marks)
  {
    if word != [] {
      LiteralStep(word, next, text, i, marks);
      SplicedStep(word, next, text, i, marks);
      if i < |text| { SplicedLiteral(word[1..], next, text, i + 1, marks); }
    }
  }

  /** A greedy star takes the longest run after which the rest succeeds. */
  lemma {:induction false} GreedyStar(cls: CharClass, next: Regex, text: ByteString, i: nat, k: nat, marks: Marks)
    requires i <= k <= |text| && AllIn(text, cls, i, k)
    requires k == |text| || !InClass(text[k], cls)
    requires Run(next, text, k, marks).Some?
    ensures Run(Star(cls, false, next), text, i, marks) == Run(next, text, k, marks)
    decreases k - i
  {
    if i < k { GreedyStar(cls, next, text, i + 1, k, marks); }
  }

  /** A lazy star stops at the first point where the rest succeeds. */
  lemma {:induction false} LazyStar(cls: CharClass, next: Regex, text: ByteString, i: nat, k: nat, marks: Marks)
    requires i <= k <= |text| && AllIn(text, cls, i, k)
    requires forall j :: i <= j < k ==> Run(next, text, j, marks).None?
    requires Run(next, text, k, marks).Some?
    ensures Run(Star(cls, true, next), text, i, marks) == Run(next, text, k, marks)
    decreases k - i
  {
    if i < k {
      LazyStar(cls, next, text, i + 1, k, marks);
      assert Run(next, text, i, marks).None?;
    }
  }

  /** One or more bytes of a class, then the rest. */
  lemma {:induction false} PlusRuns(cls: CharClass, next: Regex, text: ByteString, i: nat, k: nat, marks: Marks)
    requires i < k <= |text| && AllIn(text, cls, i, k)
    requires k == |text| || !InClass(text[k], cls)
    requires Run(next, text, k, marks).Some?
    ensures Run(One(cls, Star(cls, false, next)), text, i, marks) == Run(next, text, k, marks)
  {
    GreedyStar(cls, next, text, i + 1, k, marks);
  }

  lemma {:induction false} PlusAccepted(cls: CharClass, next: Regex, text: ByteString, i: nat, marks: Marks,
                                        found: Found)
    returns (k: nat)
    requires i <= |text| && Accepts(One(cls, Star(cls, false, next)), text, i, marks, found)
    ensures i < k <= |text| && AllIn(text, cls, i, k) && Accepts(next, text, k, marks, found)
  {
    assert Accepts(Star(cls, false, next), text, i + 1, marks, found);
    k :| Reaches(cls, next, text, i + 1, k, marks, found);
  }

  lemma {:induction false} PieceInClass(text: ByteString, s: ByteString, cls: CharClass, i: nat)
    requires OccursAt(text, s, i) && forall c :: c in s ==> InClass(c, cls)
    ensures AllIn(text, cls, i, i + |s|)
  {
    forall j | i <= j < i + |s| ensures InClass(text[j], cls) { assert text[j] == text[i..i + |s|][j - i]; }
  }

  lemma {:induction false} FirstOfPiece(text: ByteString, s: ByteString, i: nat)
    requires OccursAt(text, s, i) && s != []
    ensures text[i] == s[0]
  {
    assert text[i..i + |s|][0] == text[i];
  }

  /** std::regex_search: the match with the least start at or after `from`. */
  function Search(re: Regex, text: ByteString, from: nat): (r: Option<Match>)
    requires from <= |text|
    ensures r.Some? ==> from <= r.value.start && r.value.start + MinLength(re) <= r.value.end <= |text|
    decreases |text| - from
  {
    match Run(re, text, from, map[])
    case Some(f) => Some(Match(from, f.end, f.marks))
    case None => if from < |text| then Search(re, text, from + 1) else None
  }

  /** std::sregex_iterator: search again from the end of each match. */
  function FindAll(re: Regex, text: ByteString, from: nat): (ms: seq<Match>)
    requires from <= |text| && MinLength(re) > 0
    decreases |text| - from
  {
    match Search(re, text, from)
    case None => []
    case Some(m) => [m] + FindAll(re, text, m.end)
  }

  /** The pattern runs nowhere in from..to. */
  ghost predicate Quiet(re: Regex, text: ByteString, from: nat, to: nat) {
    forall j :: from <= j < to && j <= |text| ==> Run(re, text, j, map[]).None?
  }

  /** The match a search reports is the first, and a search that fails had none to find. */
  lemma {:induction false} SearchFirst(re: Regex, text: ByteString, from: nat)
    requires from <= |text|
    ensures match Search(re, text, from)
            case Some(m) => Quiet(re, text, from, m.start)
              && Run(re, text, m.start, map[]) == Some(Found(m.end, m.marks))
            case None => Quiet(re, text, from, |text| + 1)
    decreases |text| - from
  {
    if Run(re, text, from, map[]).None? && from < |text| { SearchFirst(re, text, from + 1); }
  }

  lemma {:induction false} SearchAt(re: Regex, text: ByteString, from: nat, i: nat)
    requires from <= i <= |text| && Run(re, text, i, map[]).Some? && Quiet(re, text, from, i)
    ensures Search(re, text, from) == Some(MatchAt(re, text, i))
  {
    SearchFirst(re, text, from);
  }

  function MatchAt(re: Regex, text: ByteString, i: nat): (m: Match)
    requires i <= |text| && Run(re, text, i, map[]).Some?
    ensures i + MinLength(re) <= m.end <= |text|
  {
    var f := Run(re, text, i, map[]).value;
    Match(i, f.end, f.marks)
  }

  lemma {:induction false} FindAllNext(re: Regex, text: ByteString, from: nat, i: nat)
    requires from <= i <= |text| && MinLength(re) > 0
    requires Quiet(re, text, from, i) && Run(re, text, i, map[]).Some?
    ensures FindAll(re, text, from) == [MatchAt(re, text, i)] + FindAll(re, text, MatchAt(re, text, i).end)
  {
    SearchAt(re, text, from, i);
  }

  lemma {:induction false} FindAllNone(re: Regex, text: ByteString, from: nat)
    requires from <= |text| && MinLength(re) > 0
    requires Quiet(re, text, from, |text| + 1)
    ensures FindAll(re, text, from) == []
  {
    SearchFirst(re, text, from);
  }

  /** The pattern matches somewhere from position `i`. */
  ghost predicate MatchesAt(re: Regex, text: ByteString, i: nat)
    requires i <= |text|
  {
    exists found :: Accepts(re, text, i, map[], found)
  }

  lemma {:induction false} MatchesAtIffRun(re: Regex, text: ByteString, i: nat)
    requires i <= |text|
    ensures MatchesAt(re, text, i) <==> Run(re, text, i, map[]).Some?
  {
    RunSound(re, text, i, map[]);
    if MatchesAt(re, text, i) {
      var found :| Accepts(re, text, i, map[], found);
      RunComplete(re, text, i, map[], found);
    }
  }

  /** The pattern matches nowhere in from..to. */
  ghost predicate NoMatchIn(re: Regex, text: ByteString, from: nat, to: nat)
  {
    forall j :: from <= j < to && j <= |text| ==> !MatchesAt(re, text, j)
  }

  ghost predicate IsMatch(re: Regex, text: ByteString, m: Match) {
    && m.start <= m.end <= |text|
    && Means(re, text, m.start, map[], Found(m.end, m.marks))
  }

  /** The matches a scan reports, stated without the scan: the pattern matches nowhere before
      the first, which is what the pattern means where it starts, and the others are the
      matches from its end on. */
  ghost predicate IsScan(re: Regex, text: ByteString, from: nat, ms: seq<Match>)
    decreases |ms|
  {
    if ms == [] then NoMatchIn(re, text, from, |text| + 1)
    else
      && from <= ms[0].start && NoMatchIn(re, text, from, ms[0].start) && IsMatch(re, text, ms[0])
      && IsScan(re, text, ms[0].end, ms[1..])
  }

  lemma {:induction false} QuietIsNoMatch(re: Regex, text: ByteString, from: nat, to: nat)
    requires Quiet(re, text, from, to)
    ensures NoMatchIn(re, text, from, to)
  {
    forall j: nat | from <= j < to && j <= |text| ensures !MatchesAt(re, text, j) { MatchesAtIffRun(re, text, j); }
  }

  lemma {:induction false} FindAllIsScan(re: Regex, text: ByteString, from: nat)
    requires from <= |text| && MinLength(re) > 0
    ensures IsScan(re, text, from, FindAll(re, text, from))
    decreases |text| - from
  {
    SearchFirst(re, text, from);
    match Search(re, text, from)
    case None => QuietIsNoMatch(re, text, from, |text| + 1);
    case Some(m) =>
      RunMeans(re, text, m.start, map[]);
      QuietIsNoMatch(re, text, from, m.start);
      FindAllIsScan(re, text, m.end);
  }

  lemma {:induction false} FirstStarts(re: Regex, text: ByteString, from: nat, m: Match, other: Match)
    requires from <= m.start && NoMatchIn(re, text, from, m.start) && IsMatch(re, text, m)
    requires from <= other.start && NoMatchIn(re, text, from, other.start) && IsMatch(re, text, other)
    ensures m == other
  {
    var f, g := Found(m.end, m.marks), Found(other.end, other.marks);
    MeansAccepts(re, text, m.start, map[], f);
    MeansAccepts(re, text, other.start, map[], g);
    assert MatchesAt(re, text, m.start) && MatchesAt(re, text, other.start);
    assert m.start == other.start;
    MeansUnique(re, text, m.start, map[], f, g);
  }

  lemma {:induction false} NoneAfter(re: Regex, text: ByteString, from: nat, m: Match)
    requires from <= m.start && IsMatch(re, text, m)
    ensures !NoMatchIn(re, text, from, |text| + 1)
  {
    MeansAccepts(re, text, m.start, map[], Found(m.end, m.marks));
    assert MatchesAt(re, text, m.start);
  }

  lemma {:induction false} ScanUnique(re: Regex, text: ByteString, from: nat, ms: seq<Match>, ns: seq<Match>)
    requires IsScan(re, text, from, ms) && IsScan(re, text, from, ns)
    ensures ms == ns
    decreases |ms|
  {
    if ms == [] {
      if ns != [] { NoneAfter(re, text, from, ns[0]); }
    } else if ns == [] {
      NoneAfter(re, text, from, ms[0]);
    } else {
      FirstStarts(re, text, from, ms[0], ns[0]);
      ScanUnique(re, text, ms[0].end, ms[1..], ns[1..]);
      assert ms == [ms[0]] + ms[1..] && ns == [ns[0]] + ns[1..];
    }
  }

  /** Iterating a pattern over a text gives exactly the leftmost, non-overlapping matches, each
      with the end and the captures the pattern means. */
  lemma {:induction false} FindAllMeaning(re: Regex, text: ByteString, from: nat, ms: seq<Match>)
    requires from <= |text| && MinLength(re) > 0
    ensures ms == FindAll(re, text, from) <==> IsScan(re, text, from, ms)
  {
    FindAllIsScan(re, text, from);
    if IsScan(re, text, from, ms) { ScanUnique(re, text, from, ms, FindAll(re, text, from)); }
  }

  lemma {:induction false} ScanMatches(re: Regex, text: ByteString, from: nat, ms: seq<Match>, i: nat)
    requires IsScan(re, text, from, ms) && i < |ms|
    ensures from <= ms[i].start && IsMatch(re, text, ms[i])
    decreases i
  {
    if i > 0 { ScanMatches(re, text, ms[0].end, ms[1..], i - 1); }
  }

  /** Each match a scan reports is the one backtracking finds at its start. */
  lemma {:induction false} FindAllRuns(re: Regex, text: ByteString, from: nat, i: nat)
    requires from <= |text| && MinLength(re) > 0 && i < |FindAll(re, text, from)|
    ensures var m := FindAll(re, text, from)[i];
            from <= m.start <= |text| && Run(re, text, m.start, map[]) == Some(Found(m.end, m.marks))
  {
    var m := FindAll(re, text, from)[i];
    FindAllIsScan(re, text, from);
    ScanMatches(re, text, from, FindAll(re, text, from), i);
    RunMeaning(re, text, m.start, map[], Found(m.end, m.marks));
  }
}
