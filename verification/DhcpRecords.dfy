/** The Transfer_meaning records of the DHCP client page: the pattern that scans for them
    and the text it accepts. */
module DhcpRecords {
  import opened Bytes
  import opened Regex
  import opened Numbers
  import opened Pages

  /** The three captures of the record pattern. */
  datatype RawRecord = RawRecord(key: ByteString, index: ByteString, value: ByteString)

  // Transfer_meaning\('([A-Za-z]+)(\d+)','([^']*)'\);
  const RECORD_CLOSE: Regex := Mark(4, Literal("');", false, Accept))
  const RECORD_VALUE: Regex := Literal("','", false, Mark(3, Star(NotSingle, false, RECORD_CLOSE)))
  const RECORD_INDEX: Regex := Mark(1, One(Digits, Star(Digits, false, Mark(2, RECORD_VALUE))))
  const RECORD_KEY: Regex := Mark(0, One(Letters, Star(Letters, false, RECORD_INDEX)))
  const RECORD: Regex := Literal("Transfer_meaning('", false, RECORD_KEY)

  function CapturesOf(text: ByteString, m: Match): RawRecord {
    RawRecord(Between(text, m.marks, 0, 1), Between(text, m.marks, 1, 2), Between(text, m.marks, 3, 4))
  }

  function RawRecords(text: ByteString, ms: seq<Match>): seq<RawRecord> {
    seq(|ms|, i requires 0 <= i < |ms| => CapturesOf(text, ms[i]))
  }

  function ScanFrom(text: ByteString, from: nat): seq<RawRecord>
    requires from <= |text|
  {
    RawRecords(text, FindAll(RECORD, text, from))
  }

  ghost predicate IsRawRecord(r: RawRecord) {
    && r.key != [] && (forall c :: c in r.key ==> IsAlpha(c))
    && r.index != [] && AllDigits(r.index)
    && '\'' !in r.value
  }

  function PrintRaw(r: RawRecord): ByteString {
    "Transfer_meaning('" + (r.key + (r.index + ("','" + (r.value + "');"))))
  }

  /** A record as printed, and the text between it and the next one. */
  datatype Printed = Printed(record: RawRecord, after: ByteString)

  function Pieces(items: seq<Printed>): seq<Piece> {
    seq(|items|, i requires 0 <= i < |items| => Piece(PrintRaw(items[i].record), items[i].after))
  }

  function RecordsOf(items: seq<Printed>): seq<RawRecord> {
    seq(|items|, i requires 0 <= i < |items| => items[i].record)
  }

  ghost predicate AllRaw(items: seq<Printed>) {
    forall p :: p in items ==> IsRawRecord(p.record)
  }

  /** A well-formed record stands at position `i`. */
  ghost predicate StandsAt(text: ByteString, i: int, r: RawRecord) {
    IsRawRecord(r) && OccursAt(text, PrintRaw(r), i)
  }

  ghost predicate RecordAt(text: ByteString, i: int) {
    exists r :: StandsAt(text, i, r)
  }

  /** The text is these records, and no other record stands between them. */
  ghost predicate IsPage(page: ByteString, lead: ByteString, items: seq<Printed>) {
    && page == lead + Join(Pieces(items)) && AllRaw(items)
    && forall j: nat :: InGap(lead, Pieces(items), j) ==> !RecordAt(page, j)
  }

  lemma {:induction false} CloseRuns(text: ByteString, i: nat, marks: Marks)
    requires OccursAt(text, "');", i)
    ensures Run(RECORD_CLOSE, text, i, marks) == Some(Found(i + 3, marks[4 := i]))
  {
    assert Run(Accept, text, i + 3, marks[4 := i]) == Some(Found(i + 3, marks[4 := i]));
    assert Run(Literal("');", false, Accept), text, i, marks[4 := i]) == Run(Accept, text, i + 3, marks[4 := i]);
  }

  lemma {:induction false} ValueRuns(text: ByteString, i: nat, e: nat, marks: Marks)
    requires OccursAt(text, "','", i) && i + 3 <= e && OccursAt(text, "');", e)
    requires AllIn(text, NotSingle, i + 3, e)
    ensures Run(RECORD_VALUE, text, i, marks) == Some(Found(e + 3, marks[3 := i + 3][4 := e]))
  {
    var m := marks[3 := i + 3];
    CloseRuns(text, e, m);
    FirstOfPiece(text, "');", e);
    GreedyStar(NotSingle, RECORD_CLOSE, text, i + 3, e, m);
    assert Run(Mark(3, Star(NotSingle, false, RECORD_CLOSE)), text, i + 3, marks) == Run(RECORD_CLOSE, text, e, m);
  }

  lemma {:induction false} IndexRuns(text: ByteString, i: nat, d: nat, e: nat, marks: Marks)
    requires i < d && OccursAt(text, "','", d) && d + 3 <= e && OccursAt(text, "');", e)
    requires AllIn(text, Digits, i, d) && AllIn(text, NotSingle, d + 3, e)
    ensures Run(RECORD_INDEX, text, i, marks) == Some(Found(e + 3, marks[1 := i][2 := d][3 := d + 3][4 := e]))
  {
    var m := marks[1 := i];
    ValueRuns(text, d, e, m[2 := d]);
    assert Run(Mark(2, RECORD_VALUE), text, d, m) == Run(RECORD_VALUE, text, d, m[2 := d]);
    FirstOfPiece(text, "','", d);
    PlusRuns(Digits, Mark(2, RECORD_VALUE), text, i, d, m);
  }

  lemma {:induction false} KeyRuns(text: ByteString, i: nat, k: nat, d: nat, e: nat, marks: Marks)
    requires i < k < d && OccursAt(text, "','", d) && d + 3 <= e && OccursAt(text, "');", e)
    requires AllIn(text, Letters, i, k) && AllIn(text, Digits, k, d) && AllIn(text, NotSingle, d + 3, e)
    ensures Run(RECORD_KEY, text, i, marks) == Some(Found(e + 3, marks[0 := i][1 := k][2 := d][3 := d + 3][4 := e]))
  {
    var m := marks[0 := i];
    IndexRuns(text, k, d, e, m);
    assert InClass(text[k], Digits);
    PlusRuns(Letters, RECORD_INDEX, text, i, k, m);
  }

  lemma {:induction false} RecordRuns(text: ByteString, i: nat, k: nat, d: nat, e: nat)
    requires OccursAt(text, "Transfer_meaning('", i)
    requires i + 18 < k < d && OccursAt(text, "','", d) && d + 3 <= e && OccursAt(text, "');", e)
    requires AllIn(text, Letters, i + 18, k) && AllIn(text, Digits, k, d) && AllIn(text, NotSingle, d + 3, e)
    ensures Run(RECORD, text, i, map[])
         == Some(Found(e + 3, map[0 := i + 18][1 := k][2 := d][3 := d + 3][4 := e]))
  {
    KeyRuns(text, i + 18, k, d, e, map[]);
  }

  lemma {:induction false} PiecesInClass(text: ByteString, i: nat, h: ByteString, r: RawRecord, s: ByteString,
                                         t: ByteString)
    requires IsRawRecord(r) && OccursAt(text, h + (r.key + (r.index + (s + (r.value + t)))), i)
    ensures var a := i + |h|; var k := a + |r.key|; var d := k + |r.index|; var v := d + |s|; var e := v + |r.value|;
            && a < k < d && e + |t| <= |text|
            && OccursAt(text, h, i) && OccursAt(text, s, d) && OccursAt(text, t, e)
            && OccursAt(text, r.key, a) && OccursAt(text, r.index, k) && OccursAt(text, r.value, v)
            && AllIn(text, Letters, a, k) && AllIn(text, Digits, k, d) && AllIn(text, NotSingle, v, e)
  {
    SixPieces(text, i, h, r.key, r.index, s, r.value, t);
    PieceInClass(text, r.key, Letters, i + |h|);
    PieceInClass(text, r.index, Digits, i + |h| + |r.key|);
    PieceInClass(text, r.value, NotSingle, i + |h| + |r.key| + |r.index| + |s|);
  }

  /** Where the parts of a printed record lie. */
  ghost predicate RecordLies(text: ByteString, i: nat, k: nat, d: nat, e: nat, r: RawRecord) {
    && i + 18 < k == i + 18 + |r.key| && d == k + |r.index| && e == d + 3 + |r.value| && e + 3 <= |text|
    && k < d && OccursAt(text, "Transfer_meaning('", i) && OccursAt(text, "','", d) && OccursAt(text, "');", e)
    && OccursAt(text, r.key, i + 18) && OccursAt(text, r.index, k) && OccursAt(text, r.value, d + 3)
    && AllIn(text, Letters, i + 18, k) && AllIn(text, Digits, k, d) && AllIn(text, NotSingle, d + 3, e)
  }

  lemma {:induction false} PrintedLies(text: ByteString, i: nat, r: RawRecord) returns (k: nat, d: nat, e: nat)
    requires IsRawRecord(r) && OccursAt(text, PrintRaw(r), i)
    ensures RecordLies(text, i, k, d, e, r) && e + 3 == i + |PrintRaw(r)|
  {
    k, d, e := i + 18 + |r.key|, i + 18 + |r.key| + |r.index|, i + 21 + |r.key| + |r.index| + |r.value|;
    PiecesInClass(text, i, "Transfer_meaning('", r, "','", "');");
  }

  lemma {:induction false} LiesCaptures(text: ByteString, i: nat, k: nat, d: nat, e: nat, r: RawRecord)
    requires RecordLies(text, i, k, d, e, r)
    ensures CapturesOf(text, Match(i, e + 3, map[0 := i + 18][1 := k][2 := d][3 := d + 3][4 := e])) == r
  {
  }

  lemma {:induction false} PrintedRuns(text: ByteString, i: nat, r: RawRecord)
    requires IsRawRecord(r) && OccursAt(text, PrintRaw(r), i)
    ensures Run(RECORD, text, i, map[]).Some?
    ensures var m := MatchAt(RECORD, text, i); m.end == i + |PrintRaw(r)| && CapturesOf(text, m) == r
  {
    var k, d, e := PrintedLies(text, i, r);
    RecordRuns(text, i, k, d, e);
    LiesCaptures(text, i, k, d, e, r);
  }

  lemma {:induction false} RecordIsRead(r: RawRecord)
    requires IsRawRecord(r)
    ensures ReadsPiece(RECORD, PrintRaw(r))
  {
    forall text, i: nat | OccursAt(text, PrintRaw(r), i) ensures EndsOf(RECORD, text)(i) == Some(i + |PrintRaw(r)|) {
      PrintedRuns(text, i, r);
    }
  }

  lemma {:induction false} ValueAccepted(text: ByteString, i: nat, marks: Marks, found: Found) returns (e: nat)
    requires i <= |text| && Accepts(RECORD_VALUE, text, i, marks, found)
    ensures OccursAt(text, "','", i) && i + 3 <= e && OccursAt(text, "');", e) && AllIn(text, NotSingle, i + 3, e)
    ensures found == Found(e + 3, marks[3 := i + 3][4 := e])
  {
    var m := marks[3 := i + 3];
    var star := Star(NotSingle, false, RECORD_CLOSE);
    assert Accepts(Mark(3, star), text, i + 3, marks, found);
    assert Accepts(star, text, i + 3, m, found);
    e :| Reaches(NotSingle, RECORD_CLOSE, text, i + 3, e, m, found);
    assert Accepts(Literal("');", false, Accept), text, e, m[4 := e], found);
    assert Accepts(Accept, text, e + 3, m[4 := e], found);
  }

  lemma {:induction false} IndexAccepted(text: ByteString, i: nat, marks: Marks, found: Found) returns (d: nat, e: nat)
    requires i <= |text| && Accepts(RECORD_INDEX, text, i, marks, found)
    ensures i < d && OccursAt(text, "','", d) && d + 3 <= e && OccursAt(text, "');", e)
    ensures AllIn(text, Digits, i, d) && AllIn(text, NotSingle, d + 3, e)
    ensures found == Found(e + 3, marks[1 := i][2 := d][3 := d + 3][4 := e])
  {
    var m := marks[1 := i];
    assert Accepts(One(Digits, Star(Digits, false, Mark(2, RECORD_VALUE))), text, i, m, found);
    d := PlusAccepted(Digits, Mark(2, RECORD_VALUE), text, i, m, found);
    assert Accepts(RECORD_VALUE, text, d, m[2 := d], found);
    e := ValueAccepted(text, d, m[2 := d], found);
  }

  lemma {:induction false} RecordAccepted(text: ByteString, i: nat, found: Found) returns (k: nat, d: nat, e: nat)
    requires i <= |text| && Accepts(RECORD, text, i, map[], found)
    ensures OccursAt(text, "Transfer_meaning('", i)
    ensures i + 18 < k < d && OccursAt(text, "','", d) && d + 3 <= e && OccursAt(text, "');", e)
    ensures AllIn(text, Letters, i + 18, k) && AllIn(text, Digits, k, d) && AllIn(text, NotSingle, d + 3, e)
  {
    var m: Marks := map[0 := i + 18];
    assert Accepts(RECORD_KEY, text, i + 18, map[], found);
    assert Accepts(One(Letters, Star(Letters, false, RECORD_INDEX)), text, i + 18, m, found);
    k := PlusAccepted(Letters, RECORD_INDEX, text, i + 18, m, found);
    d, e := IndexAccepted(text, k, m, found);
  }

  /** The record pattern matches at exactly the positions where some record is printed, and
      captures that record. */
  lemma {:induction false} RecordPatternMeaning(text: ByteString, i: nat)
    requires i <= |text|
    ensures MatchesAt(RECORD, text, i) <==> RecordAt(text, i)
    ensures MatchesAt(RECORD, text, i) ==>
              && Run(RECORD, text, i, map[]).Some?
              && var m := MatchAt(RECORD, text, i); var r := CapturesOf(text, m);
                 StandsAt(text, i, r) && m.end == i + |PrintRaw(r)|
  {
    MatchesAtIffRun(RECORD, text, i);
    if MatchesAt(RECORD, text, i) {
      var found :| Accepts(RECORD, text, i, map[], found);
      var k, d, e := RecordAccepted(text, i, found);
      var r := RecordBetween(text, i, k, d, e);
      PrintedRuns(text, i, r);
    }
    if r :| StandsAt(text, i, r) { PrintedRuns(text, i, r); }
  }

  lemma {:induction false} RecordBetween(text: ByteString, i: nat, k: nat, d: nat, e: nat) returns (r: RawRecord)
    requires OccursAt(text, "Transfer_meaning('", i)
    requires i + 18 < k < d && OccursAt(text, "','", d) && d + 3 <= e && OccursAt(text, "');", e)
    requires AllIn(text, Letters, i + 18, k) && AllIn(text, Digits, k, d) && AllIn(text, NotSingle, d + 3, e)
    ensures StandsAt(text, i, r)
  {
    r := RawRecord(text[i + 18..k], text[k..d], text[d + 3..e]);
    SixPiecesJoin(text, i, "Transfer_meaning('", r.key, r.index, "','", r.value, "');");
  }

  lemma {:induction false} CoveredRecord(text: ByteString, m: Match, r: RawRecord)
    requires IsRawRecord(r) && Covers(text, m, PrintRaw(r))
    requires Run(RECORD, text, m.start, map[]) == Some(Found(m.end, m.marks))
    ensures CapturesOf(text, m) == r
  {
    PrintedRuns(text, m.start, r);
  }

  lemma {:induction false} GapIsSkipped(page: ByteString, j: nat)
    requires !RecordAt(page, j)
    ensures EndsOf(RECORD, page)(j) == None
  {
    if j <= |page| {
      RecordPatternMeaning(page, j);
      MatchesAtIffRun(RECORD, page, j);
    }
  }

  lemma {:induction false} PageIsScanned(page: ByteString, lead: ByteString, items: seq<Printed>)
    requires IsPage(page, lead, items)
    ensures CoverAll(page, FindAll(RECORD, page, 0), Pieces(items))
  {
    forall k | 0 <= k < |items| ensures Pieces(items)[k].text != [] && ReadsPiece(RECORD, Pieces(items)[k].text) {
      assert items[k] in items;
      RecordIsRead(items[k].record);
    }
    forall j: nat | InGap(lead, Pieces(items), j) ensures EndsOf(RECORD, page)(j) == None {
      GapIsSkipped(page, j);
    }
    ScanPage(RECORD, page, lead, Pieces(items));
  }

  /** Scanning a printed page gives back its records, whatever else lies between them. */
  lemma {:induction false} ScanPrinted(page: ByteString, lead: ByteString, items: seq<Printed>)
    requires IsPage(page, lead, items)
    ensures ScanFrom(page, 0) == RecordsOf(items)
  {
    PageIsScanned(page, lead, items);
    var ms := FindAll(RECORD, page, 0);
    forall k | 0 <= k < |ms| ensures CapturesOf(page, ms[k]) == items[k].record {
      assert items[k] in items && Covers(page, ms[k], Pieces(items)[k].text);
      FindAllRuns(RECORD, page, 0, k);
      CoveredRecord(page, ms[k], items[k].record);
    }
  }

  /** Every record a scan reports is well formed; in particular its index is a numeral. */
  lemma {:induction false} ScannedIsRaw(text: ByteString, from: nat)
    requires from <= |text|
    ensures forall r :: r in ScanFrom(text, from) ==> IsRawRecord(r)
  {
    var ms := FindAll(RECORD, text, from);
    forall r | r in ScanFrom(text, from) ensures IsRawRecord(r) {
      var i :| 0 <= i < |ms| && r == CapturesOf(text, ms[i]);
      FindAllRuns(RECORD, text, from, i);
      CapturedIsRaw(text, ms[i]);
    }
  }

  lemma {:induction false} CapturedIsRaw(text: ByteString, m: Match)
    requires m.start <= |text| && Run(RECORD, text, m.start, map[]) == Some(Found(m.end, m.marks))
    ensures IsRawRecord(CapturesOf(text, m))
  {
    RecordPatternMeaning(text, m.start);
    MatchesAtIffRun(RECORD, text, m.start);
    assert m == MatchAt(RECORD, text, m.start);
  }

  // ---- The records of a page ----

  ghost predicate NoRecordIn(page: ByteString, from: nat, to: nat) {
    forall j: nat :: from <= j < to ==> !RecordAt(page, j)
  }

  /** The records of a page and where they stand, stated without the scan: the first one that stands
      at or after `from`, then those from its end on. */
  ghost predicate AreRecords(page: ByteString, from: nat, ps: seq<nat>, rs: seq<RawRecord>)
    decreases |ps|
  {
    && |ps| == |rs|
    && if ps == [] then NoRecordIn(page, from, |page| + 1)
       else
         && from <= ps[0] && NoRecordIn(page, from, ps[0]) && StandsAt(page, ps[0], rs[0])
         && AreRecords(page, ps[0] + |PrintRaw(rs[0])|, ps[1..], rs[1..])
  }

  lemma {:induction false} NoRecordIsQuiet(page: ByteString, from: nat, to: nat)
    requires NoRecordIn(page, from, to)
    ensures Quiet(RECORD, page, from, to)
  {
    forall j: nat | from <= j < to && j <= |page| ensures Run(RECORD, page, j, map[]).None? {
      RecordPatternMeaning(page, j);
      MatchesAtIffRun(RECORD, page, j);
    }
  }

  lemma {:induction false} BeyondHasNoRecord(page: ByteString, j: nat)
    requires j > |page|
    ensures !RecordAt(page, j)
  {
  }

  lemma {:induction false} QuietHasNoRecord(page: ByteString, from: nat, to: nat)
    requires Quiet(RECORD, page, from, to)
    ensures NoRecordIn(page, from, to)
  {
    forall j: nat | from <= j < to ensures !RecordAt(page, j) {
      if j <= |page| {
        RecordPatternMeaning(page, j);
        MatchesAtIffRun(RECORD, page, j);
      } else {
        BeyondHasNoRecord(page, j);
      }
    }
  }

  lemma {:induction false} FirstMatched(page: ByteString, from: nat, i: nat, r: RawRecord) returns (m: Match)
    requires from <= i && NoRecordIn(page, from, i) && StandsAt(page, i, r)
    ensures from < m.end == i + |PrintRaw(r)| <= |page| && CapturesOf(page, m) == r
    ensures FindAll(RECORD, page, from) == [m] + FindAll(RECORD, page, m.end)
  {
    NoRecordIsQuiet(page, from, i);
    PrintedRuns(page, i, r);
    m := MatchAt(RECORD, page, i);
    FindAllNext(RECORD, page, from, i);
  }

  lemma {:induction false} CapturesCons(page: ByteString, m: Match, ms: seq<Match>)
    ensures RawRecords(page, [m] + ms) == [CapturesOf(page, m)] + RawRecords(page, ms)
  {
    var all, first, others := RawRecords(page, [m] + ms), CapturesOf(page, m), RawRecords(page, ms);
    forall k | 0 < k <= |ms| ensures all[k] == others[k - 1] { assert ([m] + ms)[k] == ms[k - 1]; }
    assert all == [first] + others;
  }

  lemma {:induction false} ScanStep(page: ByteString, from: nat, m: Match, rs: seq<RawRecord>)
    requires from <= |page| && m.end <= |page| && rs != [] && CapturesOf(page, m) == rs[0]
    requires FindAll(RECORD, page, from) == [m] + FindAll(RECORD, page, m.end) && ScanFrom(page, m.end) == rs[1..]
    ensures ScanFrom(page, from) == rs
  {
    CapturesCons(page, m, FindAll(RECORD, page, m.end));
  }

  /** The scan of a page gives its records. */
  lemma {:induction false} RecordsScanned(page: ByteString, from: nat, ps: seq<nat>, rs: seq<RawRecord>)
    requires from <= |page| && AreRecords(page, from, ps, rs)
    ensures ScanFrom(page, from) == rs
    decreases |ps|
  {
    if ps == [] {
      NoRecordIsQuiet(page, from, |page| + 1);
      FindAllNone(RECORD, page, from);
    } else {
      var m := FirstMatched(page, from, ps[0], rs[0]);
      RecordsScanned(page, m.end, ps[1..], rs[1..]);
      ScanStep(page, from, m, rs);
    }
  }

  lemma {:induction false} FoundRecord(page: ByteString, i: nat) returns (r: RawRecord)
    requires i <= |page| && Run(RECORD, page, i, map[]).Some?
    ensures StandsAt(page, i, r)
  {
    MatchesAtIffRun(RECORD, page, i);
    RecordPatternMeaning(page, i);
    r := CapturesOf(page, MatchAt(RECORD, page, i));
  }

  lemma {:induction false} NextRecord(page: ByteString, from: nat) returns (i: nat, r: RawRecord)
    requires from <= |page| && Search(RECORD, page, from).Some?
    ensures from <= i && NoRecordIn(page, from, i) && StandsAt(page, i, r)
  {
    SearchFirst(RECORD, page, from);
    i := Search(RECORD, page, from).value.start;
    QuietHasNoRecord(page, from, i);
    r := FoundRecord(page, i);
  }

  lemma {:induction false} ListCons(page: ByteString, from: nat, i: nat, r: RawRecord, qs: seq<nat>, ss: seq<RawRecord>)
    requires from <= i && NoRecordIn(page, from, i) && StandsAt(page, i, r)
    requires AreRecords(page, i + |PrintRaw(r)|, qs, ss)
    ensures AreRecords(page, from, [i] + qs, [r] + ss)
  {
    assert ([i] + qs)[1..] == qs && ([r] + ss)[1..] == ss;
  }

  /** Every page has such a list of records. */
  lemma {:induction false} RecordsExist(page: ByteString, from: nat) returns (ps: seq<nat>, rs: seq<RawRecord>)
    requires from <= |page|
    ensures AreRecords(page, from, ps, rs)
    decreases |page| - from
  {
    if Search(RECORD, page, from).None? {
      SearchFirst(RECORD, page, from);
      QuietHasNoRecord(page, from, |page| + 1);
      ps, rs := [], [];
    } else {
      var i, r := NextRecord(page, from);
      var m := FirstMatched(page, from, i, r);
      var qs, ss := RecordsExist(page, m.end);
      ps, rs := [i] + qs, [r] + ss;
      ListCons(page, from, i, r, qs, ss);
    }
  }

  lemma {:induction false} FirstAtMost(page: ByteString, from: nat, i: nat, r: RawRecord, to: nat)
    requires from <= i && StandsAt(page, i, r) && NoRecordIn(page, from, to)
    ensures to <= i
  {
    assert RecordAt(page, i);
  }

  lemma {:induction false} NoneOrSome(page: ByteString, from: nat, ps: seq<nat>, rs: seq<RawRecord>)
    requires AreRecords(page, from, ps, rs)
    ensures ps == [] <==> NoRecordIn(page, from, |page| + 1)
  {
    if ps != [] { assert RecordAt(page, ps[0]); }
  }

  lemma {:induction false} SameRecord(page: ByteString, i: nat, r: RawRecord, s: RawRecord)
    requires StandsAt(page, i, r) && StandsAt(page, i, s)
    ensures r == s
  {
    PrintedRuns(page, i, r);
    PrintedRuns(page, i, s);
  }

  /** A page has one list of records, at one list of positions. */
  lemma {:induction false} RecordsUnique(page: ByteString, from: nat, ps: seq<nat>, rs: seq<RawRecord>,
                                         qs: seq<nat>, ss: seq<RawRecord>)
    requires AreRecords(page, from, ps, rs) && AreRecords(page, from, qs, ss)
    ensures ps == qs && rs == ss
    decreases |ps|
  {
    NoneOrSome(page, from, ps, rs);
    NoneOrSome(page, from, qs, ss);
    if ps != [] {
      FirstAtMost(page, from, ps[0], rs[0], qs[0]);
      FirstAtMost(page, from, qs[0], ss[0], ps[0]);
      SameRecord(page, ps[0], rs[0], ss[0]);
      RecordsUnique(page, ps[0] + |PrintRaw(rs[0])|, ps[1..], rs[1..], qs[1..], ss[1..]);
      assert ps == [ps[0]] + ps[1..] && qs == [qs[0]] + qs[1..];
      assert rs == [rs[0]] + rs[1..] && ss == [ss[0]] + ss[1..];
    }
  }
}
