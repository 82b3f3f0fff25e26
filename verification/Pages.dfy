/** Scanning a page that is made of pieces a pattern reads and text in which it matches nothing. */
module Pages {
  import opened Bytes
  import opened Regex

  /** A piece the pattern should read, and the text between it and the next one. */
  datatype Piece = Piece(text: ByteString, after: ByteString)

  function Join(ps: seq<Piece>): ByteString {
    if ps == [] then [] else ps[0].text + (ps[0].after + Join(ps[1..]))
  }

  /** Position `j` of lead + Join(ps) lies in no piece. */
  predicate InGap(lead: ByteString, ps: seq<Piece>, j: nat)
    decreases |ps|
  {
    || j < |lead|
    || (ps != [] && |lead| + |ps[0].text| <= j && InGap(ps[0].after, ps[1..], j - |lead| - |ps[0].text|))
  }

  /** Where a pattern's matches end, by where they start. */
  type Ends = nat -> Option<nat>

  function EndsOf(re: Regex, text: ByteString): Ends {
    (i: nat) => if i > |text| then None else match Run(re, text, i, map[]) case Some(f) => Some(f.end) case None => None
  }

  lemma {:induction false} EndsAt(re: Regex, text: ByteString, i: nat, e: nat)
    requires i <= |text| && Run(re, text, i, map[]).Some? && MatchAt(re, text, i).end == e
    ensures EndsOf(re, text)(i) == Some(e)
  {
  }

  /** Wherever `t` occurs the pattern reads exactly `t`. */
  ghost predicate ReadsPiece(re: Regex, t: ByteString) {
    forall text, i: nat :: OccursAt(text, t, i) ==> EndsOf(re, text)(i) == Some(i + |t|)
  }

  /** The match covers an occurrence of `t`. */
  predicate Covers(text: ByteString, m: Match, t: ByteString) {
    OccursAt(text, t, m.start) && m.end == m.start + |t|
  }

  /** The matches cover the pieces, one each, in order. */
  predicate CoverAll(text: ByteString, ms: seq<Match>, ps: seq<Piece>) {
    |ms| == |ps| && forall k :: 0 <= k < |ps| ==> Covers(text, ms[k], ps[k].text)
  }

  ghost predicate Silent(ends: Ends, from: nat, to: nat) {
    forall j: nat :: from <= j < to ==> ends(j) == None
  }

  /** These matches are what stepping from match to match gives. */
  ghost predicate Steps(ends: Ends, len: nat, from: nat, ms: seq<Match>)
    decreases |ms|
  {
    if ms == [] then Silent(ends, from, len)
    else
      && from <= ms[0].start < len && Silent(ends, from, ms[0].start) && ends(ms[0].start) == Some(ms[0].end)
      && Steps(ends, len, ms[0].end, ms[1..])
  }

  lemma {:induction false} QuietIsSilent(re: Regex, text: ByteString, from: nat, to: nat)
    requires Quiet(re, text, from, to)
    ensures Silent(EndsOf(re, text), from, to)
  {
  }

  lemma {:induction false} FindAllSteps(re: Regex, text: ByteString, from: nat)
    requires from <= |text| && MinLength(re) > 0
    ensures Steps(EndsOf(re, text), |text|, from, FindAll(re, text, from))
    decreases |text| - from
  {
    SearchFirst(re, text, from);
    match Search(re, text, from)
    case None => QuietIsSilent(re, text, from, |text|);
    case Some(m) =>
      QuietIsSilent(re, text, from, m.start);
      FindAllSteps(re, text, m.end);
  }

  /** From `from` on the text is the pieces, each a match, and the gaps, where no match starts. */
  ghost predicate Laid(ends: Ends, text: ByteString, from: nat, lead: ByteString, ps: seq<Piece>)
    decreases |ps|
  {
    var i := from + |lead|;
    && Silent(ends, from, i)
    && if ps == [] then i == |text|
       else
         && OccursAt(text, ps[0].text, i) && ps[0].text != [] && ends(i) == Some(i + |ps[0].text|)
         && Laid(ends, text, i + |ps[0].text|, ps[0].after, ps[1..])
  }

  lemma {:induction false} PageSplit(text: ByteString, from: nat, lead: ByteString, shown: ByteString,
                                     after: ByteString)
    requires from <= |text| && text[from..] == lead + (shown + after)
    ensures OccursAt(text, lead, from) && OccursAt(text, shown, from + |lead|)
    ensures text[from + |lead| + |shown|..] == after
  {
    assert OccursAt(text, lead + (shown + after), from);
    SplitOccurs(text, from, lead, shown + after);
    SplitOccurs(text, from + |lead|, shown, after);
  }

  lemma {:induction false} LeadIsSilent(ends: Ends, from: nat, lead: ByteString, ps: seq<Piece>)
    requires forall j: nat :: InGap(lead, ps, j) ==> ends(from + j) == None
    ensures Silent(ends, from, from + |lead|)
  {
    forall j: nat | from <= j < from + |lead| ensures ends(j) == None {
      assert InGap(lead, ps, j - from);
      assert from + (j - from) == j;
    }
  }

  ghost predicate SilentGaps(ends: Ends, from: nat, lead: ByteString, ps: seq<Piece>)
    decreases |ps|
  {
    Silent(ends, from, from + |lead|)
      && (ps == [] || SilentGaps(ends, from + |lead| + |ps[0].text|, ps[0].after, ps[1..]))
  }

  lemma {:induction false} GapsAreSilent(ends: Ends, from: nat, lead: ByteString, ps: seq<Piece>)
    requires forall j: nat :: InGap(lead, ps, j) ==> ends(from + j) == None
    ensures SilentGaps(ends, from, lead, ps)
    decreases |ps|
  {
    LeadIsSilent(ends, from, lead, ps);
    if ps != [] {
      var n := |lead| + |ps[0].text|;
      forall j: nat | InGap(ps[0].after, ps[1..], j) ensures ends(from + n + j) == None {
        assert InGap(lead, ps, n + j);
        assert from + (n + j) == from + n + j;
      }
      GapsAreSilent(ends, from + n, ps[0].after, ps[1..]);
    }
  }

  /** The pieces stand in the text, one after each gap. */
  ghost predicate Stand(text: ByteString, from: nat, lead: ByteString, ps: seq<Piece>)
    decreases |ps|
  {
    var i := from + |lead|;
    if ps == [] then i == |text|
    else OccursAt(text, ps[0].text, i) && Stand(text, i + |ps[0].text|, ps[0].after, ps[1..])
  }

  lemma {:induction false} JoinedStand(text: ByteString, from: nat, lead: ByteString, ps: seq<Piece>)
    requires from <= |text| && text[from..] == lead + Join(ps)
    ensures Stand(text, from, lead, ps)
    decreases |ps|
  {
    if ps != [] {
      var p, rest := ps[0], ps[1..];
      PageSplit(text, from, lead, p.text, p.after + Join(rest));
      JoinedStand(text, from + |lead| + |p.text|, p.after, rest);
    }
  }

  ghost predicate ReadsText(ends: Ends, text: ByteString, t: ByteString) {
    t != [] && forall i: nat :: OccursAt(text, t, i) ==> ends(i) == Some(i + |t|)
  }

  lemma {:induction false} PiecesAreLaid(ends: Ends, text: ByteString, from: nat, lead: ByteString, ps: seq<Piece>)
    requires Stand(text, from, lead, ps) && SilentGaps(ends, from, lead, ps)
    requires forall k :: 0 <= k < |ps| ==> ReadsText(ends, text, ps[k].text)
    ensures Laid(ends, text, from, lead, ps)
    decreases |ps|
  {
    if ps != [] {
      assert ReadsText(ends, text, ps[0].text);
      PiecesAreLaid(ends, text, from + |lead| + |ps[0].text|, ps[0].after, ps[1..]);
    }
  }

  lemma {:induction false} CoverFirst(text: ByteString, m: Match, ms: seq<Match>, ps: seq<Piece>)
    requires ps != [] && Covers(text, m, ps[0].text) && CoverAll(text, ms, ps[1..])
    ensures CoverAll(text, [m] + ms, ps)
  {
    forall k | 0 <= k < |ps| ensures Covers(text, ([m] + ms)[k], ps[k].text) {
      if k > 0 { assert ps[1..][k - 1] == ps[k]; }
    }
  }

  /** Stepping through such a text gives one match for each piece, in order. */
  lemma {:induction false} StepsCover(ends: Ends, text: ByteString, from: nat, lead: ByteString, ps: seq<Piece>,
                                      ms: seq<Match>)
    requires Laid(ends, text, from, lead, ps) && Steps(ends, |text|, from, ms)
    ensures CoverAll(text, ms, ps)
    decreases |ps|
  {
    var i := from + |lead|;
    if ps == [] {
      assert ms == [];
    } else {
      assert ends(i).Some?;
      assert ms != [] && ms[0].start == i;
      StepsCover(ends, text, ms[0].end, ps[0].after, ps[1..], ms[1..]);
      CoverFirst(text, ms[0], ms[1..], ps);
      assert [ms[0]] + ms[1..] == ms;
    }
  }

  /** A scan of a page gives one match for each piece, when the pattern reads the pieces and
      matches in none of the gaps. */
  lemma {:induction false} ScanPage(re: Regex, page: ByteString, lead: ByteString, ps: seq<Piece>)
    requires MinLength(re) > 0 && page == lead + Join(ps)
    requires forall k :: 0 <= k < |ps| ==> ps[k].text != [] && ReadsPiece(re, ps[k].text)
    requires forall j: nat :: InGap(lead, ps, j) ==> EndsOf(re, page)(j) == None
    ensures CoverAll(page, FindAll(re, page, 0), ps)
  {
    FindAllSteps(re, page, 0);
    forall k | 0 <= k < |ps| ensures ReadsText(EndsOf(re, page), page, ps[k].text) {
      assert ReadsPiece(re, ps[k].text);
    }
    StepPage(EndsOf(re, page), page, lead, ps, FindAll(re, page, 0));
  }

  lemma {:induction false} StepPage(ends: Ends, page: ByteString, lead: ByteString, ps: seq<Piece>, ms: seq<Match>)
    requires page == lead + Join(ps) && forall k :: 0 <= k < |ps| ==> ReadsText(ends, page, ps[k].text)
    requires forall j: nat :: InGap(lead, ps, j) ==> ends(j) == None
    requires Steps(ends, |page|, 0, ms)
    ensures CoverAll(page, ms, ps)
  {
    assert page[0..] == page;
    forall j: nat | InGap(lead, ps, j) ensures ends(0 + j) == None { assert 0 + j == j; }
    GapsAreSilent(ends, 0, lead, ps);
    JoinedStand(page, 0, lead, ps);
    PiecesAreLaid(ends, page, 0, lead, ps);
    StepsCover(ends, page, 0, lead, ps, ms);
  }

  /** A page that is one piece has no gap. */
  lemma {:induction false} OnePiece(page: ByteString, ps: seq<Piece>)
    requires |ps| == 1 && ps[0] == Piece(page, [])
    ensures page == [] + Join(ps) && forall j: nat :: !InGap([], ps, j)
  {
    assert page + ([] + Join(ps[1..])) == page;
  }

  // ---- Text in parts ----

  lemma {:induction false} FourPieces(text: ByteString, i: nat, h: ByteString, a: ByteString, g: ByteString,
                                      t: ByteString)
    requires OccursAt(text, h + (a + (g + t)), i)
    ensures OccursAt(text, h, i) && OccursAt(text, a, i + |h|)
    ensures OccursAt(text, g, i + |h| + |a|) && OccursAt(text, t, i + |h| + |a| + |g|)
  {
    SplitOccurs(text, i, h, a + (g + t));
    SplitOccurs(text, i + |h|, a, g + t);
    SplitOccurs(text, i + |h| + |a|, g, t);
  }

  lemma {:induction false} FivePieces(text: ByteString, i: nat, a: ByteString, b: ByteString, c: ByteString,
                                     d: ByteString, e: ByteString)
    requires OccursAt(text, a + (b + (c + (d + e))), i)
    ensures OccursAt(text, a, i) && OccursAt(text, b, i + |a|) && OccursAt(text, c, i + |a| + |b|)
    ensures OccursAt(text, d, i + |a| + |b| + |c|) && OccursAt(text, e, i + |a| + |b| + |c| + |d|)
  {
    SplitOccurs(text, i, a, b + (c + (d + e)));
    SplitOccurs(text, i + |a|, b, c + (d + e));
    SplitOccurs(text, i + |a| + |b|, c, d + e);
    SplitOccurs(text, i + |a| + |b| + |c|, d, e);
  }

  lemma {:induction false} SixPieces(text: ByteString, i: nat, h: ByteString, k: ByteString, d: ByteString,
                                     s: ByteString, v: ByteString, t: ByteString)
    requires OccursAt(text, h + (k + (d + (s + (v + t)))), i)
    ensures OccursAt(text, h, i) && OccursAt(text, k, i + |h|) && OccursAt(text, d, i + |h| + |k|)
    ensures OccursAt(text, s, i + |h| + |k| + |d|) && OccursAt(text, v, i + |h| + |k| + |d| + |s|)
    ensures OccursAt(text, t, i + |h| + |k| + |d| + |s| + |v|)
  {
    SplitOccurs(text, i, h, k + (d + (s + (v + t))));
    SplitOccurs(text, i + |h|, k, d + (s + (v + t)));
    SplitOccurs(text, i + |h| + |k|, d, s + (v + t));
    SplitOccurs(text, i + |h| + |k| + |d|, s, v + t);
    SplitOccurs(text, i + |h| + |k| + |d| + |s|, v, t);
  }

  lemma {:induction false} SixPiecesJoin(text: ByteString, i: nat, h: ByteString, k: ByteString, d: ByteString,
                                         s: ByteString, v: ByteString, t: ByteString)
    requires OccursAt(text, h, i) && OccursAt(text, k, i + |h|) && OccursAt(text, d, i + |h| + |k|)
    requires OccursAt(text, s, i + |h| + |k| + |d|) && OccursAt(text, v, i + |h| + |k| + |d| + |s|)
    requires OccursAt(text, t, i + |h| + |k| + |d| + |s| + |v|)
    ensures OccursAt(text, h + (k + (d + (s + (v + t)))), i)
  {
    SplitOccurs(text, i + |h| + |k| + |d| + |s|, v, t);
    SplitOccurs(text, i + |h| + |k| + |d|, s, v + t);
    SplitOccurs(text, i + |h| + |k|, d, s + (v + t));
    SplitOccurs(text, i + |h|, k, d + (s + (v + t)));
    SplitOccurs(text, i, h, k + (d + (s + (v + t))));
  }
}
