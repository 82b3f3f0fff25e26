/** The status page: firmware version and uptime, between fixed markers. */
module StatusPage {
  import opened Bytes
  import opened Escapes
  import opened Numbers

  datatype RouterInfo = RouterInfo(model: ByteString, firmwareVersion: ByteString, uptime: ByteString,
    wanStatus: ByteString)

  const BLANK: RouterInfo := RouterInfo("ZTE F670L", "Unknown", "Unknown", "Unknown")

  const FIRMWARE_MARK: ByteString := "id=\"Frm_SoftwareVer\" " + "name=\"Frm_SoftwareVer\" " + "class=\"tdright\">"
  const UPTIME_MARK: ByteString := "id=\"Frm_UpTime\" " + "name=\"Frm_UpTime\" " + "class=\"tdright\">"
  const CELL_END: ByteString := "</td>"

  /** extractBetween: the text after the first `before`, up to the next `after`. */
  function ExtractBetween(html: ByteString, before: ByteString, after: ByteString): ByteString {
    match Find(html, before, 0)
    case None => []
    case Some(p) =>
      var start := p + |before|;
      match Find(html, after, start)
      case None => []
      case Some(end) => html[start..end]
  }

  /** The first `before` stands at `p`. */
  ghost predicate FirstMark(html: ByteString, before: ByteString, p: nat) {
    OccursAt(html, before, p) && forall j :: 0 <= j < p ==> !OccursAt(html, before, j)
  }

  /** `mid` follows the first `before`, and the first `after` from there on follows it. */
  ghost predicate Marked(html: ByteString, before: ByteString, after: ByteString, p: nat, mid: ByteString) {
    && FirstMark(html, before, p)
    && var q := p + |before|;
       && OccursAt(html, mid, q) && OccursAt(html, after, q + |mid|)
       && forall j :: q <= j < q + |mid| ==> !OccursAt(html, after, j)
  }

  /** The first `before` is missing, or has no `after` behind it. */
  ghost predicate Unmarked(html: ByteString, before: ByteString, after: ByteString) {
    || (forall p: nat :: !OccursAt(html, before, p))
    || exists p: nat :: FirstMark(html, before, p) && NoneFrom(html, after, p + |before|)
  }

  ghost predicate NoneFrom(html: ByteString, after: ByteString, q: nat) {
    forall j: nat :: q <= j ==> !OccursAt(html, after, j)
  }

  lemma {:induction false} MarkedIsRead(html: ByteString, before: ByteString, after: ByteString, p: nat,
                                        mid: ByteString)
    requires Marked(html, before, after, p, mid)
    ensures ExtractBetween(html, before, after) == mid
  {
    FindIs(html, before, 0, p);
    FindIs(html, after, p + |before|, p + |before| + |mid|);
  }

  lemma {:induction false} UnmarkedIsEmpty(html: ByteString, before: ByteString, after: ByteString)
    requires Unmarked(html, before, after)
    ensures ExtractBetween(html, before, after) == []
  {
    if p: nat :| FirstMark(html, before, p) { FindIs(html, before, 0, p); }
  }

  lemma {:induction false} ReadIsMarked(html: ByteString, before: ByteString, after: ByteString)
    ensures Unmarked(html, before, after)
            || exists p: nat :: Marked(html, before, after, p, ExtractBetween(html, before, after))
  {
    var first := Find(html, before, 0);
    if first.Some? {
      var p := first.value;
      assert FirstMark(html, before, p);
      var end := Find(html, after, p + |before|);
      if end.Some? {
        var mid := ExtractBetween(html, before, after);
        assert mid == html[p + |before|..end.value] && p + |before| + |mid| == end.value;
        assert Marked(html, before, after, p, mid);
      } else {
        assert NoneFrom(html, after, p + |before|);
      }
    }
  }

  /** The text between the markers is the shortest one that follows the first marker; without
      both markers it is empty. */
  lemma {:induction false} ExtractBetweenMeaning(html: ByteString, before: ByteString, after: ByteString,
                                                 mid: ByteString)
    ensures ExtractBetween(html, before, after) == mid <==>
              (exists p: nat :: Marked(html, before, after, p, mid)) || (mid == [] && Unmarked(html, before, after))
  {
    ReadIsMarked(html, before, after);
    if p: nat :| Marked(html, before, after, p, mid) { MarkedIsRead(html, before, after, p, mid); }
    if Unmarked(html, before, after) { UnmarkedIsEmpty(html, before, after); }
  }

  function InfoFrom(body: ByteString): RouterInfo {
    var fw, uptime := ExtractBetween(body, FIRMWARE_MARK, CELL_END), ExtractBetween(body, UPTIME_MARK, CELL_END);
    BLANK.(firmwareVersion := if fw == [] then "Unknown" else HtmlText(fw),
           uptime := if uptime == [] then "Unknown" else uptime,
           wanStatus := "Session active")
  }

  method ReadVersion(body: ByteString) returns (version: ByteString)
    ensures version == InfoFrom(body).firmwareVersion
  {
    version := "Unknown";
    var fw := ExtractBetween(body, FIRMWARE_MARK, CELL_END);
    if fw != [] { version := UnescapeHtmlEntities(fw); }
  }

  method ReadInfo(body: ByteString) returns (info: RouterInfo)
    ensures info == InfoFrom(body)
  {
    var version := ReadVersion(body);
    info := BLANK.(firmwareVersion := version);
    var uptime := ExtractBetween(body, UPTIME_MARK, CELL_END);
    if uptime != [] { info := info.(uptime := uptime); }
    info := info.(wanStatus := "Session active");
  }

  lemma {:induction false} EscapedHasNoTag(s: ByteString)
    ensures '<' !in HtmlEscaped(s)
  {
    if s != [] {
      EscapedHasNoTag(s[1..]);
      var d := Decimal(s[0] as int);
      assert AllDigits(d);
    }
  }

  /** A cell of the page: its text stands between the first such marker and the end of the cell. */
  ghost predicate CellStands(page: ByteString, mark: ByteString, p: nat, text: ByteString) {
    FirstMark(page, mark, p) && OccursAt(page, text + "</td>", p + |mark|)
  }

  lemma {:induction false} NoEndIn(page: ByteString, mid: ByteString, q: nat, end: ByteString, j: int)
    requires OccursAt(page, mid, q) && q <= j < q + |mid| && end != [] && end[0] !in mid
    ensures !OccursAt(page, end, j)
  {
    assert page[j] == page[q..q + |mid|][j - q];
    if j + |end| <= |page| { assert page[j..j + |end|][0] == page[j]; }
  }

  /** Text without tags is read back from its cell. */
  lemma {:induction false} CellIsRead(page: ByteString, mark: ByteString, p: nat, text: ByteString)
    requires CellStands(page, mark, p, text) && '<' !in text
    ensures ExtractBetween(page, mark, CELL_END) == text
  {
    var q := p + |mark|;
    SplitOccurs(page, q, text, CELL_END);
    forall j | q <= j < q + |text| ensures !OccursAt(page, CELL_END, j) { NoEndIn(page, text, q, CELL_END, j); }
    MarkedIsRead(page, mark, CELL_END, p, text);
  }

  lemma {:induction false} EscapedNotEmpty(s: ByteString)
    requires s != []
    ensures HtmlEscaped(s) != []
  {
  }

  /** A version printed as entities in its cell comes back byte for byte. */
  lemma {:induction false} FirmwareRoundTrip(page: ByteString, p: nat, version: ByteString)
    requires version != [] && CellStands(page, FIRMWARE_MARK, p, HtmlEscaped(version))
    ensures InfoFrom(page).firmwareVersion == version
  {
    EscapedHasNoTag(version);
    EscapedNotEmpty(version);
    CellIsRead(page, FIRMWARE_MARK, p, HtmlEscaped(version));
    HtmlRoundTrip(version);
  }

  /** So does an uptime without tags. */
  lemma {:induction false} UptimeRoundTrip(page: ByteString, p: nat, uptime: ByteString)
    requires uptime != [] && '<' !in uptime && CellStands(page, UPTIME_MARK, p, uptime)
    ensures InfoFrom(page).uptime == uptime
  {
    CellIsRead(page, UPTIME_MARK, p, uptime);
  }

  /** What a cell holds: the text after the first such marker up to the first end of a cell, or nothing
      when either is missing. */
  ghost predicate CellHolds(page: ByteString, mark: ByteString, text: ByteString) {
    || (exists p: nat :: Marked(page, mark, "</td>", p, text))
    || (text == [] && Unmarked(page, mark, "</td>"))
  }

  /** Both cells of any page, and what an empty or a missing one reads as. */
  lemma {:induction false} StatusMeaning(page: ByteString, version: ByteString, uptime: ByteString)
    requires CellHolds(page, FIRMWARE_MARK, version) && CellHolds(page, UPTIME_MARK, uptime)
    ensures InfoFrom(page) == RouterInfo("ZTE F670L", if version == [] then "Unknown" else HtmlText(version),
                                         if uptime == [] then "Unknown" else uptime, "Session active")
  {
    ExtractBetweenMeaning(page, FIRMWARE_MARK, CELL_END, version);
    ExtractBetweenMeaning(page, UPTIME_MARK, CELL_END, uptime);
  }
}
