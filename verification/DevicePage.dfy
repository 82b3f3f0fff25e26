/** Printing a device table as a DHCP page, and reading the page back. */
module DevicePage {
  import opened Bytes
  import opened Pages
  import opened Numbers
  import opened Escapes
  import opened DhcpRecords
  import opened DeviceTable

  /** A device under its index on the page. */
  datatype Row = Row(index: nat, device: Device)

  function Attribute(key: ByteString, index: nat, value: ByteString): RawRecord {
    RawRecord(key, Decimal(index), ZteEscaped(value))
  }

  function RowRecords(row: Row): seq<RawRecord> {
    [Attribute("MACAddr", row.index, row.device.macAddress),
     Attribute("IPAddr", row.index, row.device.ipAddress),
     Attribute("HostName", row.index, row.device.name)]
  }

  function TableRecords(rows: seq<Row>): seq<RawRecord> {
    if rows == [] then [] else TableRecords(rows[..|rows| - 1]) + RowRecords(rows[|rows| - 1])
  }

  /** Records with the given texts after them. */
  function WithGaps(rs: seq<RawRecord>, gaps: seq<ByteString>): seq<Printed>
    requires |gaps| == |rs|
  {
    seq(|rs|, i requires 0 <= i < |rs| => Printed(rs[i], gaps[i]))
  }

  /** A page for a table: the table's records in any order, with any text before, between and
      after them in which no further record stands. */
  ghost predicate IsTablePage(page: ByteString, lead: ByteString, rows: seq<Row>, rs: seq<RawRecord>,
                              gaps: seq<ByteString>) {
    && multiset(rs) == multiset(TableRecords(rows)) && |gaps| == |rs|
    && page == lead + Join(Pieces(WithGaps(rs, gaps)))
    && forall j: nat :: InGap(lead, Pieces(WithGaps(rs, gaps)), j) ==> !RecordAt(page, j)
  }

  ghost predicate IsRowTable(rows: seq<Row>) {
    && (forall i :: 0 <= i < |rows| ==>
          rows[i].index <= INT_MAX && rows[i].device.macAddress != [] && rows[i].device.ipAddress != [])
    && (forall i, j :: 0 <= i < j < |rows| ==> rows[i].index != rows[j].index)
  }

  /** How a device comes back: an empty host name reads "Unknown". */
  function Shown(d: Device): Device {
    Device(if d.name == [] then "Unknown" else d.name, d.ipAddress, d.macAddress, false)
  }

  lemma {:induction false} AttributeReads(key: ByteString, index: nat, value: ByteString)
    requires key != [] && (forall c :: c in key ==> IsAlpha(c)) && index <= INT_MAX
    ensures IsRawRecord(Attribute(key, index, value)) && IndexFits(Attribute(key, index, value))
    ensures Read(Attribute(key, index, value)) == Record(key, index, value)
  {
    DigitsValueDecimal(index);
    ZteRoundTrip(value);
    ZteEscapedAlphabet(value);
  }

  lemma {:induction false} KeysAreLetters(key: ByteString)
    requires KnownKey(key)
    ensures key != [] && forall c :: c in key ==> IsAlpha(c)
  {
  }

  lemma {:induction false} RowReads(row: Row)
    requires row.index <= INT_MAX
    ensures forall r :: r in RowRecords(row) ==> IsRawRecord(r) && IndexFits(r)
    ensures ReadAll(RowRecords(row)) == ThreeOf(row)
  {
    KeysAreLetters(MAC_KEY);
    KeysAreLetters(IP_KEY);
    KeysAreLetters(HOST_KEY);
    AttributeReads(MAC_KEY, row.index, row.device.macAddress);
    AttributeReads(IP_KEY, row.index, row.device.ipAddress);
    AttributeReads(HOST_KEY, row.index, row.device.name);
  }

  lemma {:induction false} TableReads(rows: seq<Row>)
    requires forall i :: 0 <= i < |rows| ==> rows[i].index <= INT_MAX
    ensures forall r :: r in TableRecords(rows) ==> IsRawRecord(r) && IndexFits(r)
  {
    if rows != [] {
      TableReads(rows[..|rows| - 1]);
      RowReads(rows[|rows| - 1]);
    }
  }

  /** What the records of a table say about one index. */
  lemma {:induction false} TableDevice(rows: seq<Row>, k: nat)
    requires IsRowTable(rows)
    requires forall r :: r in TableRecords(rows) ==> AllDigits(r.index)
    ensures forall i :: 0 <= i < |rows| && rows[i].index == k ==>
            DeviceFor(ReadAll(TableRecords(rows)), k) == Shown(rows[i].device)
    ensures (forall i :: 0 <= i < |rows| ==> rows[i].index != k) ==>
            !Complete(DeviceFor(ReadAll(TableRecords(rows)), k))
  {
    if rows != [] {
      var init, row := rows[..|rows| - 1], rows[|rows| - 1];
      assert rows == init + [row];
      TableReads(init);
      TableDevice(init, k);
      TableDeviceStep(rows, k);
    }
  }

  lemma {:induction false} TableDeviceStep(rows: seq<Row>, k: nat)
    requires rows != [] && rows[|rows| - 1].index <= INT_MAX
    requires forall r :: r in TableRecords(rows) ==> AllDigits(r.index)
    requires forall r :: r in TableRecords(rows[..|rows| - 1]) ==> AllDigits(r.index)
    ensures var row := rows[|rows| - 1];
            DeviceFor(ReadAll(TableRecords(rows)), k) ==
            if k == row.index then Shown(row.device) else DeviceFor(ReadAll(TableRecords(rows[..|rows| - 1])), k)
  {
    var init, row := rows[..|rows| - 1], rows[|rows| - 1];
    RowReads(row);
    var before := ReadAll(TableRecords(init));
    assert ReadAll(TableRecords(rows)) == before + ReadAll(RowRecords(row));
    ThreeMore(before, row, k);
  }

  /** The records of one row, read. */
  function ThreeOf(row: Row): seq<Record> {
    [Record(MAC_KEY, row.index, row.device.macAddress),
     Record(IP_KEY, row.index, row.device.ipAddress),
     Record(HOST_KEY, row.index, row.device.name)]
  }

  lemma {:induction false} ThreeMore(rs: seq<Record>, row: Row, k: nat)
    ensures DeviceFor(rs + ThreeOf(row), k) == if k == row.index then Shown(row.device) else DeviceFor(rs, k)
  {
    var d := row.device;
    var a := Record(MAC_KEY, row.index, d.macAddress);
    var b := Record(IP_KEY, row.index, d.ipAddress);
    var c := Record(HOST_KEY, row.index, d.name);
    assert |MAC_KEY| == 7 && |IP_KEY| == 6 && |HOST_KEY| == 8;
    assert rs + ThreeOf(row) == rs + [a] + [b] + [c];
    forall key | KnownKey(key)
      ensures LastValue(rs + [a] + [b] + [c], key, k) ==
              if k != row.index then LastValue(rs, key, k)
              else if key == MAC_KEY then Some(d.macAddress)
              else if key == IP_KEY then Some(d.ipAddress) else Some(d.name)
    {
      LastValueSnoc(rs + [a] + [b], c, key, k);
      LastValueSnoc(rs + [a], b, key, k);
      LastValueSnoc(rs, a, key, k);
    }
  }

  lemma {:induction false} LastValueSnoc(rs: seq<Record>, r: Record, key: ByteString, k: nat)
    ensures LastValue(rs + [r], key, k) == if r.key == key && r.index == k then Some(r.value) else LastValue(rs, key, k)
  {
    assert (rs + [r])[..|rs|] == rs;
  }

  /** A device list shows a table: every row once, in increasing order of index. */
  ghost predicate ShowsTable(rows: seq<Row>, devices: seq<Device>, ks: seq<nat>) {
    && Increasing(ks) && |devices| == |ks| == |rows|
    && (forall k: nat :: k in ks <==> exists i :: 0 <= i < |rows| && rows[i].index == k)
    && forall j, i :: 0 <= j < |ks| && 0 <= i < |rows| && rows[i].index == ks[j] ==> devices[j] == Shown(rows[i].device)
  }

  // ---- The records of a table in any order ----

  /** No record of the list is about this index. */
  ghost predicate NotAbout(rs: seq<Record>, k: nat) {
    forall i :: 0 <= i < |rs| ==> rs[i].index != k
  }

  lemma {:induction false} ThreeKeepSetOnce(rs: seq<Record>, row: Row)
    requires SetOnce(rs) && NotAbout(rs, row.index)
    ensures SetOnce(rs + ThreeOf(row))
  {
    var all := rs + ThreeOf(row);
    assert |MAC_KEY| == 7 && |IP_KEY| == 6 && |HOST_KEY| == 8;
    forall i, j | 0 <= i < j < |all| && KnownKey(all[i].key) && all[i].key == all[j].key
      ensures all[i].index != all[j].index
    {
      if j >= |rs| { assert all[j].index == row.index; }
      if i < |rs| { assert all[i] == rs[i]; }
    }
  }

  lemma {:induction false} ReadConcat(a: seq<RawRecord>, b: seq<RawRecord>)
    requires (forall r :: r in a ==> AllDigits(r.index)) && forall r :: r in b ==> AllDigits(r.index)
    ensures forall r :: r in a + b ==> AllDigits(r.index)
    ensures ReadAll(a + b) == ReadAll(a) + ReadAll(b)
  {
  }

  lemma {:induction false} TableAppend(rows: seq<Row>)
    requires rows != [] && IsRowTable(rows)
    ensures forall r :: r in TableRecords(rows) ==> AllDigits(r.index)
    ensures forall r :: r in TableRecords(rows[..|rows| - 1]) ==> AllDigits(r.index)
    ensures ReadAll(TableRecords(rows)) == ReadAll(TableRecords(rows[..|rows| - 1])) + ThreeOf(rows[|rows| - 1])
  {
    var init, row := rows[..|rows| - 1], rows[|rows| - 1];
    TableReads(rows);
    TableReads(init);
    RowReads(row);
    ReadConcat(TableRecords(init), RowRecords(row));
  }

  lemma {:induction false} TableNotAbout(rows: seq<Row>, k: nat)
    requires IsRowTable(rows) && forall i :: 0 <= i < |rows| ==> rows[i].index != k
    requires forall r :: r in TableRecords(rows) ==> AllDigits(r.index)
    ensures NotAbout(ReadAll(TableRecords(rows)), k)
  {
    if rows != [] {
      TableAppend(rows);
      TableNotAbout(rows[..|rows| - 1], k);
    }
  }

  lemma {:induction false} TableSetsOnce(rows: seq<Row>)
    requires IsRowTable(rows) && forall r :: r in TableRecords(rows) ==> AllDigits(r.index)
    ensures SetOnce(ReadAll(TableRecords(rows)))
  {
    if rows != [] {
      var init, row := rows[..|rows| - 1], rows[|rows| - 1];
      TableAppend(rows);
      TableSetsOnce(init);
      TableNotAbout(init, row.index);
      ThreeKeepSetOnce(ReadAll(TableRecords(init)), row);
    }
  }

  lemma {:induction false} ReadOne(a: seq<RawRecord>, r: RawRecord, b: seq<RawRecord>)
    requires AllDigits(r.index)
    requires (forall q :: q in a ==> AllDigits(q.index)) && forall q :: q in b ==> AllDigits(q.index)
    ensures ReadAll(a + [r] + b) == ReadAll(a) + [Read(r)] + ReadAll(b)
    ensures multiset(ReadAll(a + [r] + b)) == multiset{Read(r)} + multiset(ReadAll(a + b))
  {
    assert ReadAll(a + [r] + b) == ReadAll(a) + [Read(r)] + ReadAll(b);
    assert ReadAll(a + b) == ReadAll(a) + ReadAll(b);
  }

  lemma {:induction false} SameMembers(rs: seq<RawRecord>, qs: seq<RawRecord>)
    requires multiset(rs) == multiset(qs)
    ensures forall r :: r in rs <==> r in qs
  {
    forall r ensures r in rs <==> r in qs {
      assert r in rs <==> r in multiset(rs);
      assert r in qs <==> r in multiset(qs);
    }
  }

  lemma {:induction false} TakeOut(rest: seq<RawRecord>, r: RawRecord, qs: seq<RawRecord>)
    returns (a: seq<RawRecord>, b: seq<RawRecord>)
    requires multiset([r] + rest) == multiset(qs)
    ensures qs == a + [r] + b && multiset(rest) == multiset(a + b)
  {
    assert r in [r] + rest && r in multiset([r] + rest);
    assert r in qs;
    var k :| 0 <= k < |qs| && qs[k] == r;
    a, b := qs[..k], qs[k + 1..];
    assert qs == a + [r] + b;
    assert multiset([r] + rest) - multiset{r} == multiset(rest);
    assert multiset(a + [r] + b) == multiset{r} + multiset(a + b);
    assert multiset(a + [r] + b) - multiset{r} == multiset(a + b);
  }

  lemma {:induction false} ReadFirst(r: RawRecord, rest: seq<RawRecord>)
    requires AllDigits(r.index) && forall q :: q in rest ==> AllDigits(q.index)
    ensures forall q :: q in [r] + rest ==> AllDigits(q.index)
    ensures multiset(ReadAll([r] + rest)) == multiset{Read(r)} + multiset(ReadAll(rest))
  {
    assert ReadAll([r] + rest) == [Read(r)] + ReadAll(rest);
  }

  /** Reading permuted records gives permuted records. */
  lemma {:induction false} ReadPermutes(rs: seq<RawRecord>, qs: seq<RawRecord>)
    requires multiset(rs) == multiset(qs)
    requires (forall r :: r in rs ==> AllDigits(r.index)) && forall r :: r in qs ==> AllDigits(r.index)
    ensures multiset(ReadAll(rs)) == multiset(ReadAll(qs))
  {
    if rs == [] {
      assert |multiset(qs)| == 0;
    } else {
      var r, rest := rs[0], rs[1..];
      assert rs == [r] + rest;
      var a, b := TakeOut(rest, r, qs);
      ReadPermutes(rest, a + b);
      ReadFirst(r, rest);
      ReadOne(a, r, b);
    }
  }

  lemma {:induction false} GappedPage(page: ByteString, lead: ByteString, rows: seq<Row>, rs: seq<RawRecord>,
                                      gaps: seq<ByteString>)
    requires IsTablePage(page, lead, rows, rs, gaps) && forall r :: r in TableRecords(rows) ==> IsRawRecord(r)
    ensures ScanFrom(page, 0) == rs
  {
    var items := WithGaps(rs, gaps);
    SameMembers(rs, TableRecords(rows));
    forall p | p in items ensures IsRawRecord(p.record) {
      var i :| 0 <= i < |items| && items[i] == p;
      assert rs[i] in rs;
    }
    ScanPrinted(page, lead, items);
    assert RecordsOf(items) == rs;
  }

  /** Printing any table, its records in any order, and reading the page back gives its devices
      in order of index, whatever bytes their values hold. */
  lemma {:induction false} DevicePageRoundTrip(page: ByteString, lead: ByteString, rows: seq<Row>,
                                               rs: seq<RawRecord>, gaps: seq<ByteString>)
    requires IsRowTable(rows) && IsTablePage(page, lead, rows, rs, gaps)
    ensures var list := DevicesOf(page); list.Listed? && exists ks :: ShowsTable(rows, list.devices, ks)
  {
    var raws := TableRecords(rows);
    TableReads(rows);
    GappedPage(page, lead, rows, rs, gaps);
    SameMembers(rs, raws);
    RowsFit(raws);
    ReadPermutes(raws, rs);
    TableSetsOnce(rows);
    OrderIrrelevant(ReadAll(raws), ReadAll(rs));
    ListingIsTable(ReadAll(raws));
    var devices := DevicesOf(page).devices;
    assert devices == Listing(RowsOf(ReadAll(raws)));
    var ks :| IsTable(ReadAll(raws), devices, ks);
    TableShows(rows, devices, ks);
  }

  lemma {:induction false} TableShows(rows: seq<Row>, devices: seq<Device>, ks: seq<nat>)
    requires IsRowTable(rows) && forall r :: r in TableRecords(rows) ==> AllDigits(r.index)
    requires IsTable(ReadAll(TableRecords(rows)), devices, ks)
    ensures ShowsTable(rows, devices, ks)
  {
    forall k: nat ensures k in ks <==> exists i :: 0 <= i < |rows| && rows[i].index == k {
      TableDevice(rows, k);
    }
    forall j, i | 0 <= j < |ks| && 0 <= i < |rows| && rows[i].index == ks[j]
      ensures devices[j] == Shown(rows[i].device)
    {
      TableDevice(rows, ks[j]);
    }
    SameCount(rows, ks);
  }

  lemma {:induction false} SameCount(rows: seq<Row>, ks: seq<nat>)
    requires forall i, j :: 0 <= i < j < |rows| ==> rows[i].index != rows[j].index
    requires Increasing(ks)
    requires forall k: nat :: k in ks <==> exists i :: 0 <= i < |rows| && rows[i].index == k
    ensures |ks| == |rows|
  {
    var indices := seq(|rows|, i requires 0 <= i < |rows| => rows[i].index);
    DistinctSize(indices);
    DistinctSize(ks);
    forall k: nat ensures k in indices <==> k in ks {
      if k in ks {
        var i :| 0 <= i < |rows| && rows[i].index == k;
        assert indices[i] == k;
      }
    }
    assert Elements(indices) == Elements(ks);
  }

  function Elements(s: seq<nat>): set<nat> {
    set k | k in s
  }

  lemma {:induction false} DistinctSize(s: seq<nat>)
    requires forall i, j :: 0 <= i < j < |s| ==> s[i] != s[j]
    ensures |Elements(s)| == |s|
  {
    if s != [] {
      var init, l := s[..|s| - 1], s[|s| - 1];
      assert s == init + [l];
      DistinctSize(init);
      assert l !in init;
      assert Elements(s) == Elements(init) + {l};
    }
  }

  lemma {:induction false} OnlyRecord(r: RawRecord)
    requires IsRawRecord(r)
    ensures ScanFrom(PrintRaw(r), 0) == [r]
  {
    var page, items := PrintRaw(r), [Printed(r, [])];
    var ps := Pieces(items);
    assert ps[1..] == [] && Join([]) == [];
    OnePiece(page, ps);
    ScanPrinted(page, [], items);
    assert RecordsOf(items) == [r];
  }

  /** A page on which stoi throws: any record with an index above INT_MAX. */
  lemma {:induction false} LargeIndexThrows(key: ByteString, index: nat, value: ByteString)
    requires key != [] && (forall c :: c in key ==> IsAlpha(c)) && index > INT_MAX && '\'' !in value
    ensures DevicesOf(PrintRaw(RawRecord(key, Decimal(index), value))) == IndexOutOfRange
  {
    var r := RawRecord(key, Decimal(index), value);
    OnlyRecord(r);
    DigitsValueDecimal(index);
    ThrowsOn(PrintRaw(r), r);
  }

  lemma {:induction false} ThrowsOn(page: ByteString, r: RawRecord)
    requires ScanFrom(page, 0) == [r] && !IndexFits(r)
    ensures DevicesOf(page) == IndexOutOfRange
  {
    assert r in ScanFrom(page, 0);
  }

  lemma {:induction false} FirstIndexTooLarge()
    ensures DevicesOf(PrintRaw(RawRecord(MAC_KEY, Decimal(2147483648), []))) == IndexOutOfRange
  {
    KeysAreLetters(MAC_KEY);
    LargeIndexThrows(MAC_KEY, 2147483648, []);
  }
}
