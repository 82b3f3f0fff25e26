/** connectedDevices after its request: from scanned records to the device list. */
module DeviceTable {
  import opened Bytes
  import opened Regex
  import opened Numbers
  import opened Escapes
  import opened DhcpRecords

  datatype Device = Device(name: ByteString, ipAddress: ByteString, macAddress: ByteString, blocked: bool)

  const MAC_KEY: ByteString := "MACAddr"
  const IP_KEY: ByteString := "IPAddr"
  const HOST_KEY: ByteString := "HostName"
  const UNKNOWN: ByteString := "Unknown"

  /** A record with its index read and its value unescaped. */
  datatype Record = Record(key: ByteString, index: nat, value: ByteString)

  predicate IndexFits(r: RawRecord) {
    AllDigits(r.index) && DigitsValue(r.index) <= INT_MAX
  }

  function Read(r: RawRecord): Record
    requires AllDigits(r.index)
  {
    Record(r.key, DigitsValue(r.index), ZteText(r.value))
  }

  function ReadAll(rs: seq<RawRecord>): seq<Record>
    requires forall r :: r in rs ==> AllDigits(r.index)
  {
    seq(|rs|, i requires 0 <= i < |rs| => assert rs[i] in rs; Read(rs[i]))
  }

  type Rows = map<nat, Device>

  /** std::map::operator[]: a missing row reads as an empty device. */
  function RowAt(rows: Rows, index: nat): Device {
    if index in rows then rows[index] else Device([], [], [], false)
  }

  function AddRecord(rows: Rows, r: Record): Rows {
    var row := RowAt(rows, r.index);
    if r.key == MAC_KEY then rows[r.index := row.(macAddress := r.value)]
    else if r.key == IP_KEY then rows[r.index := row.(ipAddress := r.value)]
    else if r.key == HOST_KEY then rows[r.index := row.(name := HostName(r.value))]
    else rows
  }

  function HostName(value: ByteString): ByteString {
    if value == [] then UNKNOWN else value
  }

  function RowsOf(rs: seq<Record>): Rows {
    if rs == [] then map[] else AddRecord(RowsOf(rs[..|rs| - 1]), rs[|rs| - 1])
  }

  predicate Complete(d: Device) {
    d.macAddress != [] && d.ipAddress != []
  }

  // ---- What the table is, stated without the loop ----

  /** The value of the last record with this key and index. */
  function LastValue(rs: seq<Record>, key: ByteString, index: nat): Option<ByteString> {
    if rs == [] then None
    else if rs[|rs| - 1].key == key && rs[|rs| - 1].index == index then Some(rs[|rs| - 1].value)
    else LastValue(rs[..|rs| - 1], key, index)
  }

  function OrEmpty(o: Option<ByteString>): ByteString {
    match o case Some(v) => v case None => []
  }

  /** The device that the records give an index. */
  function DeviceFor(rs: seq<Record>, index: nat): Device {
    var host := LastValue(rs, HOST_KEY, index);
    Device(if host.Some? then HostName(host.value) else [],
           OrEmpty(LastValue(rs, IP_KEY, index)), OrEmpty(LastValue(rs, MAC_KEY, index)), false)
  }

  predicate Mentioned(rs: seq<Record>, index: nat) {
    || LastValue(rs, MAC_KEY, index).Some?
    || LastValue(rs, IP_KEY, index).Some?
    || LastValue(rs, HOST_KEY, index).Some?
  }

  /** The accumulated row of an index holds the last value of each attribute; other keys
      create no row. */
  lemma {:induction false} RowsMeaning(rs: seq<Record>, index: nat)
    ensures index in RowsOf(rs) <==> Mentioned(rs, index)
    ensures RowAt(RowsOf(rs), index) == DeviceFor(rs, index)
  {
    if rs != [] {
      RowsMeaning(rs[..|rs| - 1], index);
      assert |MAC_KEY| == 7 && |IP_KEY| == 6 && |HOST_KEY| == 8;
    }
  }

  ghost predicate Increasing(ks: seq<nat>) {
    forall i, j :: 0 <= i < j < |ks| ==> ks[i] < ks[j]
  }

  /** A device list is the table of the records: one device per index with both addresses,
      in increasing order of index. */
  ghost predicate IsTable(rs: seq<Record>, devices: seq<Device>, ks: seq<nat>) {
    && Increasing(ks)
    && (forall k :: k in ks <==> Complete(DeviceFor(rs, k)))
    && |devices| == |ks|
    && forall i :: 0 <= i < |ks| ==> devices[i] == DeviceFor(rs, ks[i])
  }

  // ---- The same, record by record ----

  /** The last record with this key and index gives the value. */
  ghost predicate LastSays(rs: seq<Record>, key: ByteString, index: nat, value: ByteString) {
    exists i :: LastAt(rs, key, index, i) && rs[i].value == value
  }

  ghost predicate LastAt(rs: seq<Record>, key: ByteString, index: nat, i: int) {
    0 <= i < |rs| && rs[i].key == key && rs[i].index == index && Silent(rs[i + 1..], key, index)
  }

  /** No record has this key and index. */
  ghost predicate Silent(rs: seq<Record>, key: ByteString, index: nat) {
    forall i :: 0 <= i < |rs| ==> rs[i].key != key || rs[i].index != index
  }

  lemma {:induction false} LastValueMeaning(rs: seq<Record>, key: ByteString, index: nat)
    ensures LastValue(rs, key, index).None? <==> Silent(rs, key, index)
    ensures forall v :: LastValue(rs, key, index) == Some(v) <==> LastSays(rs, key, index, v)
  {
    if rs != [] {
      var init, last := rs[..|rs| - 1], rs[|rs| - 1];
      LastValueMeaning(init, key, index);
      assert rs == init + [last];
      forall v ensures LastSays(rs, key, index, v) <==>
                       if last.key == key && last.index == index then v == last.value else LastSays(init, key, index, v)
      {
        LastSaysSnoc(init, last, key, index, v);
      }
    }
  }

  lemma {:induction false} LastSaysSnoc(init: seq<Record>, last: Record, key: ByteString, index: nat, v: ByteString)
    ensures LastSays(init + [last], key, index, v) <==>
            if last.key == key && last.index == index then v == last.value else LastSays(init, key, index, v)
  {
    var rs, n := init + [last], |init|;
    var same := last.key == key && last.index == index;
    forall i | 0 <= i < n ensures LastAt(rs, key, index, i) <==> !same && LastAt(init, key, index, i) {
      assert rs[i] == init[i] && rs[i + 1..] == init[i + 1..] + [last];
      if same { assert rs[i + 1..][n - i - 1] == last; } else { SilentSnoc(init[i + 1..], last, key, index); }
    }
    assert rs[n] == last && rs[n + 1..] == [];
    assert LastAt(rs, key, index, n) <==> same;
    if i :| LastAt(init, key, index, i) && init[i].value == v {
      assert !same ==> LastAt(rs, key, index, i);
    }
  }

  lemma {:induction false} SilentSnoc(rs: seq<Record>, last: Record, key: ByteString, index: nat)
    requires last.key != key || last.index != index
    ensures Silent(rs + [last], key, index) <==> Silent(rs, key, index)
  {
    if Silent(rs + [last], key, index) {
      forall i | 0 <= i < |rs| ensures rs[i].key != key || rs[i].index != index { assert rs[i] == (rs + [last])[i]; }
    }
  }

  /** The records give the index this device: the addresses given last, neither of them empty, and the
      host name given last, which reads Unknown when it is empty. */
  ghost predicate Describe(rs: seq<Record>, index: nat, d: Device) {
    && LastSays(rs, "MACAddr", index, d.macAddress) && d.macAddress != []
    && LastSays(rs, "IPAddr", index, d.ipAddress) && d.ipAddress != []
    && (|| (Silent(rs, "HostName", index) && d.name == [])
        || (LastSays(rs, "HostName", index, d.name) && d.name != [])
        || (LastSays(rs, "HostName", index, []) && d.name == "Unknown"))
    && !d.blocked
  }

  /** The list has every device that the records give an index, by increasing index, and no other. */
  ghost predicate ListsDescribed(rs: seq<Record>, devices: seq<Device>) {
    exists ks :: AtIndices(rs, devices, ks)
  }

  ghost predicate AtIndices(rs: seq<Record>, devices: seq<Device>, ks: seq<nat>) {
    && Increasing(ks) && |devices| == |ks|
    && (forall i :: 0 <= i < |ks| ==> Describe(rs, ks[i], devices[i]))
    && forall k, d :: Describe(rs, k, d) ==> k in ks
  }

  lemma {:induction false} DescribeMeaning(rs: seq<Record>, index: nat, d: Device)
    ensures Describe(rs, index, d) <==> Complete(d) && d == DeviceFor(rs, index)
  {
    LastValueMeaning(rs, MAC_KEY, index);
    LastValueMeaning(rs, IP_KEY, index);
    LastValueMeaning(rs, HOST_KEY, index);
    HostMeaning(rs, index, d.name);
  }

  lemma {:induction false} HostMeaning(rs: seq<Record>, index: nat, name: ByteString)
    ensures var host := LastValue(rs, HOST_KEY, index);
            name == (if host.Some? then HostName(host.value) else []) <==>
              || (Silent(rs, HOST_KEY, index) && name == [])
              || (LastSays(rs, HOST_KEY, index, name) && name != [])
              || (LastSays(rs, HOST_KEY, index, []) && name == "Unknown")
  {
    LastValueMeaning(rs, HOST_KEY, index);
    assert |UNKNOWN| == 7;
  }

  lemma {:induction false} TableIsDescribed(rs: seq<Record>, devices: seq<Device>, ks: seq<nat>)
    requires IsTable(rs, devices, ks)
    ensures AtIndices(rs, devices, ks)
  {
    forall i | 0 <= i < |ks| ensures Describe(rs, ks[i], devices[i]) {
      assert ks[i] in ks;
      DescribeMeaning(rs, ks[i], devices[i]);
    }
    forall k, d | Describe(rs, k, d) ensures k in ks { DescribeMeaning(rs, k, d); }
  }

  predicate IsLeast(keys: set<nat>, m: nat) {
    m in keys && forall k :: k in keys ==> m <= k
  }

  lemma {:induction false} LeastExists(keys: set<nat>)
    requires keys != {}
    ensures exists m :: IsLeast(keys, m)
    decreases |keys|
  {
    var m :| m in keys;
    var rest := keys - {m};
    if rest == {} {
      assert forall k :: k in keys ==> k in rest || k == m;
      assert IsLeast(keys, m);
    } else {
      LeastExists(rest);
      var l :| IsLeast(rest, l);
      assert forall k :: k in keys ==> k in rest || k == m;
      assert IsLeast(keys, if m <= l then m else l);
    }
  }

  /** The devices with both addresses among the rows below a bound, in order of index. */
  function Below(rows: Rows, bound: nat): seq<Device> {
    if bound == 0 then []
    else Below(rows, bound - 1) + (if bound - 1 in rows && Complete(rows[bound - 1]) then [rows[bound - 1]] else [])
  }

  function Listing(rows: Rows): seq<Device> {
    Below(rows, INT_MAX + 1)
  }

  /** The indices below a bound that have both addresses. */
  ghost function CompleteBelow(rows: Rows, bound: nat): (ks: seq<nat>)
    ensures Increasing(ks)
    ensures forall k :: k in ks <==> k < bound && k in rows && Complete(rows[k])
  {
    if bound == 0 then []
    else
      var ks := CompleteBelow(rows, bound - 1);
      assert forall i :: 0 <= i < |ks| ==> ks[i] in ks;
      if bound - 1 in rows && Complete(rows[bound - 1]) then ks + [bound - 1] else ks
  }

  lemma {:induction false} BelowMeaning(rows: Rows, bound: nat)
    ensures var ks := CompleteBelow(rows, bound);
            |Below(rows, bound)| == |ks| && forall i :: 0 <= i < |ks| ==> Below(rows, bound)[i] == rows[ks[i]]
  {
    if bound > 0 { BelowMeaning(rows, bound - 1); }
  }

  /** No row lies in a gap, so nothing is listed there. */
  lemma {:induction false} BelowGap(rows: Rows, lo: nat, hi: nat)
    requires lo <= hi && forall k :: lo <= k < hi ==> k !in rows
    ensures Below(rows, hi) == Below(rows, lo)
  {
    if lo < hi { BelowGap(rows, lo, hi - 1); }
  }

  /** The rows of readable records list as the table the records describe. */
  lemma {:induction false} ListingIsTable(rs: seq<Record>)
    requires forall r :: r in rs ==> r.index <= INT_MAX
    ensures exists ks :: IsTable(rs, Listing(RowsOf(rs)), ks)
  {
    var rows, bound := RowsOf(rs), INT_MAX + 1;
    var ks := CompleteBelow(rows, bound);
    BelowMeaning(rows, bound);
    forall k: nat ensures k in rows ==> k < bound { RowsInRange(rs, k); }
    forall k: nat ensures k in ks <==> Complete(DeviceFor(rs, k)) { RowsMeaning(rs, k); }
    forall i | 0 <= i < |ks| ensures Listing(rows)[i] == DeviceFor(rs, ks[i]) {
      assert ks[i] in ks;
      RowsMeaning(rs, ks[i]);
    }
    assert IsTable(rs, Listing(rows), ks);
  }

  lemma {:induction false} RowsInRange(rs: seq<Record>, k: nat)
    requires forall r :: r in rs ==> r.index <= INT_MAX
    ensures k in RowsOf(rs) ==> k <= INT_MAX
  {
    if rs != [] {
      assert rs[|rs| - 1] in rs;
      RowsInRange(rs[..|rs| - 1], k);
    }
  }

  /** A table is determined by its records. */
  lemma {:induction false} TableUnique(rs: seq<Record>, a: seq<Device>, ka: seq<nat>, b: seq<Device>, kb: seq<nat>)
    requires IsTable(rs, a, ka) && IsTable(rs, b, kb)
    ensures a == b
  {
    SameIncreasing(ka, kb);
  }

  lemma {:induction false} EmptyWith(a: seq<nat>, b: seq<nat>)
    requires forall k :: k in a ==> k in b
    ensures b == [] ==> a == []
  {
    if a != [] { assert a[0] in b; }
  }

  lemma {:induction false} SameIncreasing(a: seq<nat>, b: seq<nat>)
    requires Increasing(a) && Increasing(b) && forall k :: k in a <==> k in b
    ensures a == b
  {
    EmptyWith(a, b);
    EmptyWith(b, a);
    if a != [] {
      var m, n := |a| - 1, |b| - 1;
      assert a[m] in b;
      assert b[n] in a;
      assert a[m] == b[n];
      var ra, rb := a[..m], b[..n];
      forall k ensures k in ra <==> k in rb {
        if k in ra { assert k in a && k != a[m]; assert k in b; }
        if k in rb { assert k in b && k != b[n]; assert k in a; }
      }
      SameIncreasing(ra, rb);
      assert a == ra + [a[m]] && b == rb + [b[n]];
    }
  }

  predicate KnownKey(key: ByteString) {
    key == MAC_KEY || key == IP_KEY || key == HOST_KEY
  }

  /** No two records set the same attribute of the same index. */
  ghost predicate SetOnce(rs: seq<Record>) {
    forall i, j :: 0 <= i < j < |rs| && KnownKey(rs[i].key) && rs[i].key == rs[j].key ==> rs[i].index != rs[j].index
  }

  lemma {:induction false} LastValueOnce(rs: seq<Record>, key: ByteString, index: nat)
    requires SetOnce(rs) && KnownKey(key)
    ensures forall v :: LastValue(rs, key, index) == Some(v) <==> Record(key, index, v) in rs
  {
    if rs != [] {
      var init, l := rs[..|rs| - 1], rs[|rs| - 1];
      assert rs == init + [l];
      LastValueOnce(init, key, index);
    }
  }

  /** When no attribute is set twice, the order of the records does not matter. */
  lemma {:induction false} OrderIrrelevant(rs: seq<Record>, qs: seq<Record>)
    requires SetOnce(rs) && multiset(rs) == multiset(qs)
    ensures RowsOf(rs) == RowsOf(qs)
  {
    SetOncePermutes(rs, qs);
    forall r ensures r in rs <==> r in qs {
      assert r in rs <==> r in multiset(rs);
      assert r in qs <==> r in multiset(qs);
    }
    forall index: nat, key | KnownKey(key) ensures LastValue(rs, key, index) == LastValue(qs, key, index) {
      SameLastValue(rs, qs, key, index);
    }
    forall index: nat
      ensures index in RowsOf(rs) <==> index in RowsOf(qs)
      ensures RowAt(RowsOf(rs), index) == RowAt(RowsOf(qs), index)
    {
      RowsMeaning(rs, index);
      RowsMeaning(qs, index);
    }
    forall index | index in RowsOf(rs) ensures RowsOf(rs)[index] == RowsOf(qs)[index] {
      assert RowAt(RowsOf(rs), index) == RowAt(RowsOf(qs), index);
    }
  }

  lemma {:induction false} SameLastValue(rs: seq<Record>, qs: seq<Record>, key: ByteString, index: nat)
    requires SetOnce(rs) && SetOnce(qs) && KnownKey(key) && forall r :: r in rs <==> r in qs
    ensures LastValue(rs, key, index) == LastValue(qs, key, index)
  {
    LastValueOnce(rs, key, index);
    LastValueOnce(qs, key, index);
    var a, b := LastValue(rs, key, index), LastValue(qs, key, index);
    if a.Some? { assert Record(key, index, a.value) in qs; }
    if b.Some? { assert Record(key, index, b.value) in rs; }
  }

  lemma {:induction false} SetOncePermutes(rs: seq<Record>, qs: seq<Record>)
    requires SetOnce(rs) && multiset(rs) == multiset(qs)
    ensures SetOnce(qs)
  {
    forall i, j | 0 <= i < j < |qs| && KnownKey(qs[i].key) && qs[i].key == qs[j].key
      ensures qs[i].index != qs[j].index
    {
      if qs[i].index == qs[j].index { PairInBoth(rs, qs, i, j); }
    }
  }

  lemma {:induction false} PairInBoth(rs: seq<Record>, qs: seq<Record>, i: nat, j: nat)
    requires multiset(rs) == multiset(qs) && i < j < |qs|
    ensures exists a, b ::
              && 0 <= a < b < |rs|
              && ((rs[a] == qs[i] && rs[b] == qs[j]) || (rs[a] == qs[j] && rs[b] == qs[i]))
  {
    assert qs[i] in multiset(rs) && qs[j] in multiset(rs);
    if qs[i] != qs[j] {
      var a :| 0 <= a < |rs| && rs[a] == qs[i];
      var b :| 0 <= b < |rs| && rs[b] == qs[j];
      assert a < b || b < a;
    } else {
      TwiceCounted(qs, i, j);
      CountedTwice(rs, qs[i]);
    }
  }

  lemma {:induction false} TwiceCounted(qs: seq<Record>, i: nat, j: nat)
    requires i < j < |qs| && qs[i] == qs[j]
    ensures multiset(qs)[qs[i]] >= 2
  {
    assert qs == qs[..j] + qs[j..];
    assert qs[i] == qs[..j][i] && qs[i] in qs[..j];
    assert qs[j] == qs[j..][0] && qs[j] in qs[j..];
  }

  lemma {:induction false} CountedTwice(rs: seq<Record>, r: Record)
    requires multiset(rs)[r] >= 2
    ensures exists a, b :: 0 <= a < b < |rs| && rs[a] == r && rs[b] == r
  {
    assert r in multiset(rs);
    var a :| 0 <= a < |rs| && rs[a] == r;
    assert rs == rs[..a] + [r] + rs[a + 1..];
    assert multiset(rs) == multiset(rs[..a]) + multiset{r} + multiset(rs[a + 1..]);
    if r in rs[..a] {
      var b :| 0 <= b < a && rs[b] == r;
    } else {
      assert r in multiset(rs[a + 1..]);
      assert r in rs[a + 1..];
      var c :| 0 <= c < |rs[a + 1..]| && rs[a + 1..][c] == r;
      assert rs[a + 1 + c] == r;
    }
  }

  // ---- connectedDevices after its request ----

  /** The list, or the std::out_of_range that std::stoi throws on too large an index. */
  datatype DeviceList = Listed(devices: seq<Device>) | IndexOutOfRange

  function DevicesOf(body: ByteString): DeviceList {
    var raws := ScanFrom(body, 0);
    if forall r :: r in raws ==> IndexFits(r) then Listed(Listing(RowsOf(ReadAll(raws)))) else IndexOutOfRange
  }

  /** Reading one record; None when std::stoi throws. */
  method ReadRecord(raw: RawRecord) returns (r: Option<Record>)
    requires AllDigits(raw.index) && raw.index != []
    ensures r == if IndexFits(raw) then Some(Read(raw)) else None
  {
    StoiDigits(raw.index);
    var index := Stoi(raw.index);
    if !index.Parsed? { return None; }
    var value := UnescapeZteStr(raw.value);
    return Some(Record(raw.key, index.value, value));
  }

  ghost predicate AllNumbered(raws: seq<RawRecord>) {
    forall r :: r in raws ==> AllDigits(r.index) && r.index != []
  }

  /** The first `i` records fit, and these are their rows. */
  ghost predicate ReadUpTo(raws: seq<RawRecord>, i: nat, rows: Rows) {
    && i <= |raws| && (forall r :: r in raws[..i] ==> AllDigits(r.index) && IndexFits(r))
    && rows == RowsOf(ReadAll(raws[..i]))
  }

  lemma {:induction false} NextUpTo(raws: seq<RawRecord>, i: nat, rows: Rows)
    requires i < |raws| && ReadUpTo(raws, i, rows) && AllDigits(raws[i].index) && IndexFits(raws[i])
    ensures ReadUpTo(raws, i + 1, AddRecord(rows, Read(raws[i])))
  {
    ReadSnoc(raws[..i], raws[i]);
    assert raws[..i + 1] == raws[..i] + [raws[i]];
  }

  /** One step of the loop over the matches. */
  method TakeRecord(raw: RawRecord, rows: Rows, ghost raws: seq<RawRecord>, ghost i: nat) returns (next: Option<Rows>)
    requires i < |raws| && raw == raws[i] && AllNumbered(raws) && ReadUpTo(raws, i, rows)
    ensures if IndexFits(raw) then next.Some? && ReadUpTo(raws, i + 1, next.value) else next == None
  {
    assert raws[i] in raws;
    var record := ReadRecord(raw);
    if record == None { return None; }
    NextUpTo(raws, i, rows);
    return Some(AddRecord(rows, record.value));
  }

  /** The loop over the matches; None when std::stoi throws. */
  method AccumulateRows(body: ByteString, ms: seq<Match>, ghost raws: seq<RawRecord>) returns (rows: Option<Rows>)
    requires raws == RawRecords(body, ms) && AllNumbered(raws)
    ensures rows == if forall r :: r in raws ==> IndexFits(r) then Some(RowsOf(ReadAll(raws))) else None
  {
    rows := Some(map[]);
    for i := 0 to |ms|
      invariant rows.Some? && ReadUpTo(raws, i, rows.value)
    {
      assert raws[i] in raws;
      rows := TakeRecord(CapturesOf(body, ms[i]), rows.value, raws, i);
      if rows == None { return None; }
    }
    assert raws[..|ms|] == raws;
  }

  lemma {:induction false} ScannedDigits(body: ByteString)
    ensures AllNumbered(RawRecords(body, FindAll(RECORD, body, 0)))
  {
    ScannedIsRaw(body, 0);
    forall r | r in RawRecords(body, FindAll(RECORD, body, 0)) ensures AllDigits(r.index) && r.index != [] {
      assert r in ScanFrom(body, 0);
    }
  }

  method ParseDevices(body: ByteString) returns (list: DeviceList)
    ensures list == DevicesOf(body)
  {
    ScannedDigits(body);
    var rows := AccumulateRows(body, FindAll(RECORD, body, 0), ScanFrom(body, 0));
    if rows == None { return IndexOutOfRange; }
    RowsFit(ScanFrom(body, 0));
    var devices := ListRows(rows.value);
    return Listed(devices);
  }

  lemma {:induction false} RowsFit(raws: seq<RawRecord>)
    requires forall r :: r in raws ==> AllDigits(r.index) && IndexFits(r)
    ensures forall r :: r in ReadAll(raws) ==> r.index <= INT_MAX
    ensures forall k :: k in RowsOf(ReadAll(raws)) ==> k <= INT_MAX
  {
    var rs := ReadAll(raws);
    forall r | r in rs ensures r.index <= INT_MAX {
      var i :| 0 <= i < |rs| && rs[i] == r;
      assert raws[i] in raws;
    }
    forall k: nat ensures k in RowsOf(rs) ==> k <= INT_MAX { RowsInRange(rs, k); }
  }

  lemma {:induction false} ReadSnoc(rs: seq<RawRecord>, r: RawRecord)
    requires AllDigits(r.index) && forall q :: q in rs ==> AllDigits(q.index)
    ensures ReadAll(rs + [r]) == ReadAll(rs) + [Read(r)]
    ensures RowsOf(ReadAll(rs + [r])) == AddRecord(RowsOf(ReadAll(rs)), Read(r))
  {
    var all := ReadAll(rs + [r]);
    assert all == ReadAll(rs) + [Read(r)];
    assert all[..|all| - 1] == ReadAll(rs);
  }

  /** The final loop: std::map iterates in increasing order of key. */
  method ListRows(rows: Rows) returns (devices: seq<Device>)
    requires forall k :: k in rows ==> k <= INT_MAX
    ensures devices == Listing(rows)
  {
    devices := [];
    var keys := rows.Keys;
    ghost var next: nat := 0;
    while keys != {}
      invariant next <= INT_MAX + 1
      invariant forall k: nat :: k in keys <==> k in rows && next <= k
      invariant devices == Below(rows, next)
      decreases |keys|
    {
      LeastExists(keys);
      var k :| IsLeast(keys, k);
      BelowGap(rows, next, k);
      if Complete(rows[k]) { devices := devices + [rows[k]]; }
      keys := keys - {k};
      next := k + 1;
    }
    BelowGap(rows, next, INT_MAX + 1);
  }

  /** The device list of any page is the table of its records, unless some index exceeds INT_MAX,
      which is the one way to fail. */
  lemma {:induction false} DevicesMeaning(body: ByteString, ps: seq<nat>, rs: seq<RawRecord>)
    requires AreRecords(body, 0, ps, rs)
    ensures DevicesOf(body).IndexOutOfRange? <==>
            exists r :: r in rs && AllDigits(r.index) && DigitsValue(r.index) > 2147483647
    ensures DevicesOf(body).Listed? ==>
              && (forall r :: r in rs ==> AllDigits(r.index))
              && (exists ks :: IsTable(ReadAll(rs), DevicesOf(body).devices, ks))
              && ListsDescribed(ReadAll(rs), DevicesOf(body).devices)
  {
    RecordsScanned(body, 0, ps, rs);
    ScannedIsRaw(body, 0);
    if DevicesOf(body).Listed? {
      RowsFit(rs);
      ListingIsTable(ReadAll(rs));
      var ks :| IsTable(ReadAll(rs), DevicesOf(body).devices, ks);
      TableIsDescribed(ReadAll(rs), DevicesOf(body).devices, ks);
    }
  }

  /** A page of no text has no records and no devices. */
  lemma {:induction false} EmptyPageLists()
    ensures DevicesOf([]) == Listed([])
  {
    forall j: nat, r ensures !StandsAt([], j, r) { assert |PrintRaw(r)| > 0; }
    RecordsScanned([], 0, [], []);
    assert ReadAll([]) == [];
    BelowGap(map[], 0, INT_MAX + 1);
  }
}
