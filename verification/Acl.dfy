/** The MAC filter list: finding a row, and the fields that add or delete one. */
module Acl {
  import opened Bytes
  import opened UrlForm
  import opened FormPatterns

  const MAC_FIELD: ByteString := "MACAddress"
  const VIEW_ID: ByteString := "IF_VIEWID"

  // ---- Finding a row ----

  method AsciiEqualIgnoreCase(lhs: ByteString, rhs: ByteString) returns (equal: bool)
    ensures equal <==>
              && |lhs| == |rhs|
              && forall i :: 0 <= i < |lhs| ==>
                   || lhs[i] == rhs[i]
                   || ('A' <= lhs[i] <= 'Z' && rhs[i] as int == lhs[i] as int + 32)
                   || ('A' <= rhs[i] <= 'Z' && lhs[i] as int == rhs[i] as int + 32)
    ensures equal <==> SameText(lhs, rhs)
  {
    if |lhs| != |rhs| { return false; }
    for i := 0 to |lhs|
      invariant forall j :: 0 <= j < i ==> SameLetter(lhs[j], rhs[j])
    {
      ToLowerMeaning(lhs[i], rhs[i]);
      if ToLower(lhs[i]) != ToLower(rhs[i]) { return false; }
    }
    return true;
  }

  /** `MACAddress` followed by at least one digit and nothing else. */
  predicate IsRowName(name: ByteString) {
    && |name| > 10 && name[..10] == MAC_FIELD
    && forall i :: 10 <= i < |name| ==> IsDigit(name[i])
  }

  predicate IsRowOf(f: Field, mac: ByteString) {
    IsRowName(f.name) && SameText(f.value, mac)
  }

  function RowIndex(name: ByteString): (index: ByteString)
    requires IsRowName(name)
    ensures index != []
  {
    name[10..]
  }

  function AclIndex(fields: seq<Field>, mac: ByteString): ByteString {
    if fields == [] then []
    else if IsRowOf(fields[0], mac) then RowIndex(fields[0].name)
    else AclIndex(fields[1..], mac)
  }

  method FindAclIndexByMac(fields: seq<Field>, mac: ByteString) returns (index: ByteString)
    ensures index == AclIndex(fields, mac)
  {
    for i := 0 to |fields|
      invariant AclIndex(fields[i..], mac) == AclIndex(fields, mac)
    {
      assert fields[i..][1..] == fields[i + 1..];
      var name := fields[i].name;
      if |name| <= 10 || name[..10] != MAC_FIELD { continue; }
      var allDigits := true;
      for k := 10 to |name|
        invariant allDigits <==> forall j :: 10 <= j < k ==> IsDigit(name[j])
      {
        allDigits := allDigits && IsDigit(name[k]);
      }
      var equal := AsciiEqualIgnoreCase(fields[i].value, mac);
      if allDigits && equal { return name[10..]; }
    }
    return [];
  }

  /** Position `i` is the first row of this address. */
  ghost predicate FirstRowAt(fields: seq<Field>, mac: ByteString, i: int) {
    && 0 <= i < |fields| && IsRowOf(fields[i], mac)
    && forall j :: 0 <= j < i ==> !IsRowOf(fields[j], mac)
  }

  /** Sound, complete and first-match: the index is empty exactly when no row holds the
      address, and otherwise it is that of the first such row. */
  lemma {:induction false} AclIndexMeaning(fields: seq<Field>, mac: ByteString)
    ensures AclIndex(fields, mac) == [] <==> forall f :: f in fields ==> !IsRowOf(f, mac)
    ensures AclIndex(fields, mac) != [] <==> exists i :: FirstRowAt(fields, mac, i)
    ensures forall i :: FirstRowAt(fields, mac, i) ==> AclIndex(fields, mac) == RowIndex(fields[i].name)
  {
    if fields != [] {
      var rest := fields[1..];
      AclIndexMeaning(rest, mac);
      if IsRowOf(fields[0], mac) {
        assert FirstRowAt(fields, mac, 0);
        assert fields[0] in fields;
      } else {
        if i :| FirstRowAt(rest, mac, i) { assert FirstRowAt(fields, mac, i + 1); }
        forall i | FirstRowAt(fields, mac, i) ensures FirstRowAt(rest, mac, i - 1) {}
        forall f ensures f in fields <==> f == fields[0] || f in rest {}
      }
    }
  }

  /** The same on the bytes of the fields: the name is MACAddress and then digits, at least one. */
  lemma {:induction false} RowMeaning(f: Field, mac: ByteString)
    ensures IsRowOf(f, mac) <==>
              && |f.name| > 10 && f.name[..10] == "MACAddress"
              && (forall i :: 10 <= i < |f.name| ==> '0' <= f.name[i] <= '9')
              && SameText(f.value, mac)
  {
  }

  lemma {:induction false} SameTextAgrees(t: ByteString, a: ByteString, b: ByteString)
    requires SameText(a, b)
    ensures SameText(t, a) <==> SameText(t, b)
  {
    LowerMeaning(a, b);
    LowerMeaning(t, a);
    LowerMeaning(t, b);
  }

  /** The case of the query never changes the answer. */
  lemma {:induction false} AclIndexIgnoresCase(fields: seq<Field>, a: ByteString, b: ByteString)
    requires SameText(a, b)
    ensures AclIndex(fields, a) == AclIndex(fields, b)
  {
    if fields != [] {
      SameTextAgrees(fields[0].value, a, b);
      AclIndexIgnoresCase(fields[1..], a, b);
    }
  }

  // ---- Blocking: ten overrides of the page's own fields ----

  function BlockUpdates(mac: ByteString): seq<Field> {
    BlockEnvelope() + BlockRow(mac)
  }

  function BlockEnvelope(): seq<Field> {
    [Field("IF_ACTION", "new"),
     Field("IF_ERRORSTR", "SUCC"),
     Field("IF_ERRORPARAM", "SUCC"),
     Field("IF_ERRORTYPE", "-1"),
     Field("IF_INDEX", "-1")]
  }

  function BlockRow(mac: ByteString): seq<Field> {
    [Field("IF_INSTNUM", "0"),
     Field("ViewName", "NULL"),
     Field("Interface", "0"),
     Field("MACAddress", mac),
     Field("ACLPolicy", "Ban")]
  }

  function BlockFields(fields: seq<Field>, mac: ByteString): seq<Field> {
    UpdatedAll(fields, BlockUpdates(mac))
  }

  /** One setField call, with the list of updates made so far. */
  method Put(fields: FormFields, name: ByteString, value: ByteString, ghost before: seq<Field>,
             ghost made: seq<Field>)
    returns (ghost after: seq<Field>)
    requires fields.items == UpdatedAll(before, made)
    modifies fields
    ensures after == made + [Field(name, value)] && fields.items == UpdatedAll(before, after)
  {
    fields.SetField(name, value);
    after := made + [Field(name, value)];
    assert after[..|after| - 1] == made;
  }

  method OverrideForBlock(fields: FormFields, mac: ByteString)
    modifies fields
    ensures fields.items == BlockFields(old(fields.items), mac)
  {
    ghost var before := fields.items;
    ghost var made := OverrideEnvelope(fields, before);
    made := Put(fields, "IF_INSTNUM", "0", before, made);
    made := Put(fields, "ViewName", "NULL", before, made);
    made := Put(fields, "Interface", "0", before, made);
    made := Put(fields, "MACAddress", mac, before, made);
    made := Put(fields, "ACLPolicy", "Ban", before, made);
    assert made == BlockUpdates(mac);
  }

  method OverrideEnvelope(fields: FormFields, ghost before: seq<Field>) returns (ghost made: seq<Field>)
    requires fields.items == before
    modifies fields
    ensures made == BlockEnvelope() && fields.items == UpdatedAll(before, made)
  {
    made := [];
    made := Put(fields, "IF_ACTION", "new", before, made);
    made := Put(fields, "IF_ERRORSTR", "SUCC", before, made);
    made := Put(fields, "IF_ERRORPARAM", "SUCC", before, made);
    made := Put(fields, "IF_ERRORTYPE", "-1", before, made);
    made := Put(fields, "IF_INDEX", "-1", before, made);
    assert made == BlockEnvelope();
  }

  /** The names of equal length, told apart by one byte. */
  lemma {:induction false} BlockNamesDiffer()
    ensures var a: ByteString, b: ByteString, c: ByteString :=
            "IF_ACTION", "Interface", "ACLPolicy"; a != b && a != c && b != c
    ensures var a: ByteString, b: ByteString := "IF_INDEX", "ViewName"; a != b
    ensures var a: ByteString, b: ByteString := "IF_INSTNUM", "MACAddress"; a != b
  {
    var a: ByteString, b: ByteString, c: ByteString := "IF_ACTION", "Interface", "ACLPolicy";
    assert a[1] == 'F' && b[1] == 'n' && c[1] == 'C';
    var d: ByteString, e: ByteString := "IF_INDEX", "ViewName";
    assert d[0] == 'I' && e[0] == 'V';
    var f: ByteString, g: ByteString := "IF_INSTNUM", "MACAddress";
    assert f[0] == 'I' && g[0] == 'M';
  }

  lemma {:induction false} BlockUpdatesDistinct(mac: ByteString)
    ensures DistinctNames(BlockUpdates(mac))
  {
    var us := BlockUpdates(mac);
    BlockNamesDiffer();
    BlockNameLengths(mac);
  }

  lemma {:induction false} BlockNameLengths(mac: ByteString)
    ensures var us := BlockUpdates(mac);
            && |us[0].name| == 9 && |us[1].name| == 11 && |us[2].name| == 13 && |us[3].name| == 12 && |us[4].name| == 8
            && |us[5].name| == 10 && |us[6].name| == 8 && |us[7].name| == 9 && |us[8].name| == 10 && |us[9].name| == 9
    ensures forall f :: f in BlockUpdates(mac) ==> |f.name| < 14
  {
  }

  lemma {:induction false} BlockKeepsToken(mac: ByteString)
    ensures !HasName(BlockUpdates(mac), TOKEN_NAME)
  {
    BlockNameLengths(mac);
    assert |TOKEN_NAME| == 14;
  }

  // ---- Unblocking: eleven fields and no others ----

  function UnblockUpdates(viewId: ByteString, token: ByteString, index: ByteString, mac: ByteString): seq<Field> {
    [Field("IF_ACTION", "delete"),
     Field("IF_ERRORSTR", "SUCC"),
     Field("IF_ERRORPARAM", "SUCC"),
     Field("IF_ERRORTYPE", "-1"),
     Field(VIEW_ID, viewId),
     Field(TOKEN_NAME, token),
     Field("IF_INDEX", index),
     Field("IF_INSTNUM", "1"),
     Field("ViewName" + index, "IGD.ACL1"),
     Field("Interface" + index, "0"),
     Field("MACAddress" + index, mac)]
  }

  method SetForUnblock(fields: FormFields, viewId: ByteString, token: ByteString, index: ByteString, mac: ByteString)
    requires index != []
    modifies fields
    ensures fields.items == UnblockUpdates(viewId, token, index, mac)
  {
    fields.Clear();
    ghost var made := [];
    made := Put(fields, "IF_ACTION", "delete", [], made);
    made := Put(fields, "IF_ERRORSTR", "SUCC", [], made);
    made := Put(fields, "IF_ERRORPARAM", "SUCC", [], made);
    made := Put(fields, "IF_ERRORTYPE", "-1", [], made);
    made := Put(fields, VIEW_ID, viewId, [], made);
    made := Put(fields, TOKEN_NAME, token, [], made);
    made := Put(fields, "IF_INDEX", index, [], made);
    made := Put(fields, "IF_INSTNUM", "1", [], made);
    made := Put(fields, "ViewName" + index, "IGD.ACL1", [], made);
    made := Put(fields, "Interface" + index, "0", [], made);
    made := Put(fields, "MACAddress" + index, mac, [], made);
    assert made == UnblockUpdates(viewId, token, index, mac);
    UnblockUpdatesDistinct(viewId, token, index, mac);
    UpdatedAllFresh(made);
  }

  lemma {:induction false} UnblockUpdatesDistinct(viewId: ByteString, token: ByteString, index: ByteString,
      mac: ByteString)
    requires index != []
    ensures DistinctNames(UnblockUpdates(viewId, token, index, mac))
  {
    var us := UnblockUpdates(viewId, token, index, mac);
    assert us[0].name[1] == 'F' && us[1].name[1] == 'F' && us[2].name[1] == 'F' && us[3].name[1] == 'F'
      && us[4].name[1] == 'F';
    assert us[6].name[1] == 'F' && us[7].name[1] == 'F' && us[5].name[1] == 'S';
    assert us[8].name[1] == 'i' && us[9].name[1] == 'n' && us[10].name[1] == 'A';
    assert us[0].name[3] == 'A' && us[4].name[3] == 'V';
    assert |us[0].name| == 9 && |us[1].name| == 11 && |us[2].name| == 13 && |us[3].name| == 12 && |us[4].name| == 9;
    assert |us[6].name| == 8 && |us[7].name| == 10;
  }
}
