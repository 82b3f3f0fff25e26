/** The device service: the last refreshed list, and searching it. */
module DeviceService {
  import opened Bytes
  import opened DeviceTable
  import opened Protocol
  import opened RouterClient

  predicate ContainsIgnoreCase(value: ByteString, query: ByteString) {
    Contains(Lower(value), Lower(query))
  }

  predicate Matches(d: Device, query: ByteString) {
    ContainsIgnoreCase(d.name, query) || ContainsIgnoreCase(d.ipAddress, query)
      || ContainsIgnoreCase(d.macAddress, query)
  }

  function Filtered(devices: seq<Device>, query: ByteString): seq<Device> {
    if devices == [] then []
    else (if Matches(devices[0], query) then [devices[0]] else []) + Filtered(devices[1..], query)
  }

  lemma {:induction false} FilterStep(matches: seq<Device>, devices: seq<Device>, i: nat, query: ByteString)
    requires i < |devices|
    ensures var picked := if Matches(devices[i], query) then matches + [devices[i]] else matches;
            matches + Filtered(devices[i..], query) == picked + Filtered(devices[i + 1..], query)
  {
    assert devices[i..][1..] == devices[i + 1..];
  }

  /** The last list of a history, or nothing yet. */
  function Latest(history: seq<seq<Device>>): seq<Device> {
    if |history| == 0 then [] else history[|history| - 1]
  }

  class DeviceService {
    const client: ZteF670LRouterClient
    var devices: seq<Device>

    /** The lists that refreshes have brought, oldest first. */
    ghost var refreshed: seq<seq<Device>>

    ghost predicate Valid()
      reads this, client, client.http
    {
      client.Valid() && devices == Latest(refreshed)
    }

    constructor (client: ZteF670LRouterClient)
      requires client.Valid()
      ensures Valid() && this.client == client && refreshed == []
    {
      this.client := client;
      devices, refreshed := [], [];
    }

    /** The cache is replaced by what the client lists; an exception leaves it as it was. */
    method Refresh() returns (list: DeviceList)
      requires Valid()
      modifies this, client, client.http
      ensures Valid() && client.Did(old(client.run), Op.GetDevices, Devices(list))
      ensures refreshed == if list.Listed? then old(refreshed) + [list.devices] else old(refreshed)
      ensures list.Listed? ==> devices == list.devices
    {
      list := client.ConnectedDevices();
      if list.Listed? {
        devices := list.devices;
        refreshed := refreshed + [devices];
      }
    }

    method Search(query: ByteString) returns (matches: seq<Device>)
      ensures matches == Filtered(devices, query)
    {
      matches := [];
      for i := 0 to |devices|
        invariant matches + Filtered(devices[i..], query) == Filtered(devices, query)
      {
        FilterStep(matches, devices, i, query);
        var d := devices[i];
        if Matches(d, query) { matches := matches + [d]; }
      }
    }

    method CachedDevices() returns (list: seq<Device>)
      ensures list == devices
    {
      list := devices;
    }
  }

  lemma {:induction false} MatchesMeaning(d: Device, query: ByteString)
    ensures Matches(d, query) <==>
            HoldsNoCase(d.name, query) || HoldsNoCase(d.ipAddress, query) || HoldsNoCase(d.macAddress, query)
  {
    LowerContains(d.name, query);
    LowerContains(d.ipAddress, query);
    LowerContains(d.macAddress, query);
  }

  /** These positions, in order, are those of the devices whose name, IP address or MAC address holds
      the query in any case. */
  ghost predicate FoundAt(devices: seq<Device>, query: ByteString, ks: seq<nat>) {
    && Increasing(ks)
    && forall k: nat :: k in ks <==>
         && k < |devices|
         && (|| (exists p: nat :: SameTextAt(devices[k].name, query, p))
             || (exists p: nat :: SameTextAt(devices[k].ipAddress, query, p))
             || (exists p: nat :: SameTextAt(devices[k].macAddress, query, p)))
  }

  lemma {:induction false} PicksFound(devices: seq<Device>, query: ByteString, ks: seq<nat>)
    requires Picks(devices, query, ks)
    ensures FoundAt(devices, query, ks)
  {
    forall k: nat | k < |devices|
      ensures Matches(devices[k], query) <==>
                || HoldsNoCase(devices[k].name, query) || HoldsNoCase(devices[k].ipAddress, query)
                || HoldsNoCase(devices[k].macAddress, query)
    {
      MatchesMeaning(devices[k], query);
    }
  }

  /** The indices of the matching devices, in order. */
  ghost predicate Picks(devices: seq<Device>, query: ByteString, ks: seq<nat>) {
    && Increasing(ks)
    && forall k: nat :: k in ks <==> k < |devices| && Matches(devices[k], query)
  }

  function MatchingIndices(devices: seq<Device>, query: ByteString): seq<nat> {
    if devices == [] then []
    else
      var init, last := devices[..|devices| - 1], |devices| - 1;
      MatchingIndices(init, query) + (if Matches(devices[last], query) then [last] else [])
  }

  lemma {:induction false} PickLast(devices: seq<Device>, query: ByteString, ks: seq<nat>)
    requires devices != [] && Picks(devices[..|devices| - 1], query, ks)
    requires forall i :: 0 <= i < |ks| ==> ks[i] < |devices| - 1
    ensures Picks(devices, query, ks + (if Matches(devices[|devices| - 1], query) then [|devices| - 1] else []))
  {
    var init, last: nat := devices[..|devices| - 1], |devices| - 1;
    var r: seq<nat> := ks + (if Matches(devices[last], query) then [last] else []);
    forall k: nat ensures k in r <==> k < |devices| && Matches(devices[k], query) {
      if k < last { assert init[k] == devices[k]; }
      assert k in r <==> k in ks || (Matches(devices[last], query) && k == last);
    }
  }

  lemma {:induction false} IndicesPick(devices: seq<Device>, query: ByteString)
    ensures Picks(devices, query, MatchingIndices(devices, query))
  {
    if devices != [] {
      var init, last := devices[..|devices| - 1], |devices| - 1;
      IndicesPick(init, query);
      var ks := MatchingIndices(init, query);
      forall i | 0 <= i < |ks| ensures ks[i] < last { assert ks[i] in ks; }
      PickLast(devices, query, ks);
    }
  }

  /** `list` is what stands at these positions. */
  ghost predicate StandAt(devices: seq<Device>, ks: seq<nat>, list: seq<Device>) {
    |list| == |ks| && forall i :: 0 <= i < |ks| ==> ks[i] < |devices| && list[i] == devices[ks[i]]
  }

  lemma {:induction false} StandAtLast(devices: seq<Device>, ks: seq<nat>, list: seq<Device>)
    requires devices != [] && StandAt(devices[..|devices| - 1], ks, list)
    ensures StandAt(devices, ks, list)
    ensures StandAt(devices, ks + [|devices| - 1], list + [devices[|devices| - 1]])
  {
  }

  lemma {:induction false} FilteredStand(devices: seq<Device>, query: ByteString)
    ensures StandAt(devices, MatchingIndices(devices, query), Filtered(devices, query))
  {
    if devices != [] {
      var init, last := devices[..|devices| - 1], |devices| - 1;
      FilteredStand(init, query);
      StandAtLast(devices, MatchingIndices(init, query), Filtered(init, query));
      FilteredSnoc(init, devices[last], query);
      assert devices == init + [devices[last]];
    }
  }

  /** A search gives exactly the devices with the query in one of their three texts, in any case, and
      in the order of the list. */
  lemma {:induction false} SearchMeaning(devices: seq<Device>, query: ByteString)
    ensures exists ks :: FoundAt(devices, query, ks) && StandAt(devices, ks, Filtered(devices, query))
  {
    IndicesPick(devices, query);
    PicksFound(devices, query, MatchingIndices(devices, query));
    FilteredStand(devices, query);
  }

  lemma {:induction false} FilteredSnoc(devices: seq<Device>, d: Device, query: ByteString)
    ensures Filtered(devices + [d], query) == Filtered(devices, query) + (if Matches(d, query) then [d] else [])
  {
    if devices == [] {
      assert [] + [d] == [d];
    } else {
      FilteredSnoc(devices[1..], d, query);
      assert devices + [d] == [devices[0]] + (devices[1..] + [d]);
      FilteredCons(devices[0], devices[1..] + [d], query);
    }
  }

  /** The case of the query never changes the result. */
  lemma {:induction false} SearchIgnoresCase(devices: seq<Device>, a: ByteString, b: ByteString)
    requires SameText(a, b)
    ensures Filtered(devices, a) == Filtered(devices, b)
  {
    LowerMeaning(a, b);
    if devices != [] { SearchIgnoresCase(devices[1..], a, b); }
  }

  /** Text within text within text. */
  lemma {:induction false} ContainsTransitive(text: ByteString, b: ByteString, a: ByteString)
    requires Contains(text, b) && Contains(b, a)
    ensures Contains(text, a)
  {
    var i, j := Find(text, b, 0).value, Find(b, a, 0).value;
    OccursWithin(text, b, i, a, j);
    assert Find(text, a, 0).Some?;
  }

  lemma {:induction false} MatchesNarrow(d: Device, a: ByteString, b: ByteString)
    requires Contains(Lower(b), Lower(a)) && Matches(d, b)
    ensures Matches(d, a)
  {
    if ContainsIgnoreCase(d.name, b) { ContainsTransitive(Lower(d.name), Lower(b), Lower(a)); }
    else if ContainsIgnoreCase(d.ipAddress, b) { ContainsTransitive(Lower(d.ipAddress), Lower(b), Lower(a)); }
    else { ContainsTransitive(Lower(d.macAddress), Lower(b), Lower(a)); }
  }

  lemma {:induction false} FilteredCons(d: Device, rest: seq<Device>, query: ByteString)
    ensures Filtered([d] + rest, query) == (if Matches(d, query) then [d] else []) + Filtered(rest, query)
  {
    assert ([d] + rest)[1..] == rest;
  }

  /** Extending the query on either side narrows the result: searching again with the longer
      query among the first result gives the whole second result. */
  lemma {:induction false} SearchNarrows(devices: seq<Device>, a: ByteString, b: ByteString)
    requires HoldsNoCase(b, a)
    ensures Filtered(Filtered(devices, a), b) == Filtered(devices, b)
  {
    LowerContains(b, a);
    if devices != [] {
      SearchNarrows(devices[1..], a, b);
      var d := devices[0];
      if Matches(d, b) { MatchesNarrow(d, a, b); }
      FilteredCons(d, Filtered(devices[1..], a), b);
      if !Matches(d, a) { assert [] + Filtered(devices[1..], a) == Filtered(devices[1..], a); }
    }
  }
}
