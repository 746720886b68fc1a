/** The paired-device store and the per-device audit log. */
module Devices {
  import opened Wrappers

  const TIER_READ_ONLY := "read_only"
  const TIER_TOOL_USE := "tool_use"
  const TIER_DESTRUCTIVE := "destructive_tool_access"

  predicate IsValidTier(tier: string) {
    tier == TIER_READ_ONLY || tier == TIER_TOOL_USE || tier == TIER_DESTRUCTIVE
  }

  /** How much a tier permits; an unknown tier permits nothing. */
  function TierRank(tier: string): int {
    match tier
    case "read_only" => 0
    case "tool_use" => 1
    case "destructive_tool_access" => 2
    case _ => -1
  }

  /** The known tiers are the ranked ones, each with a rank of its own. */
  lemma TiersRanked(a: string, b: string)
    ensures IsValidTier(a) <==> TierRank(a) >= 0
    ensures IsValidTier(a) && TierRank(a) == TierRank(b) ==> a == b
    ensures IsValidTier(a) ==> TierRank(TIER_READ_ONLY) <= TierRank(a) <= TierRank(TIER_DESTRUCTIVE)
  {
  }

  datatype Device = Device(
    deviceId: string,
    name: string,
    token: string,
    tier: string,
    pairedAt: real,
    lastSeen: real,
    metadata: map<string, string>)

  ghost predicate UniqueDevices(devices: seq<Device>) {
    forall i, j :: 0 <= i < j < |devices| ==> devices[i].deviceId != devices[j].deviceId
  }

  /** The first record with this id. */
  function IndexOf(devices: seq<Device>, id: string): (r: Option<nat>)
    ensures r.Some? ==> r.value < |devices| && devices[r.value].deviceId == id
    ensures r.Some? ==> forall j :: 0 <= j < r.value ==> devices[j].deviceId != id
    ensures r.None? ==> forall j :: 0 <= j < |devices| ==> devices[j].deviceId != id
  {
    if devices == [] then None
    else if devices[0].deviceId == id then Some(0)
    else
      match IndexOf(devices[1..], id)
      case None => None
      case Some(i) => Some(i + 1)
  }

  /** The first record with this token. */
  function IndexOfToken(devices: seq<Device>, token: string): (r: Option<nat>)
    ensures r.Some? ==> r.value < |devices| && devices[r.value].token == token
    ensures r.None? ==> forall j :: 0 <= j < |devices| ==> devices[j].token != token
  {
    if devices == [] then None
    else if devices[0].token == token then Some(0)
    else
      match IndexOfToken(devices[1..], token)
      case None => None
      case Some(i) => Some(i + 1)
  }

  /** The record found for a token; the empty token finds nothing. */
  function FoundByToken(devices: seq<Device>, token: string): Option<Device> {
    if token == "" then None
    else
      match IndexOfToken(devices, token)
      case None => None
      case Some(i) => Some(devices[i])
  }

  function Updated(devices: seq<Device>, id: string, f: Device -> Device): seq<Device> {
    match IndexOf(devices, id)
    case None => devices
    case Some(i) => devices[i := f(devices[i])]
  }

  function Removed(devices: seq<Device>, id: string): seq<Device> {
    if devices == [] then []
    else
      var init, last := devices[..|devices| - 1], devices[|devices| - 1];
      if last.deviceId == id then Removed(init, id) else Removed(init, id) + [last]
  }

  function Touched(devices: seq<Device>, id: string, when: real): seq<Device> {
    Updated(devices, id, (d: Device) => d.(lastSeen := when))
  }

  /** The store; its devices are the contents of the file every call re-reads. */
  class DeviceStore {
    var devices: seq<Device>

    constructor ()
      ensures devices == []
    {
      devices := [];
    }

    method Get(id: string) returns (r: Option<Device>)
      ensures r.None? <==> IndexOf(devices, id).None?
      ensures r.Some? ==> r.value == devices[IndexOf(devices, id).value]
    {
      var i := IndexOf(devices, id);
      r := if i.Some? then Some(devices[i.value]) else None;
    }

    method FindByToken(token: string) returns (r: Option<Device>)
      ensures r == FoundByToken(devices, token)
    {
      if token == "" {
        return None;
      }
      var i := IndexOfToken(devices, token);
      r := if i.Some? then Some(devices[i.value]) else None;
    }

    /** Append a record; refused when its id is taken. */
    method Add(device: Device) returns (ok: bool)
      modifies this
      ensures ok <==> IndexOf(old(devices), device.deviceId).None?
      ensures devices == if ok then old(devices) + [device] else old(devices)
    {
      ok := IndexOf(devices, device.deviceId).None?;
      if ok {
        devices := devices + [device];
      }
    }

    method Update(id: string, f: Device -> Device) returns (r: Option<Device>)
      modifies this
      ensures devices == Updated(old(devices), id, f)
      ensures r.None? <==> IndexOf(old(devices), id).None?
      ensures r.Some? ==> r.value == f(old(devices)[IndexOf(old(devices), id).value])
    {
      var i := IndexOf(devices, id);
      if i.None? {
        return None;
      }
      var updated := f(devices[i.value]);
      devices := devices[i.value := updated];
      r := Some(updated);
    }

    method Remove(id: string) returns (removed: bool)
      modifies this
      ensures devices == Removed(old(devices), id)
      ensures removed <==> IndexOf(old(devices), id).Some?
    {
      var kept := Removed(devices, id);
      RemovedLength(devices, id);
      if |kept| == |devices| {
        return false;
      }
      devices := kept;
      removed := true;
    }

    /** Set `lastSeen` on the first matching record; nothing for an unknown id. */
    method Touch(id: string, when: real)
      modifies this
      ensures devices == Touched(old(devices), id, when)
    {
      var all := devices;
      var changed := false;
      for i := 0 to |all|
        invariant |all| == |devices| && devices == old(devices)
        invariant all == devices && !changed
        invariant forall j :: 0 <= j < i ==> devices[j].deviceId != id
      {
        if all[i].deviceId == id {
          all := all[i := all[i].(lastSeen := when)];
          changed := true;
          assert IndexOf(devices, id) == Some(i);
          break;
        }
      }
      if changed {
        devices := all;
      }
    }
  }

  lemma {:induction false} RemovedHas(devices: seq<Device>, id: string, d: Device)
    ensures d in Removed(devices, id) <==> d in devices && d.deviceId != id
  {
    if devices != [] {
      var init, last := devices[..|devices| - 1], devices[|devices| - 1];
      assert devices == init + [last];
      RemovedHas(init, id, d);
    }
  }

  lemma {:induction false} RemovedLength(devices: seq<Device>, id: string)
    ensures |Removed(devices, id)| <= |devices|
    ensures |Removed(devices, id)| == |devices| <==> IndexOf(devices, id).None?
    ensures |Removed(devices, id)| == |devices| ==> Removed(devices, id) == devices
  {
    if devices != [] {
      var init, last := devices[..|devices| - 1], devices[|devices| - 1];
      RemovedLength(init, id);
      hide IndexOf;
      assert devices == init + [last];
    }
  }

  lemma {:induction false} RemovedUnique(devices: seq<Device>, id: string)
    requires UniqueDevices(devices)
    ensures UniqueDevices(Removed(devices, id))
  {
    if devices != [] {
      var init, last := devices[..|devices| - 1], devices[|devices| - 1];
      RemovedUnique(init, id);
      var r := Removed(init, id);
      forall i | 0 <= i < |r|
        ensures r[i].deviceId != last.deviceId
      {
        RemovedHas(init, id, r[i]);
      }
    }
  }

  // ----- The audit log -----

  const ACTION_LOG_CAP: nat := 50

  datatype ActionEntry = ActionEntry(action: string, timestamp: string, status: string)

  /** The entries recorded for one device, oldest first, out of everything recorded. */
  function ForDevice(history: seq<(string, ActionEntry)>, id: string): seq<ActionEntry> {
    if history == [] then []
    else
      var r, last := ForDevice(history[..|history| - 1], id), history[|history| - 1];
      if last.0 == id then r + [last.1] else r
  }

  function LastOf<T>(s: seq<T>, n: nat): seq<T> {
    if |s| <= n then s else s[|s| - n..]
  }

  function Reversed<T>(s: seq<T>): (r: seq<T>)
    ensures |r| == |s|
  {
    seq(|s|, i requires 0 <= i < |s| => s[|s| - 1 - i])
  }

  function Min(a: nat, b: nat): (r: nat)
    ensures r <= a && r <= b && (r == a || r == b)
  {
    if a <= b then a else b
  }

  function Take<T>(s: seq<T>, n: nat): seq<T> {
    s[..Min(n, |s|)]
  }

  /** Rolling per-device history, oldest first; `history` is the log without a cap. */
  class ActionLog {
    var data: map<string, seq<ActionEntry>>
    ghost var history: seq<(string, ActionEntry)>

    function Entries(id: string): seq<ActionEntry>
      reads this
    {
      if id in data then data[id] else []
    }

    /** Every device keeps exactly the last entries recorded for it. */
    ghost predicate Valid()
      reads this
    {
      forall id :: Entries(id) == LastOf(ForDevice(history, id), ACTION_LOG_CAP)
    }

    constructor ()
      ensures Valid() && history == []
    {
      data := map[];
      history := [];
    }

    method RecordAt(id: string, action: string, status: string, timestamp: string) returns (entry: ActionEntry)
      requires Valid()
      modifies this
      ensures Valid()
      ensures entry == ActionEntry(action, timestamp, status)
      ensures history == old(history) + [(id, entry)]
      ensures forall other :: other != id ==> Entries(other) == old(Entries(other))
    {
      hide LastOf, ForDevice;
      entry := ActionEntry(action, timestamp, status);
      var entries := if id in data then data[id] else [];
      assert entries == Entries(id);
      LastOfCut(entries + [entry], ACTION_LOG_CAP);
      entries := entries + [entry];
      if |entries| > ACTION_LOG_CAP {
        var overflow := |entries| - ACTION_LOG_CAP;
        entries := entries[overflow..];
      }
      ghost var before := history;
      data := data[id := entries];
      history := history + [(id, entry)];
      forall other
        ensures Entries(other) == LastOf(ForDevice(history, other), ACTION_LOG_CAP)
      {
        assert other != id ==> Entries(other) == old(Entries(other));
        ForDeviceSnoc(before, id, entry, other);
        LastOfSnoc(ForDevice(before, id), entry, ACTION_LOG_CAP);
      }
    }

    /** Newest first: the reverse of what was recorded for the device, cut at the
        limit and at the cap. */
    method Recent(id: string, limit: nat) returns (r: seq<ActionEntry>)
      requires Valid()
      ensures r == Take(Reversed(ForDevice(history, id)), Min(limit, ACTION_LOG_CAP))
      ensures var all := ForDevice(history, id);
              && |r| == Min(Min(limit, 50), |all|)
              && forall i :: 0 <= i < |r| ==> r[i] == all[|all| - 1 - i]
    {
      RecentOfLast(ForDevice(history, id), limit, ACTION_LOG_CAP);
      if id !in data {
        assert Entries(id) == [];
        return [];
      }
      r := Take(Reversed(data[id]), limit);
    }
  }

  lemma ForDeviceSnoc(history: seq<(string, ActionEntry)>, id: string, entry: ActionEntry, other: string)
    ensures ForDevice(history + [(id, entry)], other)
            == if other == id then ForDevice(history, other) + [entry] else ForDevice(history, other)
  {
    assert (history + [(id, entry)])[..|history|] == history;
  }

  lemma LastOfCut<T>(s: seq<T>, n: nat)
    ensures LastOf(s, n) == if |s| > n then s[|s| - n..] else s
  {
  }

  lemma LastOfSnoc<T>(s: seq<T>, x: T, n: nat)
    ensures LastOf(s + [x], n) == LastOf(LastOf(s, n) + [x], n)
  {
  }

  /** Cutting to the newest `cap` first changes nothing a reader can see. */
  lemma RecentOfLast<T>(s: seq<T>, limit: nat, cap: nat)
    ensures Take(Reversed(LastOf(s, cap)), limit) == Take(Reversed(s), Min(limit, cap))
  {
  }
}
