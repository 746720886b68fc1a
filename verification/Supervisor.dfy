/** The per-extension supervisor: one lifecycle state per extension, changed only
    while its lock is held. Discovery, working-directory resolution and the
    connection attempt are arguments. Each `Call` is what one acquisition of the
    locks does, so a sequence of calls is any interleaving of the operations. */
module Supervisor {
  import opened Wrappers

  datatype LifecycleStatus = Disabled | Starting | Running | Unhealthy | Crashed | Broken

  /** The manifest fields the lifecycle reads. */
  datatype Record = Record(panelOnly: bool, enabled: bool)

  datatype Client = Client(pid: Option<nat>)

  datatype ExtensionState = ExtensionState(
    record: Record,
    status: LifecycleStatus,
    client: Option<Client>,
    lastError: Option<string>,
    pid: Option<nat>,
    restartAttempts: nat,
    diskBacked: bool)

  /** What an attempt to bring a process up met. */
  datatype Attempt = BadDirectory(error: string) | ConnectFailed(error: string) | Connected(client: Client)

  const U32_MAX: nat := 0xFFFF_FFFF

  function FromRecord(record: Record): ExtensionState {
    var status := if record.panelOnly then Disabled else if record.enabled then Starting else Disabled;
    ExtensionState(record, status, None, None, None, 0, true)
  }

  /** The state after an attempt to have the extension running. */
  function Started(s: ExtensionState, attempt: Attempt, maxAttempts: nat): ExtensionState {
    if s.record.panelOnly then s.(status := Disabled, lastError := None)
    else if !s.record.enabled then s.(status := Disabled)
    else if s.client.Some? && s.status == Running then s
    else
      match attempt
      case BadDirectory(e) => s.(status := Crashed, lastError := Some(e))
      case ConnectFailed(e) =>
        var attempts := if s.restartAttempts < U32_MAX then s.restartAttempts + 1 else s.restartAttempts;
        s.(status := if attempts >= maxAttempts then Broken else Crashed, lastError := Some(e),
           restartAttempts := attempts)
      case Connected(c) =>
        s.(pid := c.pid, status := Running, lastError := None, restartAttempts := 0, client := Some(c))
  }

  function Stopped(s: ExtensionState): ExtensionState {
    s.(client := None, status := Disabled, pid := None)
  }

  /** What holds of every state whenever its lock is free; `failures` counts the
      connections that failed in a row. */
  ghost predicate StateOk(s: ExtensionState, failures: nat, maxAttempts: nat) {
    && (s.status == Running <==> s.client.Some?)
    && (s.pid.Some? ==> s.status == Running)
    && (s.record.panelOnly ==> s.client.None? && s.status == Disabled)
    && (s.status in {Crashed, Broken} ==> s.lastError.Some?)
    && s.restartAttempts == (if failures <= 0xFFFF_FFFF then failures else 0xFFFF_FFFF)
    && (s.status == Broken ==> failures >= maxAttempts)
    && (s.client.Some? ==> s.record.enabled && s.pid == s.client.value.pid && failures == 0)
  }

  // ----- Calls and runs of calls -----

  datatype Call =
    | Ensure(name: string, attempt: Attempt)
    | Stop(name: string)
    | Refresh(records: map<string, Record>, readable: bool)

  type Catalog = map<string, ExtensionState>

  /** A directory walk keeps known entries as they are, adds new ones, and drops
      disk-backed entries it no longer finds, if the directory could be read. */
  function Refreshed(c: Catalog, records: map<string, Record>, readable: bool): Catalog {
    map name | name in c.Keys + records.Keys && (name in records || !readable || !c[name].diskBacked)
      :: if name in c then c[name] else FromRecord(records[name])
  }

  /** The disk-backed entries a walk did not find. */
  function Stale(c: Catalog, records: map<string, Record>): set<string> {
    set name | name in c && name !in records && c[name].diskBacked
  }

  /** Adding the new entries, then removing the stale ones. */
  lemma RefreshedIs(c: Catalog, added: Catalog, records: map<string, Record>, readable: bool)
    requires added.Keys == c.Keys + records.Keys
    requires forall name :: name in added ==> added[name] == if name in c then c[name] else FromRecord(records[name])
    ensures Refreshed(c, records, readable) == if readable then added - Stale(added, records) else added
  {
  }

  function Effect(c: Catalog, call: Call, maxAttempts: nat): Catalog {
    match call
    case Ensure(name, attempt) => if name in c then c[name := Started(c[name], attempt, maxAttempts)] else c
    case Stop(name) => if name in c then c[name := Stopped(c[name])] else c
    case Refresh(records, readable) => Refreshed(c, records, readable)
  }

  function After(calls: seq<Call>, maxAttempts: nat): Catalog {
    if calls == [] then map[]
    else Effect(After(calls[..|calls| - 1], maxAttempts), calls[|calls| - 1], maxAttempts)
  }

  /** Whether a start reaches the connection attempt. */
  predicate Attempts(s: ExtensionState) {
    !s.record.panelOnly && s.record.enabled && !(s.client.Some? && s.status == Running)
  }

  /** The connections that failed in a row for an extension: since it last
      connected, or since it entered the catalog. */
  function FailedInRow(calls: seq<Call>, name: string, maxAttempts: nat): nat {
    if calls == [] then 0
    else
      var init, last := calls[..|calls| - 1], calls[|calls| - 1];
      var c, n := After(init, maxAttempts), FailedInRow(init, name, maxAttempts);
      if name !in c then 0
      else if last.Ensure? && last.name == name && Attempts(c[name]) then
        match last.attempt
        case BadDirectory(_) => n
        case ConnectFailed(_) => n + 1
        case Connected(_) => 0
      else n
  }

  lemma CallSnoc(calls: seq<Call>, call: Call, maxAttempts: nat)
    ensures After(calls + [call], maxAttempts) == Effect(After(calls, maxAttempts), call, maxAttempts)
  {
    assert (calls + [call])[..|calls|] == calls;
  }

  /** The invariant holds of every extension after every run of calls. */
  lemma {:induction false} ReachableOk(calls: seq<Call>, name: string, maxAttempts: nat)
    requires name in After(calls, maxAttempts)
    ensures StateOk(After(calls, maxAttempts)[name], FailedInRow(calls, name, maxAttempts), maxAttempts)
  {
    var init := calls[..|calls| - 1];
    if name in After(init, maxAttempts) {
      ReachableOk(init, name, maxAttempts);
    }
  }

  /** A running extension holds the client of a connection that was made for it
      and that no stop has ended since. */
  lemma {:induction false} RunningWasConnected(calls: seq<Call>, name: string, maxAttempts: nat) returns (k: nat)
    requires name in After(calls, maxAttempts) && After(calls, maxAttempts)[name].status == Running
    ensures k < |calls| && After(calls, maxAttempts)[name].client.Some?
    ensures calls[k] == Ensure(name, Connected(After(calls, maxAttempts)[name].client.value))
    ensures Stop(name) !in calls[k..]
  {
    var n := |calls| - 1;
    var init, last := calls[..n], calls[n];
    var c := After(init, maxAttempts);
    ReachableOk(calls, name, maxAttempts);
    if name in c && c[name].status == Running {
      ReachableOk(init, name, maxAttempts);
      k := RunningWasConnected(init, name, maxAttempts);
      assert calls[k..] == init[k..] + [last];
    } else {
      k := n;
    }
  }

  /** No directory walk of the calls from `i` on gives a reason to drop `name`. */
  predicate Retained(calls: seq<Call>, i: nat, name: string) {
    forall k :: i <= k < |calls| && calls[k].Refresh? ==> !calls[k].readable || name in calls[k].records
  }

  lemma KeepsRecord(c: Catalog, call: Call, name: string, maxAttempts: nat)
    requires name in c && (call.Refresh? ==> !call.readable || name in call.records)
    ensures name in Effect(c, call, maxAttempts) && Effect(c, call, maxAttempts)[name].record == c[name].record
  {
  }

  /** An extension stays in the catalog with the record it entered with, until a
      walk of a readable directory fails to find it. */
  lemma {:induction false} RecordSticks(calls: seq<Call>, i: nat, name: string, maxAttempts: nat)
    requires i <= |calls| && name in After(calls[..i], maxAttempts) && Retained(calls, i, name)
    ensures name in After(calls, maxAttempts)
    ensures After(calls, maxAttempts)[name].record == After(calls[..i], maxAttempts)[name].record
    decreases |calls|
  {
    hide Effect;
    if i == |calls| {
      assert calls[..i] == calls;
    } else {
      var n := |calls| - 1;
      assert calls[..n][..i] == calls[..i];
      RecordSticks(calls[..n], i, name, maxAttempts);
      KeepsRecord(After(calls[..n], maxAttempts), calls[n], name, maxAttempts);
    }
  }

  /** So an extension stored as disabled or panel-only stays down whatever is
      called and whatever the files on disk say later. */
  lemma StoredOffStaysDown(calls: seq<Call>, i: nat, name: string, maxAttempts: nat)
    requires i <= |calls| && name in After(calls[..i], maxAttempts) && Retained(calls, i, name)
    requires var r := After(calls[..i], maxAttempts)[name].record; r.panelOnly || !r.enabled
    ensures name in After(calls, maxAttempts)
    ensures After(calls, maxAttempts)[name].status == Disabled && After(calls, maxAttempts)[name].client == None
  {
    RecordSticks(calls, i, name, maxAttempts);
    ReachableOk(calls, name, maxAttempts);
    OffIsDisabled(calls, name, maxAttempts);
  }

  lemma {:induction false} OffIsDisabled(calls: seq<Call>, name: string, maxAttempts: nat)
    requires name in After(calls, maxAttempts)
    requires var r := After(calls, maxAttempts)[name].record; r.panelOnly || !r.enabled
    ensures After(calls, maxAttempts)[name].status == Disabled
  {
    var init := calls[..|calls| - 1];
    if name in After(init, maxAttempts) {
      OffIsDisabled(init, name, maxAttempts);
    }
  }

  /** Disabled when first seen, then enabled in its file and connected to. */
  function SwitchedOnLate(c: Client): (r: seq<Call>)
    ensures |r| == 3
  {
    [Refresh(map["x" := Record(false, false)], true),
     Refresh(map["x" := Record(false, true)], true),
     Ensure("x", Connected(c))]
  }

  /** A failing input: the extension is still disabled at the end. */
  lemma SwitchedOnStaysDisabled(c: Client, maxAttempts: nat)
    ensures var r := After(SwitchedOnLate(c), maxAttempts);
            "x" in r && r["x"].status == Disabled && r["x"].client == None
  {
    var calls := SwitchedOnLate(c);
    CallSnoc([], calls[0], maxAttempts);
    CallSnoc([calls[0]], calls[1], maxAttempts);
    CallSnoc([calls[0], calls[1]], calls[2], maxAttempts);
    assert [] + [calls[0]] == [calls[0]];
    assert [calls[0]] + [calls[1]] == [calls[0], calls[1]];
    assert [calls[0], calls[1]] + [calls[2]] == calls;
  }

  /** Every entry came from a file. */
  lemma {:induction false} AllFromDisk(calls: seq<Call>, name: string, maxAttempts: nat)
    requires name in After(calls, maxAttempts)
    ensures After(calls, maxAttempts)[name].diskBacked
  {
    var init := calls[..|calls| - 1];
    if name in After(init, maxAttempts) {
      AllFromDisk(init, name, maxAttempts);
    }
  }

  /** Over every sequence of calls: a walk of a readable directory leaves exactly
      what it found, a walk of an unreadable one only adds. */
  lemma CatalogFollowsDisk(calls: seq<Call>, records: map<string, Record>, readable: bool, maxAttempts: nat)
    ensures var was, now := After(calls, maxAttempts), After(calls + [Refresh(records, readable)], maxAttempts);
            now.Keys == if readable then records.Keys else was.Keys + records.Keys
  {
    CallSnoc(calls, Refresh(records, readable), maxAttempts);
    forall name | name in After(calls, maxAttempts)
      ensures After(calls, maxAttempts)[name].diskBacked
    {
      AllFromDisk(calls, name, maxAttempts);
    }
    hide After;
  }

  /** What a newly found extension is: about to start exactly when enabled and with
      a process, else disabled, and nothing has happened to it yet. */
  predicate FreshEntry(s: ExtensionState, record: Record) {
    && s.record == record
    && (s.status == Starting <==> record.enabled && !record.panelOnly)
    && (s.status == Disabled <==> !record.enabled || record.panelOnly)
    && s.client.None? && s.pid.None? && s.lastError.None? && s.restartAttempts == 0
  }

  /** A walk changes no known entry that stays, and adds fresh ones. */
  lemma RefreshEntries(calls: seq<Call>, records: map<string, Record>, readable: bool, name: string, maxAttempts: nat)
    requires name in After(calls + [Refresh(records, readable)], maxAttempts)
    ensures var was, now := After(calls, maxAttempts), After(calls + [Refresh(records, readable)], maxAttempts);
            if name in was then now[name] == was[name] else name in records && FreshEntry(now[name], records[name])
  {
    CallSnoc(calls, Refresh(records, readable), maxAttempts);
    hide After;
  }

  /** What a start does, for every reachable state of the extension; other
      extensions are left alone. */
  lemma StartOutcome(calls: seq<Call>, name: string, attempt: Attempt, maxAttempts: nat)
    requires name in After(calls, maxAttempts)
    ensures var was, now := After(calls, maxAttempts), After(calls + [Ensure(name, attempt)], maxAttempts);
            && now.Keys == was.Keys
            && (forall other :: other in was && other != name ==> now[other] == was[other])
            && var s, r := was[name], now[name];
               && r.record == s.record && r.diskBacked == s.diskBacked
               && (s.record.panelOnly || !s.record.enabled ==>
                     && r.status == Disabled && r.client == s.client && r.pid == s.pid
                     && r.restartAttempts == s.restartAttempts)
               && (!s.record.panelOnly && !s.record.enabled ==> r.lastError == s.lastError)
               && (s.record.panelOnly ==> r.lastError.None?)
               && (s.status == Running && s.record.enabled && !s.record.panelOnly ==> r == s)
               && (Attempts(s) ==>
                     match attempt
                     case BadDirectory(e) =>
                       r.status == Crashed && r.lastError == Some(e) && r.restartAttempts == s.restartAttempts
                     case ConnectFailed(e) =>
                       r.status in {Crashed, Broken} && r.lastError == Some(e) && r.restartAttempts >= s.restartAttempts
                     case Connected(c) =>
                       && r.status == Running && r.client == Some(c) && r.pid == c.pid
                       && r.lastError.None? && r.restartAttempts == 0)
  {
    CallSnoc(calls, Ensure(name, attempt), maxAttempts);
    ReachableOk(calls, name, maxAttempts);
    hide After;
  }

  /** What a stop does: the failure count and the last error stay. */
  lemma StopOutcome(calls: seq<Call>, name: string, maxAttempts: nat)
    requires name in After(calls, maxAttempts)
    ensures var was, now := After(calls, maxAttempts), After(calls + [Stop(name)], maxAttempts);
            && now.Keys == was.Keys
            && (forall other :: other in was && other != name ==> now[other] == was[other])
            && var s, r := was[name], now[name];
               && r.status == Disabled && r.client.None? && r.pid.None?
               && r.record == s.record && r.lastError == s.lastError && r.restartAttempts == s.restartAttempts
               && r.diskBacked == s.diskBacked
  {
    CallSnoc(calls, Stop(name), maxAttempts);
    hide After;
  }

  /** A walk drops an entry exactly when the directory could be read, the entry
      came from it, and it is no longer there. */
  lemma RefreshDrops(c: Catalog, records: map<string, Record>, readable: bool, name: string)
    requires name in c
    ensures name !in Refreshed(c, records, readable) <==> readable && c[name].diskBacked && name !in records
    ensures name in Refreshed(c, records, readable) ==> Refreshed(c, records, readable)[name] == c[name]
  {
  }

  /** With a limit the counter can hold, a failed connection breaks the extension
      exactly when it is the limit's or a later one in a row. */
  lemma BrokenAtLimit(calls: seq<Call>, name: string, e: string, maxAttempts: nat)
    requires maxAttempts <= U32_MAX
    requires name in After(calls, maxAttempts) && Attempts(After(calls, maxAttempts)[name])
    ensures var r := After(calls + [Ensure(name, ConnectFailed(e))], maxAttempts);
            && name in r && r[name].lastError == Some(e)
            && r[name].status == if FailedInRow(calls, name, maxAttempts) + 1 >= maxAttempts then Broken else Crashed
  {
    ReachableOk(calls, name, maxAttempts);
    assert (calls + [Ensure(name, ConnectFailed(e))])[..|calls|] == calls;
  }

  // ----- The host -----

  class Host {
    var extensions: Catalog
    const maxAttempts: nat
    ghost var calls: seq<Call>

    ghost predicate Valid()
      reads this
    {
      extensions == After(calls, maxAttempts)
    }

    constructor (maxAttempts: nat)
      ensures Valid() && calls == [] && this.maxAttempts == maxAttempts
    {
      this.maxAttempts := maxAttempts;
      extensions := map[];
      calls := [];
    }

    /** Bring one extension up when its record says so. */
    method EnsureStarted(name: string, attempt: Attempt) returns (ok: bool)
      requires Valid()
      modifies this
      ensures Valid() && calls == old(calls) + [Ensure(name, attempt)]
      ensures ok <==> name in extensions && extensions[name].status in {Disabled, Running}
    {
      assert (calls + [Ensure(name, attempt)])[..|calls|] == calls;
      calls := calls + [Ensure(name, attempt)];
      if name !in extensions {
        return false;
      }
      var s := extensions[name];
      if s.record.panelOnly {
        extensions := extensions[name := s.(status := Disabled, lastError := None)];
        return true;
      }
      if !s.record.enabled {
        extensions := extensions[name := s.(status := Disabled)];
        return true;
      }
      if s.client.Some? && s.status == Running {
        extensions := extensions[name := s];
        return true;
      }
      s := s.(status := Starting);
      match attempt {
        case BadDirectory(e) =>
          s := s.(status := Crashed, lastError := Some(e));
          ok := false;
        case Connected(c) =>
          s := s.(pid := c.pid, status := Running, lastError := None, restartAttempts := 0, client := Some(c));
          ok := true;
        case ConnectFailed(e) =>
          s := s.(status := Crashed, lastError := Some(e));
          s := s.(restartAttempts := if s.restartAttempts < U32_MAX then s.restartAttempts + 1 else s.restartAttempts);
          if s.restartAttempts >= maxAttempts {
            s := s.(status := Broken);
          }
          ok := false;
      }
      extensions := extensions[name := s];
    }

    /** Drop the client and mark the extension disabled; the failure count stays. */
    method StopOne(name: string) returns (ok: bool)
      requires Valid()
      modifies this
      ensures Valid() && calls == old(calls) + [Stop(name)]
      ensures ok <==> name in old(extensions)
      ensures ok ==> name in extensions && extensions[name].status == Disabled && extensions[name].client == None
    {
      assert (calls + [Stop(name)])[..|calls|] == calls;
      calls := calls + [Stop(name)];
      if name !in extensions {
        return false;
      }
      var s := extensions[name];
      s := s.(client := None);
      s := s.(status := Disabled, pid := None);
      extensions := extensions[name := s];
      ok := true;
    }

    /** Fold a directory walk in: known entries keep their state and their record,
        new ones are added, and entries gone from a readable directory are dropped. */
    method RefreshCatalog(records: map<string, Record>, readable: bool)
      requires Valid()
      modifies this
      ensures Valid() && calls == old(calls) + [Refresh(records, readable)]
      ensures extensions.Keys == if readable then records.Keys else old(extensions).Keys + records.Keys
      ensures forall name :: name in extensions ==>
                if name in old(extensions) then extensions[name] == old(extensions)[name]
                else name in records && FreshEntry(extensions[name], records[name])
    {
      hide FromRecord, Refreshed, After;
      var before := extensions;
      var todo := records.Keys;
      while todo != {}
        invariant todo <= records.Keys && calls == old(calls)
        invariant extensions.Keys == before.Keys + (records.Keys - todo)
        invariant forall name :: name in extensions ==>
                    extensions[name] == if name in before then before[name] else FromRecord(records[name])
        decreases todo
      {
        var name :| name in todo;
        todo := todo - {name};
        if name !in extensions {
          extensions := extensions[name := FromRecord(records[name])];
        }
      }
      RefreshedIs(before, extensions, records, readable);
      if readable {
        var stale := set name | name in extensions && name !in records && extensions[name].diskBacked;
        assert stale == Stale(extensions, records);
        extensions := extensions - stale;
      }
      CallSnoc(calls, Refresh(records, readable), maxAttempts);
      CatalogFollowsDisk(calls, records, readable, maxAttempts);
      forall name | name in extensions
        ensures if name in before then extensions[name] == before[name]
                else name in records && FreshEntry(extensions[name], records[name])
      {
        RefreshEntries(calls, records, readable, name, maxAttempts);
      }
      calls := calls + [Refresh(records, readable)];
    }

    /** Stop, then start again when the record says so. */
    method Restart(name: string, attempt: Attempt) returns (status: Option<LifecycleStatus>)
      requires Valid()
      modifies this
      ensures Valid()
      ensures calls == old(calls) + [Stop(name)] + if name in old(extensions) then [Ensure(name, attempt)] else []
      ensures status.None? <==> name !in old(extensions)
      ensures status.Some? ==> name in extensions && extensions[name].status == status.value
      ensures status == Some(Running) <==>
                name in old(extensions) && attempt.Connected?
                && old(extensions[name]).record.enabled && !old(extensions[name]).record.panelOnly
    {
      var stopped := StopOne(name);
      if !stopped {
        return None;
      }
      var _ := EnsureStarted(name, attempt);
      status := Some(extensions[name].status);
    }

    /** The switch: the new flag reaches the directory walk, but a known entry
        keeps its stored record, so switching on an extension stored as disabled
        leaves it disabled. */
    method SetEnabled(name: string, enabled: bool, records: map<string, Record>, readable: bool, attempt: Attempt)
      returns (status: Option<LifecycleStatus>)
      requires Valid()
      requires name in records ==> records[name].enabled == enabled
      modifies this
      ensures Valid()
      ensures calls == old(calls) + if name !in old(extensions) then []
                                    else
                                      [Refresh(records, readable),
                                       if enabled then Ensure(name, attempt) else Stop(name)]
      ensures status.Some? <==>
                name in old(extensions) && (name in records || !readable || !old(extensions[name]).diskBacked)
      ensures status.Some? ==> name in extensions && extensions[name].status == status.value
      ensures status == Some(Running) <==>
                && name in old(extensions)
                && (name in records || !readable || !old(extensions[name]).diskBacked)
                && enabled && old(extensions[name]).record.enabled && !old(extensions[name]).record.panelOnly
                && (attempt.Connected?
                    || (old(extensions[name]).client.Some? && old(extensions[name]).status == Running))
    {
      if name !in extensions {
        return None;
      }
      RefreshCatalog(records, readable);
      if enabled {
        var _ := EnsureStarted(name, attempt);
      } else {
        var _ := StopOne(name);
      }
      status := if name in extensions then Some(extensions[name].status) else None;
    }
  }
}
