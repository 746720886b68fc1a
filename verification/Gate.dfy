/** The device gate as the steps its locks make atomic. A public operation that
    takes the store lock several times is several steps, so any order of steps
    of several threads is a run of this machine. */
module Gate {
  import opened Wrappers
  import opened Devices

  const PAIRING_TTL := 300.0
  const CODE_LENGTH := 6

  /** The pairing window; an empty code means closed. */
  datatype Pairing = Pairing(code: string, expiresAt: real, startedAt: real)

  const CLOSED := Pairing("", 0.0, 0.0)

  predicate Active(p: Pairing, now: real) {
    p.code != "" && now < p.expiresAt
  }

  function Opened(code: string, now: real): Pairing {
    Pairing(code, now + PAIRING_TTL, now)
  }

  /** A status read collapses an expired window. */
  function Settled(p: Pairing, now: real): Pairing {
    if p.code != "" && !Active(p, now) then CLOSED else p
  }

  datatype PairingOutcome = PairingInactive | CodeMismatch | CredentialMismatch | DuplicateDevice | Paired

  /** What completing a pairing comes to, in the order the checks are made. */
  function Outcome(p: Pairing, devices: seq<Device>, code: string, credentialsOk: bool, now: real, id: string)
    : PairingOutcome
  {
    if !Active(p, now) then PairingInactive
    else if code != p.code then CodeMismatch
    else if !credentialsOk then CredentialMismatch
    else if IndexOf(devices, id).Some? then DuplicateDevice
    else Paired
  }

  /** A device as pairing creates it. */
  function NewDevice(id: string, name: string, token: string, now: real, metadata: map<string, string>): Device {
    Device(id, name, token, TIER_READ_ONLY, now, now, metadata)
  }

  const TIER_CHANGED := "tier_changed"
  const ROTATED := "token_rotated"
  const REVOKED := "revoked"

  datatype Event = Event(kind: string, deviceId: string, at: real, payload: string)

  /** The events waiting for a device. */
  function PendingFor(pending: map<string, seq<Event>>, id: string): seq<Event> {
    if id in pending then pending[id] else []
  }

  function Enqueued(pending: map<string, seq<Event>>, e: Event): map<string, seq<Event>> {
    pending[e.deviceId := PendingFor(pending, e.deviceId) + [e]]
  }

  function WithTier(tier: string): Device -> Device {
    (d: Device) => d.(tier := tier)
  }

  function WithToken(token: string): Device -> Device {
    (d: Device) => d.(token := token)
  }

  // ----- Threads and steps -----

  /** Where a thread is between two lock regions of one operation. */
  datatype Pc =
    | Idle
    | VerifyFound(device: Device)
    | RotateChecked(id: string)
    | RevokeChecked(id: string)
    | ToSend(id: string, kind: string, payload: string)

  datatype State = State(
    pairing: Pairing,
    devices: seq<Device>,
    pending: map<string, seq<Event>>,
    threads: map<nat, Pc>)

  const INITIAL := State(CLOSED, [], map[], map[])

  datatype Action =
    | StartPairing(code: string, now: real)
    | CancelPairing
    | PairingStatus(now: real)
    | CompletePairing(code: string, credentialsOk: bool, now: real,
                      id: string, name: string, token: string, metadata: map<string, string>)
    | VerifyFind(thread: nat, token: string)
    | VerifyTouch(thread: nat, now: real)
    | TierUpdate(thread: nat, id: string, tier: string)
    | RotateCheck(thread: nat, id: string)
    | RotateWrite(thread: nat, token: string)
    | RevokeCheck(thread: nat, id: string)
    | RevokeRemove(thread: nat)
    | SendEvent(thread: nat, now: real)
    | Consume(id: string)

  function PcOf(s: State, thread: nat): Pc {
    if thread in s.threads then s.threads[thread] else Idle
  }

  function At(s: State, thread: nat, pc: Pc): State {
    s.(threads := s.threads[thread := pc])
  }

  /** A thread starts an operation when idle and continues the one it is in. */
  predicate Enabled(s: State, a: Action) {
    match a
    case StartPairing(code, _) => |code| == CODE_LENGTH
    case VerifyFind(t, _) => PcOf(s, t).Idle?
    case VerifyTouch(t, _) => PcOf(s, t).VerifyFound?
    case TierUpdate(t, _, _) => PcOf(s, t).Idle?
    case RotateCheck(t, _) => PcOf(s, t).Idle?
    case RotateWrite(t, _) => PcOf(s, t).RotateChecked?
    case RevokeCheck(t, _) => PcOf(s, t).Idle?
    case RevokeRemove(t) => PcOf(s, t).RevokeChecked?
    case SendEvent(t, _) => PcOf(s, t).ToSend?
    case _ => true
  }

  function Next(s: State, a: Action): State
    requires Enabled(s, a)
  {
    match a
    case StartPairing(code, now) => s.(pairing := Opened(code, now))
    case CancelPairing => s.(pairing := CLOSED)
    case PairingStatus(now) => s.(pairing := Settled(s.pairing, now))
    case CompletePairing(code, ok, now, id, name, token, metadata) =>
      if Outcome(s.pairing, s.devices, code, ok, now, id).Paired? then
        s.(devices := s.devices + [NewDevice(id, name, token, now, metadata)], pairing := CLOSED)
      else s
    case VerifyFind(t, token) =>
      var found := FoundByToken(s.devices, token);
      if found.Some? then At(s, t, VerifyFound(found.value)) else s
    case VerifyTouch(t, now) =>
      At(s.(devices := Touched(s.devices, PcOf(s, t).device.deviceId, now)), t, Idle)
    case TierUpdate(t, id, tier) =>
      if IsValidTier(tier) && IndexOf(s.devices, id).Some? then
        At(s.(devices := Updated(s.devices, id, WithTier(tier))), t, ToSend(id, TIER_CHANGED, tier))
      else s
    case RotateCheck(t, id) =>
      if IndexOf(s.devices, id).Some? then At(s, t, RotateChecked(id)) else s
    case RotateWrite(t, token) =>
      var id := PcOf(s, t).id;
      if IndexOf(s.devices, id).Some? then
        At(s.(devices := Updated(s.devices, id, WithToken(token))), t, ToSend(id, ROTATED, token))
      else At(s, t, Idle)
    case RevokeCheck(t, id) =>
      if IndexOf(s.devices, id).Some? then At(s, t, RevokeChecked(id)) else s
    case RevokeRemove(t) =>
      var id := PcOf(s, t).id;
      if IndexOf(s.devices, id).Some? then
        At(s.(devices := Removed(s.devices, id)), t, ToSend(id, REVOKED, ""))
      else At(s, t, Idle)
    case SendEvent(t, now) =>
      var pc := PcOf(s, t);
      At(s.(pending := Enqueued(s.pending, Event(pc.kind, pc.id, now, pc.payload))), t, Idle)
    case Consume(id) => s.(pending := s.pending - {id})
  }

  // ----- Runs -----

  /** Every step of the run is enabled where it is taken. */
  predicate IsRun(run: seq<Action>)
    decreases |run|, 0
  {
    run == [] || (IsRun(run[..|run| - 1]) && Enabled(After(run[..|run| - 1]), run[|run| - 1]))
  }

  function After(run: seq<Action>): State
    requires IsRun(run)
    decreases |run|, 1
  {
    if run == [] then INITIAL else Next(After(run[..|run| - 1]), run[|run| - 1])
  }

  lemma {:induction false} PrefixIsRun(run: seq<Action>, n: nat)
    requires IsRun(run) && n <= |run|
    ensures IsRun(run[..n])
    decreases |run|
  {
    if n == |run| {
      assert run[..n] == run;
    } else {
      PrefixIsRun(run[..|run| - 1], n);
      assert run[..|run| - 1][..n] == run[..n];
    }
  }

  /** The state before step `n`, and at the end of the run for `n == |run|`. */
  function Before(run: seq<Action>, n: nat): State
    requires IsRun(run) && n <= |run|
  {
    PrefixIsRun(run, n);
    After(run[..n])
  }

  lemma StepOf(run: seq<Action>, n: nat)
    requires IsRun(run) && n < |run|
    ensures Enabled(Before(run, n), run[n])
    ensures Before(run, n + 1) == Next(Before(run, n), run[n])
  {
    hide Next, Enabled;
    PrefixIsRun(run, n + 1);
    assert run[..n + 1][..n] == run[..n];
  }

  lemma BeforeEnd(run: seq<Action>)
    requires IsRun(run)
    ensures Before(run, |run|) == After(run)
  {
    hide IsRun, Next, Enabled;
    assert run[..|run|] == run;
  }

  lemma RunSnoc(run: seq<Action>, a: Action)
    requires IsRun(run) && Enabled(After(run), a)
    ensures IsRun(run + [a]) && After(run + [a]) == Next(After(run), a)
  {
    assert (run + [a])[..|run|] == run;
  }

  // ----- What a step does to tokens -----

  function TokenOf(devices: seq<Device>, id: string): Option<string> {
    match IndexOf(devices, id)
    case None => None
    case Some(i) => Some(devices[i].token)
  }

  /** The token a step writes, and for which device. */
  function Writes(s: State, a: Action): Option<(string, string)>
    requires Enabled(s, a)
  {
    match a
    case CompletePairing(code, ok, now, id, _, token, _) =>
      if Outcome(s.pairing, s.devices, code, ok, now, id).Paired? then Some((id, token)) else None
    case RotateWrite(t, token) =>
      if IndexOf(s.devices, PcOf(s, t).id).Some? then Some((PcOf(s, t).id, token)) else None
    case _ => None
  }

  /** The device a step removes. */
  function Drops(s: State, a: Action): Option<string>
    requires Enabled(s, a)
  {
    match a
    case RevokeRemove(t) => if IndexOf(s.devices, PcOf(s, t).id).Some? then Some(PcOf(s, t).id) else None
    case _ => None
  }

  lemma IndexAt(devices: seq<Device>, i: nat)
    requires UniqueDevices(devices) && i < |devices|
    ensures IndexOf(devices, devices[i].deviceId) == Some(i)
  {
  }

  lemma TokenOfHas(devices: seq<Device>, id: string)
    requires UniqueDevices(devices)
    ensures forall d :: d in devices && d.deviceId == id ==> TokenOf(devices, id) == Some(d.token)
    ensures TokenOf(devices, id).Some? ==> exists d :: d in devices && d.deviceId == id
    ensures TokenOf(devices, id).None? <==> IndexOf(devices, id).None?
  {
    forall d | d in devices && d.deviceId == id
      ensures TokenOf(devices, id) == Some(d.token)
    {
      var i :| 0 <= i < |devices| && devices[i] == d;
      IndexAt(devices, i);
    }
  }

  /** An update that keeps ids changes the token of its own device only. */
  lemma UpdatedToken(devices: seq<Device>, id: string, f: Device -> Device, other: string)
    requires UniqueDevices(devices) && forall d :: f(d).deviceId == d.deviceId
    ensures var r := Updated(devices, id, f);
            && UniqueDevices(r) && |r| == |devices|
            && (IndexOf(r, other).Some? <==> IndexOf(devices, other).Some?)
            && (other != id ==> TokenOf(r, other) == TokenOf(devices, other))
            && (IndexOf(devices, id).Some? ==> TokenOf(r, id) == Some(f(devices[IndexOf(devices, id).value]).token))
  {
    var r := Updated(devices, id, f);
    assert forall i :: 0 <= i < |r| ==> r[i].deviceId == devices[i].deviceId;
    SameIndex(devices, r, other);
    SameIndex(devices, r, id);
    hide UniqueDevices;
  }

  lemma {:induction false} SameIndex(devices: seq<Device>, r: seq<Device>, id: string)
    requires |r| == |devices| && forall i :: 0 <= i < |r| ==> r[i].deviceId == devices[i].deviceId
    ensures IndexOf(r, id) == IndexOf(devices, id)
  {
    if devices != [] {
      SameIndex(devices[1..], r[1..], id);
    }
  }

  lemma AppendedToken(devices: seq<Device>, d: Device, id: string)
    requires UniqueDevices(devices) && IndexOf(devices, d.deviceId).None?
    ensures UniqueDevices(devices + [d])
    ensures TokenOf(devices + [d], id) == if id == d.deviceId then Some(d.token) else TokenOf(devices, id)
  {
    var r := devices + [d];
    hide IndexOf;
    TokenOfHas(devices, id);
    TokenOfHas(r, id);
    assert forall x :: x in r <==> x in devices || x == d;
    hide TokenOf, UniqueDevices;
  }

  lemma RemovedToken(devices: seq<Device>, id: string, other: string)
    requires UniqueDevices(devices)
    ensures UniqueDevices(Removed(devices, id))
    ensures TokenOf(Removed(devices, id), other) == if other == id then None else TokenOf(devices, other)
  {
    var r := Removed(devices, id);
    RemovedUnique(devices, id);
    TokenOfHas(devices, other);
    TokenOfHas(r, other);
    forall d
      ensures d in r <==> d in devices && d.deviceId != id
    {
      RemovedHas(devices, id, d);
    }
    hide IndexOf, Removed, UniqueDevices, TokenOf;
  }

  lemma TouchedToken(devices: seq<Device>, id: string, when: real, other: string)
    requires UniqueDevices(devices)
    ensures UniqueDevices(Touched(devices, id, when))
    ensures TokenOf(Touched(devices, id, when), other) == TokenOf(devices, other)
  {
    UpdatedToken(devices, id, (d: Device) => d.(lastSeen := when), other);
    hide IndexOf, UniqueDevices;
  }

  /** The store refines a map from ids to tokens: a step writes one token, drops
      one device, or changes no token at all. */
  lemma StepTokens(s: State, a: Action, id: string)
    requires Enabled(s, a) && UniqueDevices(s.devices)
    ensures UniqueDevices(Next(s, a).devices)
    ensures TokenOf(Next(s, a).devices, id) ==
              if Writes(s, a).Some? && Writes(s, a).value.0 == id then Some(Writes(s, a).value.1)
              else if Drops(s, a) == Some(id) then None
              else TokenOf(s.devices, id)
  {
    hide IndexOf, Removed, UniqueDevices, Updated, Touched, FoundByToken;
    match a
    case CompletePairing(code, ok, now, id', name, token, metadata) =>
      if Outcome(s.pairing, s.devices, code, ok, now, id').Paired? {
        AppendedToken(s.devices, NewDevice(id', name, token, now, metadata), id);
      }
    case VerifyTouch(t, now) => TouchedToken(s.devices, PcOf(s, t).device.deviceId, now, id);
    case TierUpdate(t, id', tier) => UpdatedToken(s.devices, id', WithTier(tier), id);
    case RotateWrite(t, token) => UpdatedToken(s.devices, PcOf(s, t).id, WithToken(token), id);
    case RevokeRemove(t) => RemovedToken(s.devices, PcOf(s, t).id, id);
    case _ =>
  }

  // ----- What a step does to a device's record -----

  function RecordOf(devices: seq<Device>, id: string): Option<Device> {
    match IndexOf(devices, id)
    case None => None
    case Some(i) => Some(devices[i])
  }

  lemma RecordOfHas(devices: seq<Device>, d: Device)
    requires UniqueDevices(devices) && d in devices
    ensures RecordOf(devices, d.deviceId) == Some(d)
  {
    var i :| 0 <= i < |devices| && devices[i] == d;
    IndexAt(devices, i);
  }

  lemma UpdatedRecord(devices: seq<Device>, id: string, f: Device -> Device, other: string)
    requires UniqueDevices(devices) && forall d :: f(d).deviceId == d.deviceId
    ensures var was := RecordOf(devices, other);
            RecordOf(Updated(devices, id, f), other) == if other == id && was.Some? then Some(f(was.value)) else was
  {
    var r := Updated(devices, id, f);
    assert forall i :: 0 <= i < |r| ==> r[i].deviceId == devices[i].deviceId;
    SameIndex(devices, r, other);
    hide UniqueDevices;
  }

  lemma AppendedRecord(devices: seq<Device>, d: Device, id: string)
    requires UniqueDevices(devices) && IndexOf(devices, d.deviceId).None?
    ensures RecordOf(devices + [d], id) == if id == d.deviceId then Some(d) else RecordOf(devices, id)
  {
    var r := devices + [d];
    AppendedToken(devices, d, id);
    hide UniqueDevices, IndexOf;
    assert d in r && forall x :: x in devices ==> x in r;
    RecordOfHas(r, d);
    if IndexOf(devices, id).Some? {
      RecordOfHas(r, devices[IndexOf(devices, id).value]);
    }
  }

  lemma RemovedRecord(devices: seq<Device>, id: string, other: string)
    requires UniqueDevices(devices)
    ensures RecordOf(Removed(devices, id), other) == if other == id then None else RecordOf(devices, other)
  {
    var r := Removed(devices, id);
    RemovedUnique(devices, id);
    hide UniqueDevices, IndexOf, Removed;
    if IndexOf(r, other).Some? {
      RemovedHas(devices, id, r[IndexOf(r, other).value]);
      RecordOfHas(devices, r[IndexOf(r, other).value]);
    } else if other != id && IndexOf(devices, other).Some? {
      RemovedHas(devices, id, devices[IndexOf(devices, other).value]);
    }
  }

  /** The store refines a map from ids to records: which field of which record
      each step sets, and that nothing else of any record changes. */
  lemma StepDevice(s: State, a: Action, id: string)
    requires Enabled(s, a) && UniqueDevices(s.devices)
    ensures var was := RecordOf(s.devices, id);
            RecordOf(Next(s, a).devices, id) ==
              match a
              case CompletePairing(code, ok, now, id', name, token, metadata) =>
                if id' == id && Outcome(s.pairing, s.devices, code, ok, now, id').Paired? then
                  Some(Device(id, name, token, TIER_READ_ONLY, now, now, metadata))
                else was
              case VerifyTouch(t, now) =>
                if PcOf(s, t).device.deviceId == id && was.Some? then Some(was.value.(lastSeen := now)) else was
              case TierUpdate(_, id', tier) =>
                if id' == id && was.Some? && IsValidTier(tier) then Some(was.value.(tier := tier)) else was
              case RotateWrite(t, token) =>
                if PcOf(s, t).id == id && was.Some? then Some(was.value.(token := token)) else was
              case RevokeRemove(t) => if PcOf(s, t).id == id then None else was
              case _ => was
  {
    hide IndexOf, Removed, UniqueDevices, Updated, FoundByToken, IsValidTier;
    match a
    case CompletePairing(code, ok, now, id', name, token, metadata) =>
      if Outcome(s.pairing, s.devices, code, ok, now, id').Paired? {
        AppendedRecord(s.devices, NewDevice(id', name, token, now, metadata), id);
      }
    case VerifyTouch(t, now) =>
      UpdatedRecord(s.devices, PcOf(s, t).device.deviceId, (d: Device) => d.(lastSeen := now), id);
    case TierUpdate(t, id', tier) => UpdatedRecord(s.devices, id', WithTier(tier), id);
    case RotateWrite(t, token) => UpdatedRecord(s.devices, PcOf(s, t).id, WithToken(token), id);
    case RevokeRemove(t) => RemovedRecord(s.devices, PcOf(s, t).id, id);
    case _ =>
  }

  // ----- No operation gets stuck -----

  /** The step that takes a thread on with its operation. */
  function Onward(s: State, t: nat, token: string, now: real): Action
    requires !PcOf(s, t).Idle?
  {
    match PcOf(s, t)
    case VerifyFound(_) => VerifyTouch(t, now)
    case RotateChecked(_) => RotateWrite(t, token)
    case RevokeChecked(_) => RevokeRemove(t)
    case ToSend(_, _, _) => SendEvent(t, now)
  }

  /** From any state, whatever the others did in between, a thread is done after at
      most two steps of its own. */
  lemma ThreadFinishes(s: State, t: nat, token: string, now: real)
    requires !PcOf(s, t).Idle?
    ensures var a := Onward(s, t, token, now);
            && Enabled(s, a)
            && var r := Next(s, a);
               PcOf(r, t).Idle? || (PcOf(r, t).ToSend? && PcOf(Next(r, SendEvent(t, now)), t).Idle?)
  {
    hide IndexOf, Removed, Updated, Touched, FoundByToken, Enqueued;
  }
}
