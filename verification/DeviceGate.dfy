/** The device gate service: the public operations, run one at a time. Clock
    readings and freshly minted codes, ids and tokens are arguments. */
module DeviceGate {
  import opened Wrappers
  import opened Devices
  import opened Gate
  import opened GateLaws

  datatype GateError = InvalidToken | BadRequest | NotFound | PairingFailed(outcome: PairingOutcome)

  datatype Result<+T> = Ok(value: T) | Err(error: GateError)

  /** What a verified token stands for. */
  datatype Verified = Verified(deviceId: string, tier: string)

  // ----- The operations as steps of the machine -----

  /** The steps from `s`, while each is enabled. */
  function Steps(s: State, actions: seq<Action>): Option<State>
    decreases |actions|
  {
    if actions == [] then Some(s)
    else if Enabled(s, actions[0]) then Steps(Next(s, actions[0]), actions[1..])
    else None
  }

  lemma OneStep(s: State, a: Action)
    requires Enabled(s, a)
    ensures Steps(s, [a]) == Some(Next(s, a))
  {
    hide Next, Enabled;
    assert [a][1..] == [];
    assert Steps(Next(s, a), []) == Some(Next(s, a));
  }

  lemma TwoSteps(s: State, a: Action, b: Action)
    requires Enabled(s, a) && Enabled(Next(s, a), b)
    ensures Steps(s, [a, b]) == Some(Next(Next(s, a), b))
  {
    hide Next, Enabled;
    assert [a, b][1..] == [b];
    OneStep(Next(s, a), b);
  }

  lemma ThreeSteps(s: State, a: Action, b: Action, c: Action)
    requires Enabled(s, a) && Enabled(Next(s, a), b) && Enabled(Next(Next(s, a), b), c)
    ensures Steps(s, [a, b, c]) == Some(Next(Next(Next(s, a), b), c))
  {
    hide Next, Enabled;
    assert [a, b, c][1..] == [b, c];
    TwoSteps(Next(s, a), b, c);
  }

  /** Enabled steps extend a run. */
  lemma {:induction false} RunSteps(run: seq<Action>, actions: seq<Action>)
    requires IsRun(run) && Steps(After(run), actions).Some?
    ensures IsRun(run + actions) && Some(After(run + actions)) == Steps(After(run), actions)
    decreases |actions|
  {
    hide Next, Enabled, IsRun, After;
    if actions == [] {
      assert run + actions == run;
    } else {
      RunSnoc(run, actions[0]);
      RunSteps(run + [actions[0]], actions[1..]);
      assert (run + [actions[0]]) + actions[1..] == run + actions;
    }
  }

  function RotationSteps(s: State, t: nat, id: string, token: string, now: real): seq<Action> {
    if IndexOf(s.devices, id).None? then [RotateCheck(t, id)]
    else [RotateCheck(t, id), RotateWrite(t, token), SendEvent(t, now)]
  }

  /** What the rotation leaves behind is what its lock regions do one after the
      other on an idle thread. */
  lemma RotationIsSteps(s: State, t: nat, id: string, token: string, now: real)
    requires PcOf(s, t).Idle?
    ensures var r := Steps(s, RotationSteps(s, t, id, token, now));
            && r.Some? && PcOf(r.value, t).Idle? && r.value.pairing == s.pairing
            && if IndexOf(s.devices, id).None? then r.value.devices == s.devices && r.value.pending == s.pending
               else
                 && r.value.devices == Updated(s.devices, id, WithToken(token))
                 && r.value.pending == Enqueued(s.pending, Event(ROTATED, id, now, token))
  {
    hide Steps, IndexOf, Updated, Enqueued;
    if IndexOf(s.devices, id).None? {
      OneStep(s, RotateCheck(t, id));
    } else {
      ThreeSteps(s, RotateCheck(t, id), RotateWrite(t, token), SendEvent(t, now));
    }
  }

  function RevocationSteps(s: State, t: nat, id: string, now: real): seq<Action> {
    if IndexOf(s.devices, id).None? then [RevokeCheck(t, id)]
    else [RevokeCheck(t, id), RevokeRemove(t), SendEvent(t, now)]
  }

  /** Likewise for the revocation. */
  lemma RevocationIsSteps(s: State, t: nat, id: string, now: real)
    requires PcOf(s, t).Idle?
    ensures var r := Steps(s, RevocationSteps(s, t, id, now));
            && r.Some? && PcOf(r.value, t).Idle? && r.value.pairing == s.pairing
            && if IndexOf(s.devices, id).None? then r.value.devices == s.devices && r.value.pending == s.pending
               else
                 && r.value.devices == Removed(s.devices, id)
                 && r.value.pending == Enqueued(s.pending, Event(REVOKED, id, now, ""))
  {
    hide Steps, IndexOf, Removed, Enqueued;
    if IndexOf(s.devices, id).None? {
      OneStep(s, RevokeCheck(t, id));
    } else {
      ThreeSteps(s, RevokeCheck(t, id), RevokeRemove(t), SendEvent(t, now));
    }
  }

  function TierSteps(s: State, t: nat, id: string, tier: string, now: real): seq<Action> {
    if !IsValidTier(tier) || IndexOf(s.devices, id).None? then [TierUpdate(t, id, tier)]
    else [TierUpdate(t, id, tier), SendEvent(t, now)]
  }

  /** Likewise for the tier change. */
  lemma TierChangeIsSteps(s: State, t: nat, id: string, tier: string, now: real)
    requires PcOf(s, t).Idle?
    ensures var r := Steps(s, TierSteps(s, t, id, tier, now));
            && r.Some? && PcOf(r.value, t).Idle? && r.value.pairing == s.pairing
            && if !IsValidTier(tier) || IndexOf(s.devices, id).None? then
                 r.value.devices == s.devices && r.value.pending == s.pending
               else
                 && r.value.devices == Updated(s.devices, id, WithTier(tier))
                 && r.value.pending == Enqueued(s.pending, Event(TIER_CHANGED, id, now, tier))
  {
    hide Steps, IndexOf, Updated, Enqueued, IsValidTier;
    if !IsValidTier(tier) || IndexOf(s.devices, id).None? {
      OneStep(s, TierUpdate(t, id, tier));
    } else {
      TwoSteps(s, TierUpdate(t, id, tier), SendEvent(t, now));
    }
  }

  function VerificationSteps(s: State, t: nat, token: string, now: real): seq<Action> {
    if FoundByToken(s.devices, token).None? then [VerifyFind(t, token)]
    else [VerifyFind(t, token), VerifyTouch(t, now)]
  }

  /** Likewise for a verification. */
  lemma VerificationIsSteps(s: State, t: nat, token: string, now: real)
    requires PcOf(s, t).Idle?
    ensures var r, found := Steps(s, VerificationSteps(s, t, token, now)), FoundByToken(s.devices, token);
            && r.Some? && PcOf(r.value, t).Idle? && r.value.pairing == s.pairing && r.value.pending == s.pending
            && r.value.devices == if found.None? then s.devices else Touched(s.devices, found.value.deviceId, now)
  {
    hide Steps, FoundByToken, Touched;
    if FoundByToken(s.devices, token).None? {
      OneStep(s, VerifyFind(t, token));
    } else {
      TwoSteps(s, VerifyFind(t, token), VerifyTouch(t, now));
    }
  }

  /** The steps that touch the pairing window and the queue only on their own. */
  lemma AloneIsStep(s: State, a: Action)
    requires a.CompletePairing? || a.CancelPairing? || a.PairingStatus? || a.Consume?
        || (a.StartPairing? && |a.code| == CODE_LENGTH)
    ensures Enabled(s, a) && Steps(s, [a]) == Some(Next(s, a)) && Next(s, a).threads == s.threads
  {
    hide Steps, Outcome;
    OneStep(s, a);
  }

  // ----- The service -----

  class DeviceGateService {
    const store: DeviceStore
    const actionLog: ActionLog
    var pairing: Pairing
    var pending: map<string, seq<Event>>
    ghost var run: seq<Action>

    /** The fields are the state a run of the machine leads to, between two
        operations of the one thread that calls. */
    ghost predicate Valid()
      reads this, store, actionLog
    {
      && actionLog.Valid()
      && IsRun(run)
      && After(run) == State(pairing, store.devices, pending, After(run).threads)
      && PcOf(After(run), 0).Idle?
    }

    constructor ()
      ensures Valid() && fresh(store) && fresh(actionLog)
      ensures pairing == CLOSED && pending == map[] && store.devices == [] && actionLog.history == [] && run == []
    {
      store := new DeviceStore();
      actionLog := new ActionLog();
      pairing := CLOSED;
      pending := map[];
      run := [];
    }

    /** The run goes on by one operation. */
    twostate predicate Took(actions: seq<Action>)
      reads this
    {
      run == old(run) + actions
    }

    // ----- Pairing -----

    /** The window opened: its code, good for 300 seconds. */
    method StartPairing(now: real, code: string) returns (shown: (string, real))
      requires Valid() && |code| == CODE_LENGTH
      modifies `pairing, `run
      ensures Valid() && Took([Gate.StartPairing(code, now)])
      ensures pairing == Opened(code, now)
      ensures shown == (pairing.code, pairing.expiresAt) && pairing.code == code && pairing.expiresAt - now == 300.0
    {
      AloneIsStep(After(run), Gate.StartPairing(code, now));
      RunSteps(run, [Gate.StartPairing(code, now)]);
      run := run + [Gate.StartPairing(code, now)];
      pairing := Pairing(code, now + PAIRING_TTL, now);
      shown := (pairing.code, pairing.expiresAt);
    }

    method CancelPairing(now: real) returns (cancelled: bool)
      requires Valid()
      modifies `pairing, `run
      ensures Valid() && Took([Gate.CancelPairing])
      ensures pairing == CLOSED && cancelled == Active(old(pairing), now)
    {
      AloneIsStep(After(run), Gate.CancelPairing);
      RunSteps(run, [Gate.CancelPairing]);
      run := run + [Gate.CancelPairing];
      cancelled := Active(pairing, now);
      pairing := CLOSED;
    }

    /** The open window's code and end, if any; an expired one is closed on the way. */
    method GetPairingStatus(now: real) returns (shown: Option<(string, real)>)
      requires Valid()
      modifies `pairing, `run
      ensures Valid() && Took([PairingStatus(now)])
      ensures pairing == Settled(old(pairing), now)
      ensures shown == if old(pairing).code != "" && now < old(pairing).expiresAt then
                         Some((old(pairing).code, old(pairing).expiresAt))
                       else None
      ensures if shown.Some? then pairing == old(pairing) else pairing.code == ""
    {
      AloneIsStep(After(run), PairingStatus(now));
      RunSteps(run, [PairingStatus(now)]);
      run := run + [PairingStatus(now)];
      if pairing.code != "" && !Active(pairing, now) {
        pairing := CLOSED;
      }
      shown := if Active(pairing, now) then Some((pairing.code, pairing.expiresAt)) else None;
    }

    /** A success adds one read-only device and closes the window; a failure
        changes nothing. */
    method CompletePairing(code: string, credentialsOk: bool, now: real, stamp: string,
                           id: string, name: string, token: string, metadata: map<string, string>)
      returns (r: Result<Device>)
      requires Valid()
      modifies `pairing, `run, store, actionLog
      ensures Valid() && Took([Gate.CompletePairing(code, credentialsOk, now, id, name, token, metadata)])
      ensures var outcome := Outcome(old(pairing), old(store.devices), code, credentialsOk, now, id);
              var device := NewDevice(id, name, token, now, metadata);
              if outcome.Paired? then
                && r == Ok(device)
                && pairing == CLOSED && store.devices == old(store.devices) + [device]
                && actionLog.history == old(actionLog.history) + [(id, ActionEntry("paired", stamp, "ok"))]
              else
                && r == Err(PairingFailed(outcome))
                && pairing == old(pairing) && store.devices == old(store.devices)
                && actionLog.history == old(actionLog.history)
      ensures var shut := old(pairing).code == "" || old(pairing).expiresAt <= now;
              var wrong := old(pairing).code != code;
              var taken := exists d :: d in old(store.devices) && d.deviceId == id;
              && (r == Err(PairingFailed(PairingInactive)) <==> shut)
              && (r == Err(PairingFailed(CodeMismatch)) <==> !shut && wrong)
              && (r == Err(PairingFailed(CredentialMismatch)) <==> !shut && !wrong && !credentialsOk)
              && (r == Err(PairingFailed(DuplicateDevice)) <==> !shut && !wrong && credentialsOk && taken)
              && (r.Ok? <==> !shut && !wrong && credentialsOk && !taken)
    {
      hide IsRun, After, Steps, IndexOf, ForDevice, LastOf;
      ghost var step := Gate.CompletePairing(code, credentialsOk, now, id, name, token, metadata);
      AloneIsStep(After(run), step);
      RunSteps(run, [step]);
      run := run + [step];
      if !Active(pairing, now) {
        return Err(PairingFailed(PairingInactive));
      }
      if code != pairing.code {
        return Err(PairingFailed(CodeMismatch));
      }
      if !credentialsOk {
        return Err(PairingFailed(CredentialMismatch));
      }
      var device := Device(id, name, token, TIER_READ_ONLY, now, now, metadata);
      var added := store.Add(device);
      if !added {
        return Err(PairingFailed(DuplicateDevice));
      }
      pairing := CLOSED;
      var _ := actionLog.RecordAt(id, "paired", "ok", stamp);
      r := Ok(device);
    }

    // ----- Tokens and tiers -----

    /** The first device with the token, whose last-seen time is moved. */
    method Verify(token: string, now: real) returns (r: Result<Verified>)
      requires Valid()
      modifies `run, store
      ensures Valid() && Took(VerificationSteps(old(After(run)), 0, token, now))
      ensures r.Ok? <==> token != "" && exists i, id :: LastWritten(old(run), |old(run)|, i, id, token)
      ensures r.Ok? ==>
                && (exists i :: LastWritten(old(run), |old(run)|, i, r.value.deviceId, token))
                && (exists i :: LastTiered(old(run), |old(run)|, i, r.value.deviceId, r.value.tier))
      ensures var found := FoundByToken(old(store.devices), token);
              if found.None? then r == Err(InvalidToken) && store.devices == old(store.devices)
              else
                && r == Ok(Verified(found.value.deviceId, found.value.tier))
                && store.devices == Touched(old(store.devices), found.value.deviceId, now)
    {
      hide IsRun, After, Before, LastWritten, LastTiered, Steps, ForDevice, LastOf, VerificationSteps;
      ghost var steps := VerificationSteps(After(run), 0, token, now);
      VerifiesIffCurrent(run, |run|, token);
      BeforeEnd(run);
      if FoundByToken(store.devices, token).Some? {
        FoundIsCurrent(run, |run|, token);
      }
      VerificationIsSteps(After(run), 0, token, now);
      RunSteps(run, steps);
      run := run + steps;
      if token == "" {
        return Err(InvalidToken);
      }
      var found := store.FindByToken(token);
      if found.None? {
        return Err(InvalidToken);
      }
      store.Touch(found.value.deviceId, now);
      r := Ok(Verified(found.value.deviceId, found.value.tier));
    }

    /** What a successful change leaves behind: the store, one queued event, one
        audit entry. */
    twostate predicate Announced(devices: seq<Device>, e: Event, entry: ActionEntry)
      reads this, store, actionLog
    {
      && store.devices == devices
      && pending == Enqueued(old(pending), e)
      && actionLog.history == old(actionLog.history) + [(e.deviceId, entry)]
    }

    twostate predicate Untouched()
      reads this, store, actionLog
    {
      store.devices == old(store.devices) && pending == old(pending) && actionLog.history == old(actionLog.history)
    }

    method SetTier(id: string, tier: string, now: real, stamp: string) returns (r: Result<string>)
      requires Valid()
      modifies `pending, `run, store, actionLog
      ensures Valid() && Took(TierSteps(old(After(run)), 0, id, tier, now))
      ensures if !IsValidTier(tier) then r == Err(BadRequest) && Untouched()
              else if IndexOf(old(store.devices), id).None? then r == Err(NotFound) && Untouched()
              else
                && r == Ok(tier)
                && Announced(Updated(old(store.devices), id, WithTier(tier)),
                             Event("tier_changed", id, now, tier), ActionEntry("tier \U{2192} " + tier, stamp, "ok"))
    {
      hide IsRun, After, Steps, ForDevice, LastOf, TierSteps, IsValidTier, IndexOf;
      ghost var steps := TierSteps(After(run), 0, id, tier, now);
      TierChangeIsSteps(After(run), 0, id, tier, now);
      RunSteps(run, steps);
      run := run + steps;
      if !IsValidTier(tier) {
        return Err(BadRequest);
      }
      var updated := store.Update(id, WithTier(tier));
      if updated.None? {
        return Err(NotFound);
      }
      EnqueueEvent(id, TIER_CHANGED, tier, now);
      var _ := actionLog.RecordAt(id, "tier \U{2192} " + tier, "ok", stamp);
      r := Ok(tier);
    }

    method RotateToken(id: string, minted: string, now: real, stamp: string) returns (r: Result<string>)
      requires Valid()
      modifies `pending, `run, store, actionLog
      ensures Valid() && Took(RotationSteps(old(After(run)), 0, id, minted, now))
      ensures if IndexOf(old(store.devices), id).None? then r == Err(NotFound) && Untouched()
              else
                && r == Ok(minted)
                && Announced(Updated(old(store.devices), id, WithToken(minted)),
                             Event("token_rotated", id, now, minted), ActionEntry("token rotated", stamp, "ok"))
    {
      hide IsRun, After, Steps, ForDevice, LastOf, RotationSteps, IndexOf, Updated, Removed;
      ghost var steps := RotationSteps(After(run), 0, id, minted, now);
      RotationIsSteps(After(run), 0, id, minted, now);
      RunSteps(run, steps);
      run := run + steps;
      var known := store.Get(id);
      if known.None? {
        return Err(NotFound);
      }
      var updated := store.Update(id, WithToken(minted));
      if updated.None? {
        return Err(NotFound);
      }
      EnqueueEvent(id, ROTATED, minted, now);
      var _ := actionLog.RecordAt(id, "token rotated", "ok", stamp);
      r := Ok(minted);
    }

    /** The revoked event is queued after the removal, under the removed id. */
    method Revoke(id: string, now: real, stamp: string) returns (r: Result<string>)
      requires Valid()
      modifies `pending, `run, store, actionLog
      ensures Valid() && Took(RevocationSteps(old(After(run)), 0, id, now))
      ensures if IndexOf(old(store.devices), id).None? then r == Err(NotFound) && Untouched()
              else
                && r == Ok(id)
                && Announced(Removed(old(store.devices), id), Event("revoked", id, now, ""),
                             ActionEntry("revoked", stamp, "ok"))
    {
      hide IsRun, After, Steps, ForDevice, LastOf, RevocationSteps, IndexOf, Updated, Removed;
      ghost var steps := RevocationSteps(After(run), 0, id, now);
      RevocationIsSteps(After(run), 0, id, now);
      RunSteps(run, steps);
      run := run + steps;
      var known := store.Get(id);
      if known.None? {
        return Err(NotFound);
      }
      var removed := store.Remove(id);
      if !removed {
        return Err(NotFound);
      }
      EnqueueEvent(id, REVOKED, "", now);
      var _ := actionLog.RecordAt(id, "revoked", "ok", stamp);
      r := Ok(id);
    }

    // ----- Events -----

    method EnqueueEvent(id: string, kind: string, payload: string, now: real)
      modifies `pending
      ensures pending == Enqueued(old(pending), Event(kind, id, now, payload))
    {
      var e := Event(kind, id, now, payload);
      pending := pending[id := (if id in pending then pending[id] else []) + [e]];
    }

    method ConsumePendingEvents(id: string) returns (events: seq<Event>)
      requires Valid()
      modifies `pending, `run
      ensures Valid() && Took([Consume(id)])
      ensures events == PendingFor(old(pending), id)
      ensures pending == old(pending) - {id}
    {
      AloneIsStep(After(run), Consume(id));
      RunSteps(run, [Consume(id)]);
      run := run + [Consume(id)];
      events := if id in pending then pending[id] else [];
      pending := pending - {id};
    }

    method HasPendingEvents(id: string) returns (some: bool)
      ensures some <==> PendingFor(pending, id) != []
    {
      some := id in pending && |pending[id]| > 0;
    }

    method RecentActions(id: string, limit: nat) returns (r: seq<ActionEntry>)
      requires Valid()
      ensures r == Take(Reversed(ForDevice(actionLog.history, id)), Min(limit, ACTION_LOG_CAP))
    {
      r := actionLog.Recent(id, limit);
    }
  }
}
