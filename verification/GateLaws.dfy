/** Safety of the device gate over every run. */
module GateLaws {
  import opened Wrappers
  import opened Devices
  import opened Gate

  // ----- Which token is the current one -----

  predicate WroteAt(run: seq<Action>, i: nat, id: string, token: string)
    requires IsRun(run)
  {
    i < |run| && (StepOf(run, i); Writes(Before(run, i), run[i]) == Some((id, token)))
  }

  /** Step `i` writes a token for the device or removes it. */
  predicate ChangesAt(run: seq<Action>, i: nat, id: string)
    requires IsRun(run)
  {
    i < |run| && (StepOf(run, i);
      var s, a := Before(run, i), run[i];
      (Writes(s, a).Some? && Writes(s, a).value.0 == id) || Drops(s, a) == Some(id))
  }

  /** Up to step `n`, step `i` is the last to write a token for the device, the
      token was `token`, and the device was not removed since. */
  ghost predicate LastWritten(run: seq<Action>, n: nat, i: nat, id: string, token: string)
    requires IsRun(run)
  {
    && i < n <= |run|
    && WroteAt(run, i, id, token)
    && forall j :: i < j < n ==> !ChangesAt(run, j, id)
  }

  lemma {:induction false} DevicesStayUnique(run: seq<Action>, n: nat)
    requires IsRun(run) && n <= |run|
    ensures UniqueDevices(Before(run, n).devices)
  {
    if n > 0 {
      DevicesStayUnique(run, n - 1);
      StepOf(run, n - 1);
      StepTokens(Before(run, n - 1), run[n - 1], "");
      hide Before, Next, UniqueDevices, TokenOf;
    }
  }

  lemma StepChange(run: seq<Action>, n: nat, id: string)
    requires IsRun(run) && n < |run|
    ensures var s, r := Before(run, n), Before(run, n + 1);
            && (ChangesAt(run, n, id) ==>
                  (TokenOf(r.devices, id).Some? ==> WroteAt(run, n, id, TokenOf(r.devices, id).value)))
            && (!ChangesAt(run, n, id) ==> TokenOf(r.devices, id) == TokenOf(s.devices, id))
    ensures forall token :: WroteAt(run, n, id, token) ==> TokenOf(Before(run, n + 1).devices, id) == Some(token)
  {
    DevicesStayUnique(run, n);
    StepOf(run, n);
    StepTokens(Before(run, n), run[n], id);
    hide Before, Next, TokenOf, UniqueDevices, Enabled;
  }

  lemma StartsEmpty(run: seq<Action>)
    requires IsRun(run)
    ensures Before(run, 0) == INITIAL
  {
    assert run[..0] == [];
  }

  lemma NoTokenAtStart(run: seq<Action>, id: string)
    requires IsRun(run)
    ensures TokenOf(Before(run, 0).devices, id).None?
  {
    StartsEmpty(run);
  }

  /** A token in the store has a last write. */
  lemma {:induction false} CurrentHasWriter(run: seq<Action>, n: nat, id: string, token: string) returns (i: nat)
    requires IsRun(run) && n <= |run| && TokenOf(Before(run, n).devices, id) == Some(token)
    ensures LastWritten(run, n, i, id, token)
  {
    hide Before, WroteAt, ChangesAt, TokenOf, IsRun;
    if n == 0 {
      NoTokenAtStart(run, id);
      assert false;
    } else {
      StepChange(run, n - 1, id);
      if ChangesAt(run, n - 1, id) {
        i := n - 1;
      } else {
        i := CurrentHasWriter(run, n - 1, id, token);
      }
    }
  }

  /** The last write is what the store holds. */
  lemma {:induction false} WriterIsCurrent(run: seq<Action>, n: nat, i: nat, id: string, token: string)
    requires IsRun(run) && LastWritten(run, n, i, id, token)
    ensures TokenOf(Before(run, n).devices, id) == Some(token)
  {
    hide Before, WroteAt, ChangesAt, TokenOf, IsRun;
    StepChange(run, n - 1, id);
    if i < n - 1 {
      WriterIsCurrent(run, n - 1, i, id, token);
    }
  }

  /** The store holds for a device exactly the token last written for it, if the
      device was not removed since. */
  lemma CurrentToken(run: seq<Action>, n: nat, id: string, token: string)
    requires IsRun(run) && n <= |run|
    ensures TokenOf(Before(run, n).devices, id) == Some(token) <==> exists i :: LastWritten(run, n, i, id, token)
  {
    hide Before, LastWritten, TokenOf;
    if TokenOf(Before(run, n).devices, id) == Some(token) {
      var i := CurrentHasWriter(run, n, id, token);
    }
    if i: nat :| LastWritten(run, n, i, id, token) {
      WriterIsCurrent(run, n, i, id, token);
    }
  }

  lemma FoundIsToken(devices: seq<Device>, token: string)
    requires UniqueDevices(devices)
    ensures FoundByToken(devices, token).Some? <==> token != "" && exists id :: TokenOf(devices, id) == Some(token)
    ensures FoundByToken(devices, token).Some? ==>
              var d := FoundByToken(devices, token).value;
              d in devices && d.token == token && TokenOf(devices, d.deviceId) == Some(token)
  {
    var i := IndexOfToken(devices, token);
    if i.Some? {
      IndexAt(devices, i.value);
      assert TokenOf(devices, devices[i.value].deviceId) == Some(token);
    }
  }

  /** Verification: over every run, a token is accepted exactly when it is the
      one last written for some device added and not since removed. */
  lemma VerifiesIffCurrent(run: seq<Action>, n: nat, token: string)
    requires IsRun(run) && n <= |run|
    ensures FoundByToken(Before(run, n).devices, token).Some? <==>
              token != "" && exists i, id :: LastWritten(run, n, i, id, token)
  {
    DevicesStayUnique(run, n);
    var devices := Before(run, n).devices;
    FoundIsToken(devices, token);
    hide FoundByToken, TokenOf, Before, LastWritten, UniqueDevices;
    if id :| TokenOf(devices, id) == Some(token) {
      CurrentToken(run, n, id, token);
    }
    if i, id :| LastWritten(run, n, i, id, token) {
      CurrentToken(run, n, id, token);
    }
  }

  // ----- Fresh mints -----

  function Mint(a: Action): Option<string> {
    match a
    case CompletePairing(_, _, _, _, _, token, _) => Some(token)
    case RotateWrite(_, token) => Some(token)
    case _ => None
  }

  /** No token is minted twice, and none is empty. */
  ghost predicate FreshMints(run: seq<Action>) {
    && (forall i, j :: 0 <= i < j < |run| && Mint(run[i]).Some? ==> Mint(run[i]) != Mint(run[j]))
    && (forall i :: 0 <= i < |run| ==> Mint(run[i]) != Some(""))
  }

  lemma WriteIsMint(run: seq<Action>, i: nat, id: string, token: string)
    requires IsRun(run) && WroteAt(run, i, id, token)
    ensures i < |run| && Mint(run[i]) == Some(token)
  {
    hide Before, Outcome;
  }

  lemma WriterUnique(run: seq<Action>, i: nat, j: nat, id: string, id': string, token: string)
    requires IsRun(run) && FreshMints(run) && WroteAt(run, i, id, token) && WroteAt(run, j, id', token)
    ensures i == j && id == id'
  {
    WriteIsMint(run, i, id, token);
    WriteIsMint(run, j, id', token);
    hide Before, Writes, Mint, Enabled;
  }

  /** Once a token that was written is no longer accepted, because it was
      superseded or its device removed, it is never accepted again. */
  lemma SupersededForever(run: seq<Action>, i: nat, m: nat, n: nat, id: string, token: string)
    requires IsRun(run) && FreshMints(run) && i < m <= n <= |run|
    requires WroteAt(run, i, id, token)
    requires FoundByToken(Before(run, m).devices, token).None?
    ensures FoundByToken(Before(run, n).devices, token).None?
  {
    VerifiesIffCurrent(run, n, token);
    DevicesStayUnique(run, m);
    hide Before, WroteAt, ChangesAt, FoundByToken, LastWritten, UniqueDevices, TokenOf;
    if j: nat, id' :| LastWritten(run, n, j, id', token) {
      LastWriteWrote(run, n, j, id', token);
      WriterUnique(run, i, j, id, id', token);
      WrittenEarlier(run, m, n, i, id, token);
      WriterIsCurrent(run, m, i, id, token);
      FoundIsToken(Before(run, m).devices, token);
    }
  }

  lemma LastWriteWrote(run: seq<Action>, n: nat, i: nat, id: string, token: string)
    requires IsRun(run) && LastWritten(run, n, i, id, token)
    ensures WroteAt(run, i, id, token)
  {
  }

  lemma WrittenEarlier(run: seq<Action>, m: nat, n: nat, i: nat, id: string, token: string)
    requires IsRun(run) && i < m <= n && LastWritten(run, n, i, id, token)
    ensures LastWritten(run, m, i, id, token)
  {
    hide WroteAt, ChangesAt;
  }

  /** Two devices never share a token, so a verified token names one device. */
  lemma TokensDistinct(run: seq<Action>, n: nat, id: string, id': string)
    requires IsRun(run) && FreshMints(run) && n <= |run|
    requires TokenOf(Before(run, n).devices, id).Some?
    requires TokenOf(Before(run, n).devices, id) == TokenOf(Before(run, n).devices, id')
    ensures id == id'
  {
    var token := TokenOf(Before(run, n).devices, id).value;
    CurrentToken(run, n, id, token);
    CurrentToken(run, n, id', token);
    hide Before, WroteAt, ChangesAt, TokenOf, FreshMints;
    var i :| LastWritten(run, n, i, id, token);
    var j :| LastWritten(run, n, j, id', token);
    WriterUnique(run, i, j, id, id', token);
  }

  /** A device that is gone stays gone until it is paired anew: no late update,
      rotation or touch of any thread brings it back. */
  lemma {:induction false} NoResurrection(run: seq<Action>, m: nat, n: nat, id: string)
    requires IsRun(run) && m <= n <= |run|
    requires IndexOf(Before(run, m).devices, id).None?
    requires forall j :: m <= j < n ==> !(run[j].CompletePairing? && run[j].id == id)
    ensures IndexOf(Before(run, n).devices, id).None?
    decreases n
  {
    DevicesStayUnique(run, n);
    TokenOfHas(Before(run, n).devices, id);
    if m < n {
      NoResurrection(run, m, n - 1, id);
      DevicesStayUnique(run, n - 1);
      TokenOfHas(Before(run, n - 1).devices, id);
      StepOf(run, n - 1);
      StepTokens(Before(run, n - 1), run[n - 1], id);
      hide Before, Next, UniqueDevices, TokenOf;
    }
  }

  // ----- Which tier is the current one -----

  function TierOf(devices: seq<Device>, id: string): Option<string> {
    match RecordOf(devices, id)
    case None => None
    case Some(d) => Some(d.tier)
  }

  /** The tier a step gives, and to which device: a pairing gives the read-only
      one, an update of a known device to a known tier that tier. */
  function GivesTier(s: State, a: Action): Option<(string, string)>
    requires Enabled(s, a)
  {
    match a
    case CompletePairing(code, ok, now, id, _, _, _) =>
      if Outcome(s.pairing, s.devices, code, ok, now, id).Paired? then Some((id, TIER_READ_ONLY)) else None
    case TierUpdate(_, id, tier) =>
      if IsValidTier(tier) && IndexOf(s.devices, id).Some? then Some((id, tier)) else None
    case _ => None
  }

  predicate TieredAt(run: seq<Action>, i: nat, id: string, tier: string)
    requires IsRun(run)
  {
    i < |run| && (StepOf(run, i); GivesTier(Before(run, i), run[i]) == Some((id, tier)))
  }

  /** Step `i` gives the device a tier or removes it. */
  predicate MovesTierAt(run: seq<Action>, i: nat, id: string)
    requires IsRun(run)
  {
    i < |run| && (StepOf(run, i);
      var s, a := Before(run, i), run[i];
      (GivesTier(s, a).Some? && GivesTier(s, a).value.0 == id) || Drops(s, a) == Some(id))
  }

  /** Up to step `n`, step `i` is the last to give the device a tier, the tier was
      `tier`, and the device was not removed since. */
  ghost predicate LastTiered(run: seq<Action>, n: nat, i: nat, id: string, tier: string)
    requires IsRun(run)
  {
    && i < n <= |run|
    && TieredAt(run, i, id, tier)
    && forall j :: i < j < n ==> !MovesTierAt(run, j, id)
  }

  lemma StepTierOf(s: State, a: Action, id: string)
    requires Enabled(s, a) && UniqueDevices(s.devices)
    ensures TierOf(Next(s, a).devices, id) ==
              if GivesTier(s, a).Some? && GivesTier(s, a).value.0 == id then Some(GivesTier(s, a).value.1)
              else if Drops(s, a) == Some(id) then None
              else TierOf(s.devices, id)
  {
    hide Next, UniqueDevices, IsValidTier, IndexOf;
    StepDevice(s, a, id);
  }

  lemma StepTier(run: seq<Action>, n: nat, id: string)
    requires IsRun(run) && n < |run|
    ensures var s, r := Before(run, n), Before(run, n + 1);
            && (MovesTierAt(run, n, id) ==>
                  (TierOf(r.devices, id).Some? ==> TieredAt(run, n, id, TierOf(r.devices, id).value)))
            && (!MovesTierAt(run, n, id) ==> TierOf(r.devices, id) == TierOf(s.devices, id))
    ensures forall tier :: TieredAt(run, n, id, tier) ==> TierOf(Before(run, n + 1).devices, id) == Some(tier)
  {
    hide Before, Next, TierOf, UniqueDevices, Enabled, IsRun, GivesTier, Drops;
    DevicesStayUnique(run, n);
    StepOf(run, n);
    StepTierOf(Before(run, n), run[n], id);
  }

  lemma NoTierAtStart(run: seq<Action>, id: string)
    requires IsRun(run)
    ensures TierOf(Before(run, 0).devices, id).None?
  {
    StartsEmpty(run);
  }

  lemma {:induction false} TierHasGiver(run: seq<Action>, n: nat, id: string, tier: string) returns (i: nat)
    requires IsRun(run) && n <= |run| && TierOf(Before(run, n).devices, id) == Some(tier)
    ensures LastTiered(run, n, i, id, tier)
  {
    hide Before, TieredAt, MovesTierAt, TierOf, IsRun;
    if n == 0 {
      NoTierAtStart(run, id);
      assert false;
    } else {
      StepTier(run, n - 1, id);
      if MovesTierAt(run, n - 1, id) {
        i := n - 1;
      } else {
        i := TierHasGiver(run, n - 1, id, tier);
      }
    }
  }

  lemma {:induction false} GivenTierStays(run: seq<Action>, n: nat, i: nat, id: string, tier: string)
    requires IsRun(run) && LastTiered(run, n, i, id, tier)
    ensures TierOf(Before(run, n).devices, id) == Some(tier)
  {
    hide Before, TieredAt, MovesTierAt, TierOf, IsRun;
    StepTier(run, n - 1, id);
    if i < n - 1 {
      GivenTierStays(run, n - 1, i, id, tier);
    }
  }

  /** The tier stored for a device is exactly the one its pairing or its last tier
      update gave it, over every run; touches, rotations and other devices' steps
      change none. */
  lemma CurrentTier(run: seq<Action>, n: nat, id: string, tier: string)
    requires IsRun(run) && n <= |run|
    ensures TierOf(Before(run, n).devices, id) == Some(tier) <==> exists i :: LastTiered(run, n, i, id, tier)
  {
    hide Before, LastTiered, TierOf;
    if TierOf(Before(run, n).devices, id) == Some(tier) {
      var i := TierHasGiver(run, n, id, tier);
    }
    if i: nat :| LastTiered(run, n, i, id, tier) {
      GivenTierStays(run, n, i, id, tier);
    }
  }

  /** What a token stands for: the device whose current token it is, at that
      device's current tier. */
  lemma FoundIsCurrent(run: seq<Action>, n: nat, token: string)
    requires IsRun(run) && n <= |run| && FoundByToken(Before(run, n).devices, token).Some?
    ensures var d := FoundByToken(Before(run, n).devices, token).value;
            && (exists i :: LastWritten(run, n, i, d.deviceId, token))
            && (exists i :: LastTiered(run, n, i, d.deviceId, d.tier))
  {
    DevicesStayUnique(run, n);
    FoundIsToken(Before(run, n).devices, token);
    var d := FoundByToken(Before(run, n).devices, token).value;
    RecordOfHas(Before(run, n).devices, d);
    hide Before, LastWritten, LastTiered, FoundByToken, UniqueDevices, TokenOf, IsRun;
    CurrentToken(run, n, d.deviceId, token);
    CurrentTier(run, n, d.deviceId, d.tier);
  }

  /** Every device in every reachable state has a valid tier. */
  lemma {:induction false} TiersValid(run: seq<Action>, n: nat)
    requires IsRun(run) && n <= |run|
    ensures forall d :: d in Before(run, n).devices ==> IsValidTier(d.tier)
  {
    if n == 0 {
      assert Before(run, 0) == INITIAL by { assert run[..0] == []; }
    } else {
      TiersValid(run, n - 1);
      StepOf(run, n - 1);
      StepTiers(Before(run, n - 1), run[n - 1]);
      hide Before, Next;
    }
  }

  lemma StepTiers(s: State, a: Action)
    requires Enabled(s, a) && forall d :: d in s.devices ==> IsValidTier(d.tier)
    ensures forall d :: d in Next(s, a).devices ==> IsValidTier(d.tier)
  {
    match a
    case RevokeRemove(t) =>
      forall d | d in Next(s, a).devices
        ensures IsValidTier(d.tier)
      {
        RemovedHas(s.devices, PcOf(s, t).id, d);
      }
    case _ =>
  }

  // ----- Events -----

  /** The event a step queues. */
  function Sends(s: State, a: Action): Option<Event>
    requires Enabled(s, a)
  {
    match a
    case SendEvent(t, now) => Some(Event(PcOf(s, t).kind, PcOf(s, t).id, now, PcOf(s, t).payload))
    case _ => None
  }

  /** Everything queued for a device in the first `n` steps, in order. */
  function Sent(run: seq<Action>, n: nat, id: string): seq<Event>
    requires IsRun(run) && n <= |run|
  {
    if n == 0 then []
    else
      StepOf(run, n - 1);
      var e := Sends(Before(run, n - 1), run[n - 1]);
      Sent(run, n - 1, id) + if e.Some? && e.value.deviceId == id then [e.value] else []
  }

  /** Everything the consume calls for a device returned, in order. */
  function Delivered(run: seq<Action>, n: nat, id: string): seq<Event>
    requires IsRun(run) && n <= |run|
  {
    if n == 0 then []
    else
      Delivered(run, n - 1, id)
      + if run[n - 1] == Consume(id) then PendingFor(Before(run, n - 1).pending, id) else []
  }

  lemma StepEvents(s: State, a: Action, id: string)
    requires Enabled(s, a)
    ensures PendingFor(Next(s, a).pending, id) ==
              if a == Consume(id) then []
              else PendingFor(s.pending, id)
                   + if Sends(s, a).Some? && Sends(s, a).value.deviceId == id then [Sends(s, a).value] else []
    ensures a == Consume(id) ==> Sends(s, a).None?
  {
    hide FoundByToken, Outcome, IndexOf, Updated, Touched, Removed;
  }

  /** Delivery is conserved: over every run, everything consumed for a device
      followed by what still waits is exactly what was queued for it, in order,
      events of a revocation included. */
  lemma {:induction false} EventsConserved(run: seq<Action>, n: nat, id: string)
    requires IsRun(run) && n <= |run|
    ensures Delivered(run, n, id) + PendingFor(Before(run, n).pending, id) == Sent(run, n, id)
  {
    if n == 0 {
      StartsEmpty(run);
    } else {
      hide Before, Next, PendingFor, Sends;
      EventsConserved(run, n - 1, id);
      StepOf(run, n - 1);
      var s, a := Before(run, n - 1), run[n - 1];
      StepEvents(s, a, id);
      var extra := if Sends(s, a).Some? && Sends(s, a).value.deviceId == id then [Sends(s, a).value] else [];
      ConserveStep(Delivered(run, n - 1, id), PendingFor(s.pending, id), Sent(run, n - 1, id), a == Consume(id), extra);
    }
  }

  lemma ConserveStep(delivered: seq<Event>, pending: seq<Event>, sent: seq<Event>, consume: bool, extra: seq<Event>)
    requires delivered + pending == sent && (consume ==> extra == [])
    ensures (delivered + (if consume then pending else [])) + (if consume then [] else pending + extra) == sent + extra
  {
  }

  /** The operations whose event is still to be queued by some thread. */
  predicate InFlight(s: State, t: nat, id: string, kind: string) {
    PcOf(s, t).ToSend? && PcOf(s, t).id == id && PcOf(s, t).kind == kind
  }

  /** Step `k` removes the device. */
  predicate RemovesAt(run: seq<Action>, k: nat, id: string)
    requires IsRun(run)
  {
    k < |run| && (StepOf(run, k); Drops(Before(run, k), run[k]) == Some(id))
  }

  /** Step `k` queues the device's revoked event. */
  predicate QueuesRevokedAt(run: seq<Action>, k: nat, id: string)
    requires IsRun(run)
  {
    k < |run| && (StepOf(run, k);
      var e := Sends(Before(run, k), run[k]);
      e.Some? && e.value.kind == REVOKED && e.value.deviceId == id)
  }

  /** The threads that still have an event of the kind to queue for the device. */
  function Owing(s: State, id: string, kind: string): set<nat> {
    set t | t in s.threads && InFlight(s, t, id, kind)
  }

  lemma OwingHas(s: State, id: string, kind: string, t: nat)
    ensures t in Owing(s, id, kind) <==> InFlight(s, t, id, kind)
  {
  }

  /** A removal leaves its thread owing the revoked event; queueing it settles
      that; no other step touches what is owed. */
  lemma StepOwes(s: State, a: Action, id: string, t: nat)
    requires Enabled(s, a)
    ensures Drops(s, a).Some? || Sends(s, a).Some? ==> a.RevokeRemove? || a.SendEvent?
    ensures InFlight(Next(s, a), t, id, REVOKED) <==>
              if Drops(s, a) == Some(id) && t == a.thread then true
              else if Sends(s, a).Some? && t == a.thread then false
              else InFlight(s, t, id, REVOKED)
    ensures Drops(s, a) == Some(id) ==> Sends(s, a).None? && !InFlight(s, a.thread, id, REVOKED)
    ensures Sends(s, a).Some? ==>
              (InFlight(s, a.thread, id, REVOKED) <==>
               Sends(s, a).value.kind == REVOKED && Sends(s, a).value.deviceId == id)
  {
    hide FoundByToken, Outcome, IndexOf, Updated, Touched, Removed;
  }

  /** Over every run: after a removal its thread owes the revoked event until a
      step of that thread has queued it. */
  lemma {:induction false} RevocationAnnounced(run: seq<Action>, j: nat, n: nat, id: string)
    requires IsRun(run) && j < n <= |run| && RemovesAt(run, j, id)
    ensures run[j].RevokeRemove?
    ensures || InFlight(Before(run, n), run[j].thread, id, REVOKED)
            || exists k :: j < k < n && QueuesRevokedAt(run, k, id) && run[k].SendEvent?
                && run[k].thread == run[j].thread
    decreases n
  {
    hide Before, IsRun, InFlight, Sends, Drops, Next;
    StepOf(run, j);
    StepOf(run, n - 1);
    StepOwes(Before(run, j), run[j], id, 0);
    assert run[j].RevokeRemove? by { RemovalIs(run, j, id); }
    var t := run[j].thread;
    StepOwes(Before(run, n - 1), run[n - 1], id, t);
    if j < n - 1 {
      RevocationAnnounced(run, j, n - 1, id);
      if InFlight(Before(run, n - 1), t, id, REVOKED) && !InFlight(Before(run, n), t, id, REVOKED) {
        SendIs(run, n - 1);
        assert QueuesRevokedAt(run, n - 1, id);
      }
    }
  }

  lemma RemovalIs(run: seq<Action>, j: nat, id: string)
    requires IsRun(run) && RemovesAt(run, j, id)
    ensures run[j].RevokeRemove?
  {
    hide Before, IsRun;
  }

  lemma SendIs(run: seq<Action>, k: nat)
    requires IsRun(run) && k < |run|
    ensures (StepOf(run, k); Sends(Before(run, k), run[k]).Some? <==> run[k].SendEvent?)
  {
    hide Before, IsRun;
  }

  function Removals(run: seq<Action>, n: nat, id: string): nat
    requires IsRun(run) && n <= |run|
  {
    if n == 0 then 0 else Removals(run, n - 1, id) + if RemovesAt(run, n - 1, id) then 1 else 0
  }

  function RevokedQueued(run: seq<Action>, n: nat, id: string): nat
    requires IsRun(run) && n <= |run|
  {
    if n == 0 then 0 else RevokedQueued(run, n - 1, id) + if QueuesRevokedAt(run, n - 1, id) then 1 else 0
  }

  lemma OwedStep(s: State, a: Action, id: string)
    requires Enabled(s, a)
    ensures var e := Sends(s, a);
            |Owing(Next(s, a), id, REVOKED)|
                + (if e.Some? && e.value.kind == REVOKED && e.value.deviceId == id then 1 else 0)
            == |Owing(s, id, REVOKED)| + if Drops(s, a) == Some(id) then 1 else 0
  {
    var before, after := Owing(s, id, REVOKED), Owing(Next(s, a), id, REVOKED);
    hide Next, Sends, Drops, InFlight, Owing, Enabled;
    forall t
      ensures t in before <==> InFlight(s, t, id, REVOKED)
      ensures t in after <==> InFlight(Next(s, a), t, id, REVOKED)
    {
      OwingHas(s, id, REVOKED, t);
      OwingHas(Next(s, a), id, REVOKED, t);
    }
    forall t
      ensures t in after <==>
                if Drops(s, a) == Some(id) && t == a.thread then true
                else if Sends(s, a).Some? && t == a.thread then false
                else t in before
    {
      StepOwes(s, a, id, t);
    }
    StepOwes(s, a, id, 0);
    if Drops(s, a) == Some(id) {
      assert after == before + {a.thread};
    } else if Sends(s, a).Some? {
      assert after == before - {a.thread};
    } else {
      assert after == before;
    }
  }

  /** Each removal is announced once: the removals of a device are as many as its
      revoked events queued so far plus the threads that still owe one. */
  lemma {:induction false} RevocationsConserved(run: seq<Action>, n: nat, id: string)
    requires IsRun(run) && n <= |run|
    ensures Removals(run, n, id) == RevokedQueued(run, n, id) + |Owing(Before(run, n), id, REVOKED)|
  {
    if n == 0 {
      StartsEmpty(run);
      assert Owing(INITIAL, id, REVOKED) == {};
    } else {
      hide Before, IsRun, Next, Owing, Sends, Drops;
      RevocationsConserved(run, n - 1, id);
      StepOf(run, n - 1);
      OwedStep(Before(run, n - 1), run[n - 1], id);
    }
  }

  // ----- Pairing -----

  /** Step `j` completes a pairing. */
  predicate PairsAt(run: seq<Action>, j: nat)
    requires IsRun(run)
  {
    j < |run| && (StepOf(run, j);
      var s, a := Before(run, j), run[j];
      a.CompletePairing? && Outcome(s.pairing, s.devices, a.code, a.credentialsOk, a.now, a.id).Paired?)
  }

  /** Step `j` replaces or closes the window. */
  predicate MovesWindow(run: seq<Action>, j: nat)
    requires IsRun(run)
  {
    j < |run| &&
    (run[j].StartPairing? || run[j].CancelPairing? || PairsAt(run, j)
     || (run[j].PairingStatus? && Before(run, j).pairing.code != "" && !Active(Before(run, j).pairing, run[j].now)))
  }

  /** Before step `n` the open window is the one step `i` started. */
  ghost predicate WindowOf(run: seq<Action>, n: nat, i: nat)
    requires IsRun(run)
  {
    && i < n <= |run|
    && run[i].StartPairing?
    && forall j :: i < j < n ==> !MovesWindow(run, j)
  }

  lemma StepWindow(run: seq<Action>, j: nat)
    requires IsRun(run) && j < |run|
    ensures var p, q := Before(run, j).pairing, Before(run, j + 1).pairing;
            && (run[j].StartPairing? ==> q == Opened(run[j].code, run[j].now) && q.code != "")
            && (!run[j].StartPairing? && MovesWindow(run, j) ==> q == CLOSED)
            && (!MovesWindow(run, j) ==> q == p)
  {
    hide Before, IsRun, FoundByToken, IndexOf, Updated, Touched, Removed;
    StepOf(run, j);
  }

  lemma {:induction false} OpenHasStart(run: seq<Action>, n: nat) returns (i: nat)
    requires IsRun(run) && n <= |run| && Before(run, n).pairing.code != ""
    ensures WindowOf(run, n, i)
    ensures Before(run, n).pairing == Opened(run[i].code, run[i].now)
  {
    if n == 0 {
      StartsEmpty(run);
      assert false;
    } else {
      StepWindow(run, n - 1);
      hide Before, MovesWindow;
      if run[n - 1].StartPairing? {
        i := n - 1;
      } else {
        i := OpenHasStart(run, n - 1);
      }
    }
  }

  lemma {:induction false} StartIsOpen(run: seq<Action>, n: nat, i: nat)
    requires IsRun(run) && WindowOf(run, n, i)
    ensures Before(run, n).pairing == Opened(run[i].code, run[i].now) && run[i].code != ""
  {
    StepWindow(run, n - 1);
    if i < n - 1 {
      StartIsOpen(run, n - 1, i);
    }
    hide Before, MovesWindow;
  }

  /** A successful completion used up a started window whose code it presented,
      not replaced, cancelled, used or seen expired since, on a clock reading
      before its expiry. */
  lemma PairingHasStart(run: seq<Action>, j: nat) returns (i: nat)
    requires IsRun(run) && PairsAt(run, j)
    ensures WindowOf(run, j, i) && i < |run| && run[i].StartPairing?
    ensures run[j].credentialsOk && IndexOf(Before(run, j).devices, run[j].id).None?
    ensures run[i].code == run[j].code && run[j].now < run[i].now + PAIRING_TTL
  {
    hide Before, WindowOf, IndexOf;
    i := OpenHasStart(run, j);
    StartInRun(run, j, i);
  }

  /** And every such window lets a completion with good credentials and a new id
      succeed. */
  lemma StartPermitsPairing(run: seq<Action>, j: nat, i: nat)
    requires IsRun(run) && j < |run| && run[j].CompletePairing? && WindowOf(run, j, i)
    requires run[j].credentialsOk && IndexOf(Before(run, j).devices, run[j].id).None?
    requires run[i].code == run[j].code && run[j].now < run[i].now + PAIRING_TTL
    ensures PairsAt(run, j)
  {
    StartIsOpen(run, j, i);
    hide Before, WindowOf, IndexOf;
  }

  lemma StartInRun(run: seq<Action>, n: nat, i: nat)
    requires IsRun(run) && WindowOf(run, n, i)
    ensures i < |run| && run[i].StartPairing?
  {
  }

  /** One window, one pairing: no start serves two completions. */
  lemma WindowUsedOnce(run: seq<Action>, i: nat, j: nat, k: nat)
    requires IsRun(run) && PairsAt(run, j) && PairsAt(run, k) && j < k
    requires WindowOf(run, j, i)
    ensures !WindowOf(run, k, i)
  {
    assert MovesWindow(run, j);
  }

  function Starts(run: seq<Action>, n: nat): nat
    requires n <= |run|
  {
    if n == 0 then 0 else Starts(run, n - 1) + if run[n - 1].StartPairing? then 1 else 0
  }

  function Pairings(run: seq<Action>, n: nat): nat
    requires IsRun(run) && n <= |run|
  {
    if n == 0 then 0 else Pairings(run, n - 1) + if PairsAt(run, n - 1) then 1 else 0
  }

  /** Completions never outnumber starts, an open window counted in. */
  lemma {:induction false} PairingsBounded(run: seq<Action>, n: nat)
    requires IsRun(run) && n <= |run|
    ensures Pairings(run, n) + (if Before(run, n).pairing.code != "" then 1 else 0) <= Starts(run, n)
  {
    if n == 0 {
      StartsEmpty(run);
    } else {
      PairingsBounded(run, n - 1);
      StepWindow(run, n - 1);
      if PairsAt(run, n - 1) {
        PairNeedsOpen(run, n - 1);
      }
      hide Before, PairsAt;
    }
  }

  lemma PairNeedsOpen(run: seq<Action>, j: nat)
    requires IsRun(run) && j < |run| && PairsAt(run, j)
    ensures Before(run, j).pairing.code != "" && MovesWindow(run, j) && !run[j].StartPairing?
  {
  }

  /** A device enters the store with read-only access and the presented token. */
  lemma PairedReadOnly(run: seq<Action>, j: nat)
    requires IsRun(run) && PairsAt(run, j)
    ensures var s, r := Before(run, j).devices, Before(run, j + 1).devices;
            |r| == |s| + 1 && r[..|s|] == s && r[|s|].deviceId == run[j].id
            && r[|s|].token == run[j].token && r[|s|].tier == TIER_READ_ONLY
  {
    StepOf(run, j);
    hide Before;
  }
}
