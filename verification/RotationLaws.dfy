/** What a device learns of its token from the event queue. The store update and
    the queueing of its event are separate lock regions, so two rotations of one
    device may announce in the other order than they wrote. */
module RotationLaws {
  import opened Wrappers
  import opened Devices
  import opened Gate
  import opened GateLaws

  /** Step `j` is a rotation's store write for the device. */
  predicate RotatesAt(run: seq<Action>, j: nat, id: string)
    requires IsRun(run)
  {
    j < |run| && (StepOf(run, j); run[j].RotateWrite? && WroteAt(run, j, id, run[j].token))
  }

  /** The token of the device's last rotation since it was last paired or removed. */
  function LastRotated(run: seq<Action>, n: nat, id: string): Option<string>
    requires IsRun(run) && n <= |run|
  {
    if n == 0 then None
    else if RotatesAt(run, n - 1, id) then Some(run[n - 1].token)
    else if ChangesAt(run, n - 1, id) then None
    else LastRotated(run, n - 1, id)
  }

  /** The token a thread is about to announce for the device. */
  function Carried(s: State, t: nat, id: string): Option<string> {
    if InFlight(s, t, id, ROTATED) then Some(PcOf(s, t).payload) else None
  }

  /** The token a rotation event of the device carries. */
  function Announces(s: State, a: Action, id: string): Option<string>
    requires Enabled(s, a)
  {
    var e := Sends(s, a);
    if e.Some? && e.value.deviceId == id && e.value.kind == ROTATED then Some(e.value.payload) else None
  }

  /** The token a step writes for the device by rotation. */
  function Rotates(s: State, a: Action, id: string): Option<string>
    requires Enabled(s, a)
  {
    if a.RotateWrite? && Writes(s, a) == Some((id, a.token)) then Some(a.token) else None
  }

  /** The token of the last rotation event queued for the device. */
  function LastAnnounced(run: seq<Action>, n: nat, id: string): Option<string>
    requires IsRun(run) && n <= |run|
  {
    if n == 0 then None
    else
      StepOf(run, n - 1);
      var e := Announces(Before(run, n - 1), run[n - 1], id);
      if e.Some? then e else LastAnnounced(run, n - 1, id)
  }

  /** No thread still has a rotation event of the device to queue. */
  ghost predicate Quiet(s: State, id: string) {
    forall t :: Carried(s, t, id).None?
  }

  /** The device's last rotation was written when no earlier one was still to be
      announced; how the ones before it overlapped does not matter. */
  ghost predicate LastQuiet(run: seq<Action>, n: nat, id: string)
    requires IsRun(run) && n <= |run|
  {
    if n == 0 then true
    else if RotatesAt(run, n - 1, id) then Quiet(Before(run, n - 1), id)
    else LastQuiet(run, n - 1, id)
  }

  /** No thread is about to announce another token for the device. */
  ghost predicate OnlyCarried(s: State, id: string, token: string) {
    forall t :: Carried(s, t, id) in {None, Some(token)}
  }

  /** Threads about to announce carry `token`; with none left, it was announced. */
  ghost predicate Consistent(s: State, id: string, announced: Option<string>, token: string) {
    && OnlyCarried(s, id, token)
    && (Quiet(s, id) ==> announced == Some(token))
  }

  /** How one step moves what a thread carries: taken on by the rotation's write,
      put down only by announcing it. */
  lemma StepCarried(s: State, a: Action, id: string, t: nat)
    requires Enabled(s, a)
    ensures var before, after := Carried(s, t, id), Carried(Next(s, a), t, id);
            && (after == before
                || (after.Some? && after == Rotates(s, a, id))
                || (after.None? && before == Announces(s, a, id)))
            && (Rotates(s, a, id).Some? && t == a.thread ==> after == Rotates(s, a, id))
    ensures Announces(s, a, id).Some? ==> Carried(s, a.thread, id) == Announces(s, a, id)
    ensures Announces(s, a, id).Some? ==> Rotates(s, a, id).None?
  {
    hide FoundByToken, Outcome, IndexOf, Updated, Touched, Removed;
  }

  lemma StepConsistent(s: State, a: Action, id: string, announced: Option<string>, token: string)
    requires Enabled(s, a) && Consistent(s, id, announced, token) && Rotates(s, a, id).None?
    ensures var e := Announces(s, a, id);
            Consistent(Next(s, a), id, if e.Some? then e else announced, token)
  {
    StepCarried(s, a, id, 0);
    hide Next, Rotates, Announces, Carried;
    forall t
      ensures Carried(Next(s, a), t, id) == Carried(s, t, id)
              || (Carried(Next(s, a), t, id).None? && Carried(s, t, id) == Announces(s, a, id))
    {
      StepCarried(s, a, id, t);
    }
    if Announces(s, a, id).Some? {
      assert Announces(s, a, id) == Some(token);
    } else if Quiet(Next(s, a), id) {
      forall t
        ensures Carried(s, t, id).None?
      {
        assert Carried(Next(s, a), t, id).None?;
      }
    }
  }

  lemma StartConsistent(s: State, a: Action, id: string, announced: Option<string>)
    requires Enabled(s, a) && Rotates(s, a, id).Some? && Quiet(s, id)
    ensures Consistent(Next(s, a), id, announced, Rotates(s, a, id).value)
    ensures Announces(s, a, id).None?
  {
    hide Next, Announces, Carried;
    forall t
      ensures Carried(Next(s, a), t, id) in {None, Rotates(s, a, id)}
      ensures t == a.thread ==> Carried(Next(s, a), t, id).Some?
    {
      StepCarried(s, a, id, t);
    }
    StepCarried(s, a, id, a.thread);
  }

  lemma {:induction false} RotationInvariant(run: seq<Action>, n: nat, id: string)
    requires IsRun(run) && n <= |run| && LastQuiet(run, n, id)
    ensures LastRotated(run, n, id).Some? ==>
              && Consistent(Before(run, n), id, LastAnnounced(run, n, id), LastRotated(run, n, id).value)
              && TokenOf(Before(run, n).devices, id) == LastRotated(run, n, id)
  {
    if n > 0 && LastRotated(run, n, id).Some? {
      StepOf(run, n - 1);
      StepChange(run, n - 1, id);
      var s, a := Before(run, n - 1), run[n - 1];
      RotatesAtIs(run, n - 1, id);
      if RotatesAt(run, n - 1, id) {
        StartConsistent(s, a, id, LastAnnounced(run, n, id));
      } else {
        RotationInvariant(run, n - 1, id);
        StepConsistent(s, a, id, LastAnnounced(run, n - 1, id), LastRotated(run, n, id).value);
      }
      hide Before, Next, Consistent, TokenOf, Rotates, Announces, RotatesAt, WroteAt, ChangesAt;
    }
  }

  lemma RotatesAtIs(run: seq<Action>, j: nat, id: string)
    requires IsRun(run) && j < |run|
    ensures (StepOf(run, j);
             && (RotatesAt(run, j, id) <==> Rotates(Before(run, j), run[j], id).Some?)
             && (RotatesAt(run, j, id) ==> Rotates(Before(run, j), run[j], id) == Some(run[j].token)))
    ensures RotatesAt(run, j, id) ==> WroteAt(run, j, id, run[j].token)
  {
    hide Before, Writes;
  }

  /** When the last rotation of a device overlaps no other and is announced, the
      last rotation event carries the token the store accepts. */
  lemma LastEventIsCurrent(run: seq<Action>, n: nat, id: string)
    requires IsRun(run) && n <= |run| && LastQuiet(run, n, id) && Quiet(Before(run, n), id)
    requires LastRotated(run, n, id).Some?
    ensures LastAnnounced(run, n, id) == TokenOf(Before(run, n).devices, id)
  {
    hide Before, TokenOf, LastRotated, LastAnnounced, LastQuiet, Quiet;
    RotationInvariant(run, n, id);
  }

  // ----- The exact condition -----

  /** What happened in the first `n` steps does not depend on the later ones. */
  lemma {:induction false} SamePrefix(run: seq<Action>, all: seq<Action>, n: nat, id: string)
    requires IsRun(run) && IsRun(all) && run <= all && n <= |run|
    ensures Before(all, n) == Before(run, n)
    ensures LastAnnounced(all, n, id) == LastAnnounced(run, n, id)
  {
    assert all[..n] == run[..n];
    if n > 0 {
      hide Before, Announces, IsRun;
      SamePrefix(run, all, n - 1, id);
    }
  }

  /** From step `m` on no token of the device is written and it is not removed. */
  ghost predicate Undisturbed(run: seq<Action>, m: nat, id: string)
    requires IsRun(run)
  {
    forall j :: m <= j < |run| ==> !ChangesAt(run, j, id)
  }

  /** However the run goes on without touching the device's token, once all its
      rotations are announced the last rotation event carries its token. */
  ghost predicate WillAgree(run: seq<Action>, id: string)
    requires IsRun(run)
  {
    forall all :: run <= all && IsRun(all) && Undisturbed(all, |run|, id) && Quiet(After(all), id) ==>
      LastAnnounced(all, |all|, id) == TokenOf(After(all).devices, id)
  }

  lemma {:induction false} StaysConsistent(run: seq<Action>, m: nat, n: nat, id: string, token: string)
    requires IsRun(run) && m <= n <= |run| && Undisturbed(run, m, id)
    requires TokenOf(Before(run, m).devices, id) == Some(token)
    requires Consistent(Before(run, m), id, LastAnnounced(run, m, id), token)
    ensures TokenOf(Before(run, n).devices, id) == Some(token)
    ensures Consistent(Before(run, n), id, LastAnnounced(run, n, id), token)
    decreases n
  {
    hide Before, Next, Consistent, TokenOf, Rotates, Announces, IsRun, RotatesAt;
    if m < n {
      StaysConsistent(run, m, n - 1, id, token);
      StepOf(run, n - 1);
      StepChange(run, n - 1, id);
      RotatesAtIs(run, n - 1, id);
      RotationChanges(run, n - 1, id);
      StepConsistent(Before(run, n - 1), run[n - 1], id, LastAnnounced(run, n - 1, id), token);
    }
  }

  lemma RotationChanges(run: seq<Action>, j: nat, id: string)
    requires IsRun(run) && j < |run|
    ensures RotatesAt(run, j, id) ==> ChangesAt(run, j, id)
  {
    hide Before, Writes, Drops, IsRun;
  }

  lemma CarriersOwe(s: State, id: string, t: nat)
    ensures t in Owing(s, id, ROTATED) <==> Carried(s, t, id).Some?
  {
  }

  /** Queueing one rotation event discharges its thread and does nothing else that
      matters here. */
  lemma SendStep(s: State, t: nat, id: string)
    requires Carried(s, t, id).Some?
    ensures var a := SendEvent(t, 0.0);
            && Enabled(s, a) && Announces(s, a, id) == Carried(s, t, id)
            && Writes(s, a).None? && Drops(s, a).None? && Next(s, a).devices == s.devices
            && (forall u :: Carried(Next(s, a), u, id) == if u == t then None else Carried(s, u, id))
            && Owing(Next(s, a), id, ROTATED) == Owing(s, id, ROTATED) - {t}
  {
  }

  lemma SendSnoc(run: seq<Action>, t: nat, id: string)
    requires IsRun(run) && Carried(After(run), t, id).Some?
    ensures var s, r := After(run), run + [SendEvent(t, 0.0)];
            && IsRun(r) && !ChangesAt(r, |run|, id)
            && LastAnnounced(r, |r|, id) == Carried(s, t, id)
            && After(r).devices == s.devices
            && (forall u :: Carried(After(r), u, id) == if u == t then None else Carried(s, u, id))
            && Owing(After(r), id, ROTATED) == Owing(s, id, ROTATED) - {t}
  {
    var a := SendEvent(t, 0.0);
    var r := run + [a];
    SendStep(After(run), t, id);
    RunSnoc(run, a);
    StepOf(r, |run|);
    SamePrefix(run, r, |run|, id);
    BeforeEnd(run);
    hide Carried, Owing, Next, Announces, Writes, Drops, Before, IsRun, After;
  }

  /** The threads can always announce in an order that leaves any one of them last. */
  lemma {:induction false} AnnounceLast(run: seq<Action>, u: nat, id: string) returns (all: seq<Action>)
    requires IsRun(run) && Carried(After(run), u, id).Some?
    ensures run <= all && IsRun(all) && Undisturbed(all, |run|, id) && Quiet(After(all), id)
    ensures LastAnnounced(all, |all|, id) == Carried(After(run), u, id)
    ensures After(all).devices == After(run).devices
    decreases |Owing(After(run), id, ROTATED)|
  {
    hide Before, After, IsRun, Carried, Owing, LastAnnounced, ChangesAt;
    CarriersOwe(After(run), id, u);
    var others := Owing(After(run), id, ROTATED) - {u};
    if others == {} {
      SendSnoc(run, u, id);
      all := run + [SendEvent(u, 0.0)];
      forall t
        ensures Carried(After(all), t, id).None?
      {
        CarriersOwe(After(all), id, t);
      }
    } else {
      var t :| t in others;
      CarriersOwe(After(run), id, t);
      SendSnoc(run, t, id);
      var r := run + [SendEvent(t, 0.0)];
      all := AnnounceLast(r, u, id);
      SameChange(r, all, |run|, id);
    }
  }

  lemma SameChange(run: seq<Action>, all: seq<Action>, j: nat, id: string)
    requires IsRun(run) && IsRun(all) && run <= all && j < |run|
    ensures ChangesAt(all, j, id) == ChangesAt(run, j, id)
  {
    SamePrefix(run, all, j, id);
    hide Before, IsRun, Writes, Drops;
  }

  /** From any reachable state the last rotation event ends up current, whatever
      order the rest is announced in, exactly when the threads still to announce
      all carry the stored token and, with none left, it was announced. */
  lemma WillAgreeIffConsistent(run: seq<Action>, id: string, token: string)
    requires IsRun(run) && TokenOf(After(run).devices, id) == Some(token)
    ensures WillAgree(run, id) <==> Consistent(After(run), id, LastAnnounced(run, |run|, id), token)
  {
    hide Before, After, IsRun, Carried, LastAnnounced, ChangesAt, TokenOf, Undisturbed, Consistent, Quiet;
    BeforeEnd(run);
    if Consistent(After(run), id, LastAnnounced(run, |run|, id), token) {
      forall all | run <= all && IsRun(all) && Undisturbed(all, |run|, id) && Quiet(After(all), id)
        ensures LastAnnounced(all, |all|, id) == TokenOf(After(all).devices, id)
      {
        SamePrefix(run, all, |run|, id);
        BeforeEnd(all);
        StaysConsistent(all, |run|, |all|, id, token);
        QuietConsistent(After(all), id, LastAnnounced(all, |all|, id), token);
      }
    } else {
      Disagreement(run, id, token);
    }
  }

  lemma QuietConsistent(s: State, id: string, announced: Option<string>, token: string)
    requires Quiet(s, id)
    ensures Consistent(s, id, announced, token) <==> announced == Some(token)
  {
    hide Carried;
    assert Carried(s, 0, id).None?;
  }

  lemma Disagreement(run: seq<Action>, id: string, token: string)
    requires IsRun(run) && TokenOf(After(run).devices, id) == Some(token)
    requires !Consistent(After(run), id, LastAnnounced(run, |run|, id), token)
    ensures !WillAgree(run, id)
  {
    hide Before, After, IsRun, Carried, LastAnnounced, ChangesAt, TokenOf;
    if u :| Carried(After(run), u, id) !in {None, Some(token)} {
      var all := AnnounceLast(run, u, id);
      assert LastAnnounced(all, |all|, id) != TokenOf(After(all).devices, id);
    } else {
      assert run <= run && Undisturbed(run, |run|, id);
      assert Quiet(After(run), id);
    }
  }

  lemma {:induction false} CarriedWasMinted(run: seq<Action>, n: nat, t: nat, id: string) returns (j: nat)
    requires IsRun(run) && n <= |run| && Carried(Before(run, n), t, id).Some?
    ensures j < n && Mint(run[j]) == Carried(Before(run, n), t, id)
  {
    hide Before, IsRun, Carried, Rotates, Announces;
    if n == 0 {
      NothingCarriedAtStart(run, t, id);
      assert false;
    } else {
      StepOf(run, n - 1);
      StepCarried(Before(run, n - 1), run[n - 1], id, t);
      RotatesMint(Before(run, n - 1), run[n - 1], id);
      if Carried(Before(run, n - 1), t, id) == Carried(Before(run, n), t, id) {
        j := CarriedWasMinted(run, n - 1, t, id);
      } else {
        j := n - 1;
      }
    }
  }

  lemma RotatesMint(s: State, a: Action, id: string)
    requires Enabled(s, a)
    ensures Rotates(s, a, id).Some? ==> Mint(a) == Rotates(s, a, id)
  {
  }

  lemma NothingCarriedAtStart(run: seq<Action>, t: nat, id: string)
    requires IsRun(run)
    ensures Carried(Before(run, 0), t, id).None?
  {
    StartsEmpty(run);
  }

  /** What a caller can tell before a rotation: its last event will end up current
      exactly when no other token of the device is still to be announced. */
  lemma RotationWillAgree(run: seq<Action>, id: string)
    requires IsRun(run) && run != [] && RotatesAt(run, |run| - 1, id)
    ensures WillAgree(run, id) <==> OnlyCarried(Before(run, |run| - 1), id, run[|run| - 1].token)
  {
    var n := |run| - 1;
    var s, a := Before(run, n), run[n];
    hide Before, After, IsRun, Carried, LastAnnounced, ChangesAt, TokenOf, WillAgree, Consistent, WroteAt, RotatesAt;
    RotatesAtIs(run, n, id);
    StepOf(run, n);
    StepChange(run, n, id);
    BeforeEnd(run);
    WillAgreeIffConsistent(run, id, a.token);
    RotationConsistent(s, a, id, LastAnnounced(run, |run|, id));
  }

  lemma RotationConsistent(s: State, a: Action, id: string, announced: Option<string>)
    requires Enabled(s, a) && Rotates(s, a, id).Some?
    ensures Consistent(Next(s, a), id, announced, Rotates(s, a, id).value)
            <==> OnlyCarried(s, id, Rotates(s, a, id).value)
  {
    RotationCarries(s, a, id);
    hide Next, Carried, Rotates, Enabled;
    var r := Next(s, a);
    if Consistent(r, id, announced, Rotates(s, a, id).value) {
      forall t
        ensures Carried(s, t, id) in {None, Rotates(s, a, id)}
      {
        assert Carried(r, t, id) in {None, Rotates(s, a, id)};
      }
    }
    if OnlyCarried(s, id, Rotates(s, a, id).value) {
      assert Carried(r, a.thread, id).Some?;
      assert !Quiet(r, id);
    }
  }

  lemma RotationCarries(s: State, a: Action, id: string)
    requires Enabled(s, a) && Rotates(s, a, id).Some?
    ensures a.RotateWrite? && Carried(s, a.thread, id).None?
    ensures forall t :: Carried(Next(s, a), t, id) == if t == a.thread then Rotates(s, a, id) else Carried(s, t, id)
  {
    hide IndexOf, Updated;
  }

  /** With fresh mints that is: exactly when every earlier rotation of the device
      has been announced. */
  lemma FreshRotationWillAgree(run: seq<Action>, id: string)
    requires IsRun(run) && FreshMints(run) && run != [] && RotatesAt(run, |run| - 1, id)
    ensures WillAgree(run, id) <==> Quiet(Before(run, |run| - 1), id)
  {
    var n := |run| - 1;
    var s := Before(run, n);
    RotationWillAgree(run, id);
    RotatesAtIs(run, n, id);
    WriteIsMint(run, n, id, run[n].token);
    hide Before, IsRun, Carried, WillAgree, Mint, RotatesAt, WroteAt;
    forall t
      ensures Carried(s, t, id) in {None, Some(run[n].token)} <==> Carried(s, t, id).None?
    {
      if Carried(s, t, id).Some? {
        var j := CarriedWasMinted(run, n, t, id);
      }
    }
  }

  // ----- Overlapping rotations -----

  /** Two rotations of one device that overlap: thread 0 writes first and
      announces last. */
  function OverlappingRun(): (r: seq<Action>)
    ensures |r| == 8
  {
    [StartPairing("000000", 0.0),
     CompletePairing("000000", true, 1.0, "d", "phone", "t0", map[]),
     RotateCheck(0, "d"), RotateCheck(1, "d"),
     RotateWrite(0, "t1"), RotateWrite(1, "t2"),
     SendEvent(1, 2.0), SendEvent(0, 2.0)]
  }

  function Phone(token: string): Device {
    NewDevice("d", "phone", token, 1.0, map[])
  }

  lemma OnePhone(token: string, next: string)
    ensures IndexOf([Phone(token)], "d") == Some(0)
    ensures Updated([Phone(token)], "d", WithToken(next)) == [Phone(next)]
  {
    assert [Phone(token)][0].deviceId == "d";
    assert [Phone(token)][0 := Phone(next)] == [Phone(next)];
  }

  /** The state of the example with its two threads where they are. */
  function Two(token: string, pending: map<string, seq<Event>>, a: Pc, b: Pc): State {
    State(CLOSED, [Phone(token)], pending, map[0 := a, 1 := b])
  }

  lemma TwoAt(token: string, pending: map<string, seq<Event>>, a: Pc, b: Pc, c: Pc)
    ensures At(Two(token, pending, a, b), 0, c) == Two(token, pending, c, b)
    ensures At(Two(token, pending, a, b), 1, c) == Two(token, pending, a, c)
  {
    assert map[0 := a, 1 := b][0 := c] == map[0 := c, 1 := b];
    assert map[0 := a, 1 := b][1 := c] == map[0 := a, 1 := c];
  }

  /** The first `k` steps of the example lead to `s`. */
  predicate Leads(k: nat, s: State)
    requires k <= 8
  {
    var r := OverlappingRun()[..k];
    IsRun(r) && After(r) == s
  }

  lemma Extends(k: nat, s: State)
    requires k < 8 && Leads(k, s) && Enabled(s, OverlappingRun()[k])
    ensures Leads(k + 1, Next(s, OverlappingRun()[k]))
  {
    var r := OverlappingRun();
    hide OverlappingRun, Next, Enabled;
    RunSnoc(r[..k], r[k]);
    assert r[..k] + [r[k]] == r[..k + 1];
  }

  lemma PairedPhone()
    ensures Leads(2, State(CLOSED, [Phone("t0")], map[], map[]))
  {
    assert Leads(0, INITIAL) by {
      assert OverlappingRun()[..0] == [];
    }
    assert IndexOf([], "d") == None;
    assert [] + [Phone("t0")] == [Phone("t0")];
    hide Leads, IndexOf;
    Extends(0, INITIAL);
    Extends(1, Next(INITIAL, OverlappingRun()[0]));
  }

  lemma Checked()
    ensures Leads(4, Two("t0", map[], RotateChecked("d"), RotateChecked("d")))
  {
    hide Leads, IndexOf;
    PairedPhone();
    OnePhone("t0", "t0");
    var s := State(CLOSED, [Phone("t0")], map[], map[]);
    Extends(2, s);
    Extends(3, Next(s, OverlappingRun()[2]));
  }

  lemma Written()
    ensures Leads(6, Two("t2", map[], ToSend("d", ROTATED, "t1"), ToSend("d", ROTATED, "t2")))
  {
    hide Leads, IndexOf, Updated;
    Checked();
    OnePhone("t0", "t1");
    OnePhone("t1", "t2");
    TwoAt("t1", map[], RotateChecked("d"), RotateChecked("d"), ToSend("d", ROTATED, "t1"));
    TwoAt("t2", map[], ToSend("d", ROTATED, "t1"), RotateChecked("d"), ToSend("d", ROTATED, "t2"));
    Extends(4, Two("t0", map[], RotateChecked("d"), RotateChecked("d")));
    Extends(5, Two("t1", map[], ToSend("d", ROTATED, "t1"), RotateChecked("d")));
  }

  lemma Queued()
    ensures var events := [Event(ROTATED, "d", 2.0, "t2"), Event(ROTATED, "d", 2.0, "t1")];
            Leads(8, Two("t2", map["d" := events], Idle, Idle))
  {
    hide Leads;
    Written();
    var e2, e1 := Event(ROTATED, "d", 2.0, "t2"), Event(ROTATED, "d", 2.0, "t1");
    var s := Two("t2", map[], ToSend("d", ROTATED, "t1"), ToSend("d", ROTATED, "t2"));
    assert Enqueued(map[], e2) == map["d" := [e2]] by { assert [] + [e2] == [e2]; }
    assert Enqueued(map["d" := [e2]], e1) == map["d" := [e2, e1]] by { assert [e2] + [e1] == [e2, e1]; }
    hide Leads, Enqueued;
    TwoAt("t2", map["d" := [e2]], ToSend("d", ROTATED, "t1"), ToSend("d", ROTATED, "t2"), Idle);
    TwoAt("t2", map["d" := [e2, e1]], ToSend("d", ROTATED, "t1"), Idle, Idle);
    Extends(6, s);
    Extends(7, Two("t2", map["d" := [e2]], ToSend("d", ROTATED, "t1"), Idle));
  }

  /** A failing run, every event delivered in order: here the store accepts the second
      token while the last event announces the first, which no longer verifies. */
  lemma OverlappingRotationsMislead()
    ensures IsRun(OverlappingRun())
    ensures TokenOf(After(OverlappingRun()).devices, "d") == Some("t2")
    ensures PendingFor(After(OverlappingRun()).pending, "d")
            == [Event(ROTATED, "d", 2.0, "t2"), Event(ROTATED, "d", 2.0, "t1")]
    ensures FoundByToken(After(OverlappingRun()).devices, "t1").None?
  {
    Queued();
    OnePhone("t2", "t2");
    assert OverlappingRun()[..8] == OverlappingRun();
    assert Phone("t2").token == "t2" && "t1" != "t2" by { assert "t1"[1] != "t2"[1]; }
    hide OverlappingRun, IsRun, After, IndexOf;
  }
}
