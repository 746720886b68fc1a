/** Self-expiring tracker documents: the month arithmetic, the enforced expiry,
    and the loop of touches, sweeps and bump commits around one document. */
module Tracker {
  import opened Wrappers
  import opened Calendar

  // ----- Date logic -----

  const MAX_YEAR := 9999

  /** A date the date library can hold. */
  predicate DateOk(d: Date) {
    ValidDate(d) && d.year <= MAX_YEAR
  }

  /** One day earlier, by day number. */
  function DayBefore(d: Date): Date
    requires ValidDate(d)
  {
    CivilFromDays(DayNumber(d) - EPOCH_DAY - 1)
  }

  lemma LastDayOfMonth(y: int, m: int)
    requires 1 <= y && 1 <= m < 12
    ensures DayBefore(Date(y, m + 1, 1)) == Date(y, m, DaysInMonth(y, m))
  {
    var last, first := Date(y, m, DaysInMonth(y, m)), Date(y, m + 1, 1);
    assert DayNumber(first) == DayNumber(last) + 1 by {
      hide DaysInMonth, YearsLength;
    }
    hide CivilFromDays, DayNumber, DaysInMonth, YearsLength, MonthsLength;
    CivilRoundTrip(last);
  }

  /** One calendar month later, clamped to the end of the target month; nothing
      when that passes the last representable year. */
  function AddOneMonth(d: Date): (r: Option<Date>)
    requires DateOk(d)
    ensures r.Some? ==> DateOk(r.value)
  {
    var monthIndex := d.month - 1 + 1;
    var year := d.year + monthIndex / 12;
    var month := monthIndex % 12 + 1;
    if year > MAX_YEAR then None
    else
      var lastDay := if month == 12 then 31
                     else (LastDayOfMonth(year, month); DayBefore(Date(year, month + 1, 1)).day);
      Some(Date(year, month, if d.day <= lastDay then d.day else lastDay))
  }

  /** The later of two optional dates. */
  function EffectiveExpiry(recorded: Option<Date>, derived: Option<Date>): Option<Date> {
    match (recorded, derived)
    case (None, d) => d
    case (r, None) => r
    case (Some(r), Some(d)) => if Before(r, d) then derived else recorded
  }

  datatype Status = Live | Warn | Expired

  function Classify(today: Date, expiry: Option<Date>, warnDays: int): Status
    requires ValidDate(today) && (expiry.Some? ==> ValidDate(expiry.value))
  {
    if expiry.None? then Live
    else if Before(expiry.value, today) then Expired
    else if DayNumber(expiry.value) - DayNumber(today) <= warnDays then Warn
    else Live
  }

  /** The month arithmetic in calendar terms: same day of the next month, or its
      last day when that month is shorter; absent only past December 9999. */
  lemma AddOneMonthIs(d: Date)
    requires DateOk(d)
    ensures AddOneMonth(d).None? <==> d.year == 9999 && d.month == 12
    ensures AddOneMonth(d).Some? ==>
              var r := AddOneMonth(d).value;
              && DateOk(r)
              && (r.year, r.month) == (if d.month == 12 then (d.year + 1, 1) else (d.year, d.month + 1))
              && r.day == (if d.day <= DaysInMonth(r.year, r.month) then d.day else DaysInMonth(r.year, r.month))
  {
    hide DayBefore;
    if d.month < 11 {
      LastDayOfMonth(d.year, d.month + 1);
    } else if d.month == 12 && d.year < MAX_YEAR {
      LastDayOfMonth(d.year + 1, 1);
    }
  }

  /** The enforced date is the later of what is written and what is derived, and
      absent only when both are. */
  lemma EffectiveIsLatest(recorded: Option<Date>, derived: Option<Date>)
    requires (recorded.Some? ==> ValidDate(recorded.value)) && (derived.Some? ==> ValidDate(derived.value))
    ensures var r := EffectiveExpiry(recorded, derived);
            && (r.None? <==> recorded.None? && derived.None?)
            && (r.Some? ==> r in {recorded, derived})
            && (r.Some? && recorded.Some? ==> DayNumber(recorded.value) <= DayNumber(r.value))
            && (r.Some? && derived.Some? ==> DayNumber(derived.value) <= DayNumber(r.value))
  {
    hide DayNumber;
    if recorded.Some? && derived.Some? {
      BeforeIsSmaller(recorded.value, derived.value);
    }
  }

  /** The boundaries in days: the date on the tin is still a live day, the window
      opens that many days before it, and deletion starts the day after. */
  lemma ClassifyByDay(today: Date, expiry: Date, warnDays: int)
    requires ValidDate(today) && ValidDate(expiry)
    ensures var left := DayNumber(expiry) - DayNumber(today);
            Classify(today, Some(expiry), warnDays)
            == if left < 0 then Expired else if left <= warnDays then Warn else Live
  {
    hide DayNumber;
    BeforeIsSmaller(expiry, today);
  }

  lemma NextMonthStart(y: int, m: int)
    requires 1 <= y && 1 <= m <= 12
    ensures var (y', m') := if m == 12 then (y + 1, 1) else (y, m + 1);
            DayNumber(Date(y', m', 1)) == DayNumber(Date(y, m, 1)) + DaysInMonth(y, m)
  {
    MonthsTable(y, 12);
  }

  lemma DayOffset(d: Date)
    requires ValidDate(d)
    ensures DayNumber(d) == DayNumber(Date(d.year, d.month, 1)) + d.day - 1
  {
  }

  /** A month is 28 to 31 days. */
  lemma MonthGap(d: Date)
    requires DateOk(d) && AddOneMonth(d).Some?
    ensures 28 <= DayNumber(AddOneMonth(d).value) - DayNumber(d) <= 31
  {
    hide DayNumber, AddOneMonth;
    AddOneMonthIs(d);
    NextMonthStart(d.year, d.month);
    DayOffset(d);
    DayOffset(AddOneMonth(d).value);
  }

  /** A later touch never gives an earlier expiry. */
  lemma AddOneMonthMonotone(a: Date, b: Date)
    requires DateOk(a) && DateOk(b) && !Before(b, a)
    requires AddOneMonth(a).Some? && AddOneMonth(b).Some?
    ensures !Before(AddOneMonth(b).value, AddOneMonth(a).value)
  {
    hide AddOneMonth;
    AddOneMonthIs(a);
    AddOneMonthIs(b);
  }

  // ----- The last human touch -----

  /** One line of the document's history, newest first; no date when the line
      does not carry a readable one. */
  datatype Commit = Commit(date: Option<Date>, bump: bool)

  predicate Counts(c: Commit) {
    !c.bump && c.date.Some?
  }

  function NewestTouch(log: seq<Commit>): Option<Date> {
    if log == [] then None
    else if Counts(log[0]) then log[0].date
    else NewestTouch(log[1..])
  }

  /** The date of the newest commit that is not a bump and has a readable date. */
  method LastTouch(log: seq<Commit>) returns (touch: Option<Date>)
    ensures touch == NewestTouch(log)
    ensures touch.None? <==> forall i :: 0 <= i < |log| ==> !Counts(log[i])
    ensures touch.Some? ==>
              exists i :: 0 <= i < |log| && Counts(log[i]) && log[i].date == touch
                          && forall j :: 0 <= j < i ==> !Counts(log[j])
  {
    for i := 0 to |log|
      invariant forall j :: 0 <= j < i ==> !Counts(log[j])
      invariant NewestTouch(log) == NewestTouch(log[i..])
    {
      if log[i].bump {
        assert log[i..][1..] == log[i + 1..];
        continue;
      }
      if log[i].date.Some? {
        return log[i].date;
      }
      assert log[i..][1..] == log[i + 1..];
    }
    return None;
  }

  // ----- One document -----

  /** The recorded expiry (absent when unreadable), its history, its window. */
  datatype Doc = Doc(recorded: Option<Date>, log: seq<Commit>, warnDays: int)

  /** A touch the month arithmetic is defined on. */
  predicate TouchOk(d: Date) {
    DateOk(d) && !(d.year == MAX_YEAR && d.month == 12)
  }

  predicate DocOk(doc: Doc) {
    && (doc.recorded.Some? ==> DateOk(doc.recorded.value))
    && forall i :: 0 <= i < |doc.log| ==> doc.log[i].date.Some? ==> TouchOk(doc.log[i].date.value)
  }

  lemma {:induction false} TouchIsOk(log: seq<Commit>)
    requires forall i :: 0 <= i < |log| ==> log[i].date.Some? ==> TouchOk(log[i].date.value)
    ensures NewestTouch(log).Some? ==> TouchOk(NewestTouch(log).value)
  {
    if log != [] && !Counts(log[0]) {
      TouchIsOk(log[1..]);
    }
  }

  /** The expiry the history alone gives. */
  function Derived(doc: Doc): (r: Option<Date>)
    requires DocOk(doc)
    ensures r.Some? ==> DateOk(r.value)
  {
    TouchIsOk(doc.log);
    match NewestTouch(doc.log)
    case None => None
    case Some(t) => AddOneMonthIs(t); AddOneMonth(t)
  }

  /** The expiry enforced. */
  function Enforced(doc: Doc): (r: Option<Date>)
    requires DocOk(doc)
    ensures r.Some? ==> DateOk(r.value)
  {
    EffectiveExpiry(doc.recorded, Derived(doc))
  }

  datatype Verdict = Verdict(expiry: Option<Date>, status: Status, needsBump: bool)

  /** What a sweep makes of the document on a day. */
  function Evaluate(doc: Doc, today: Date): Verdict
    requires DocOk(doc) && ValidDate(today)
  {
    var expiry := Enforced(doc);
    var status := Classify(today, expiry, doc.warnDays);
    Verdict(expiry, status, expiry.Some? && doc.recorded != expiry && status != Expired)
  }

  /** The bump step: the enforced expiry is written down in a marked commit. */
  function Swept(doc: Doc, today: Date, committed: Option<Date>): (r: Doc)
    requires DocOk(doc) && ValidDate(today) && (committed.Some? ==> TouchOk(committed.value))
    ensures DocOk(r)
  {
    var v := Evaluate(doc, today);
    if v.needsBump && v.expiry.Some? then
      doc.(recorded := v.expiry, log := [Commit(committed, true)] + doc.log)
    else doc
  }

  // ----- Runs -----

  /** A sweep on a day, or a commit by somebody else, which may rewrite the
      recorded date and may even carry the automation's marker. */
  datatype Event =
    | Sweep(today: Date, committed: Option<Date>)
    | Edit(date: Option<Date>, recorded: Option<Date>, marked: bool)

  predicate EventOk(e: Event) {
    match e
    case Sweep(today, committed) => ValidDate(today) && (committed.Some? ==> TouchOk(committed.value))
    case Edit(date, recorded, _) =>
      (date.Some? ==> TouchOk(date.value)) && (recorded.Some? ==> DateOk(recorded.value))
  }

  function Next(doc: Doc, e: Event): (r: Doc)
    requires DocOk(doc) && EventOk(e)
    ensures DocOk(r)
  {
    match e
    case Sweep(today, committed) => Swept(doc, today, committed)
    case Edit(date, recorded, marked) => doc.(recorded := recorded, log := [Commit(date, marked)] + doc.log)
  }

  predicate EventsOk(es: seq<Event>) {
    forall i :: 0 <= i < |es| ==> EventOk(es[i])
  }

  function Run(doc: Doc, es: seq<Event>): (r: Doc)
    requires DocOk(doc) && EventsOk(es)
    ensures DocOk(r)
  {
    if es == [] then doc else Next(Run(doc, es[..|es| - 1]), es[|es| - 1])
  }

  /** Event `i` of the run is a sweep that commits a bump. */
  predicate Bumps(doc: Doc, es: seq<Event>, i: nat)
    requires DocOk(doc) && EventsOk(es) && i < |es|
  {
    es[i].Sweep? && Evaluate(Run(doc, es[..i]), es[i].today).needsBump
  }

  /** When a sweep writes and what: the enforced date, in one marked commit, if
      that date is not past and not yet the recorded one; else nothing. */
  lemma SweepWrites(doc: Doc, today: Date, committed: Option<Date>)
    requires DocOk(doc) && ValidDate(today) && (committed.Some? ==> TouchOk(committed.value))
    ensures var r, due := Swept(doc, today, committed), Enforced(doc);
            var open := due.Some? && DayNumber(today) <= DayNumber(due.value);
            && (open ==> r.recorded == due)
            && (r != doc <==> open && doc.recorded != due)
            && (r != doc ==> r == Doc(due, [Commit(committed, true)] + doc.log, doc.warnDays))
            && (Evaluate(doc, today).needsBump <==> open && doc.recorded != due)
  {
    if Enforced(doc).Some? {
      BeforeIsSmaller(Enforced(doc).value, today);
    }
    hide DayNumber, Enforced;
  }

  /** What the history alone gives: a month after the newest touch. */
  lemma DerivedIs(doc: Doc, touch: Date)
    requires DocOk(doc) && NewestTouch(doc.log) == Some(touch) && DateOk(touch)
    ensures Derived(doc) == AddOneMonth(touch)
  {
    hide AddOneMonth;
  }

  lemma NothingDerived(doc: Doc)
    requires DocOk(doc)
    ensures Derived(doc).None? <==> NewestTouch(doc.log).None?
  {
    TouchIsOk(doc.log);
    if NewestTouch(doc.log).Some? {
      AddOneMonthIs(NewestTouch(doc.log).value);
    }
    hide AddOneMonth;
  }

  /** What a sweep reports: the later of the recorded and the derived date, and how
      far off that is. */
  lemma SweepReports(doc: Doc, today: Date)
    requires DocOk(doc) && ValidDate(today)
    ensures var v, due := Evaluate(doc, today), Enforced(doc);
            && v.expiry == due
            && (due.None? <==> doc.recorded.None? && Derived(doc).None?)
            && (due.Some? ==> due in {doc.recorded, Derived(doc)})
            && (due.None? ==> v.status == Live)
            && (due.Some? ==>
                  var left := DayNumber(due.value) - DayNumber(today);
                  v.status == if left < 0 then Expired else if left <= doc.warnDays then Warn else Live)
  {
    hide DayNumber, Derived, Classify;
    if Enforced(doc).Some? {
      ClassifyByDay(today, Enforced(doc).value, doc.warnDays);
    } else {
      NothingEnforced(today, doc.warnDays);
    }
  }

  lemma NothingEnforced(today: Date, warnDays: int)
    requires ValidDate(today)
    ensures Classify(today, None, warnDays) == Live
  {
  }

  /** A commit by somebody else is a touch exactly when it is dated and unmarked. */
  lemma EditTouches(doc: Doc, date: Option<Date>, recorded: Option<Date>, marked: bool)
    requires DocOk(doc) && EventOk(Edit(date, recorded, marked))
    ensures var r := Next(doc, Edit(date, recorded, marked));
            && r.recorded == recorded
            && NewestTouch(r.log) == if date.Some? && !marked then date else NewestTouch(doc.log)
  {
    assert ([Commit(date, marked)] + doc.log)[1..] == doc.log;
  }

  /** A bump never changes the enforced expiry, and leaves nothing to bump. */
  lemma BumpIsCosmetic(doc: Doc, today: Date, committed: Option<Date>, later: Date)
    requires DocOk(doc) && ValidDate(today) && ValidDate(later) && (committed.Some? ==> TouchOk(committed.value))
    ensures var r := Swept(doc, today, committed);
            && Enforced(r) == Enforced(doc)
            && Evaluate(r, later).status == Evaluate(doc, later).status
            && (Evaluate(doc, today).needsBump ==> !Evaluate(r, later).needsBump)
  {
    var r := Swept(doc, today, committed);
    if Evaluate(doc, today).needsBump {
      assert r.log[1..] == doc.log;
      assert NewestTouch(r.log) == NewestTouch(doc.log);
    }
  }

  predicate OnlySweeps(es: seq<Event>) {
    forall i :: 0 <= i < |es| ==> es[i].Sweep?
  }

  /** Left untouched, a document cannot renew itself: over any run of sweeps the
      enforced expiry stays the one fixed date, and every sweep after that date,
      and none up to it, finds the document expired. */
  lemma {:induction false} NoSelfRenewal(doc: Doc, es: seq<Event>, today: Date)
    requires DocOk(doc) && EventsOk(es) && OnlySweeps(es) && ValidDate(today)
    ensures Enforced(Run(doc, es)) == Enforced(doc)
    ensures Evaluate(Run(doc, es), today).status == Expired <==>
              Enforced(doc).Some? && DayNumber(Enforced(doc).value) < DayNumber(today)
  {
    if es == [] {
      if Enforced(doc).Some? {
        hide Enforced, DayNumber;
        BeforeIsSmaller(Enforced(doc).value, today);
      }
    } else {
      var init, last := es[..|es| - 1], es[|es| - 1];
      NoSelfRenewal(doc, init, today);
      BumpIsCosmetic(Run(doc, init), last.today, last.committed, today);
    }
  }

  /** After a sweep that finds the document not expired, the recorded date is the
      enforced one until somebody else commits. */
  lemma {:induction false} RecordedIsEnforced(doc: Doc, es: seq<Event>, i: nat, j: nat)
    requires DocOk(doc) && EventsOk(es) && i < j <= |es| && es[i].Sweep?
    requires Evaluate(Run(doc, es[..i]), es[i].today).status != Expired
    requires forall k :: i < k < j ==> es[k].Sweep?
    ensures Run(doc, es[..j]).recorded == Enforced(Run(doc, es[..i]))
    ensures Enforced(Run(doc, es[..j])) == Enforced(Run(doc, es[..i]))
    decreases j
  {
    hide Evaluate, Swept, Run, Enforced, DayNumber, DocOk, ValidDate, TouchOk, NewestTouch, AddOneMonth;
    var e := es[j - 1];
    var before := Run(doc, es[..j - 1]);
    RunStep(doc, es, j);
    BumpIsCosmetic(before, e.today, e.committed, e.today);
    if j == i + 1 {
      SweepReports(before, e.today);
      SweepWrites(before, e.today, e.committed);
    } else {
      RecordedIsEnforced(doc, es, i, j - 1);
      SweepWrites(before, e.today, e.committed);
    }
  }

  /** A touch keeps the document alive: after a dated, unmarked commit no sweep of
      the next 28 days finds it expired, whatever else the sweeps write. */
  lemma {:induction false} TouchKeepsAlive(doc: Doc, es: seq<Event>, i: nat, j: nat, today: Date)
    requires DocOk(doc) && EventsOk(es) && i < j <= |es| && ValidDate(today)
    requires es[i].Edit? && es[i].date.Some? && !es[i].marked && ValidDate(es[i].date.value)
    requires forall k :: i < k < j ==> es[k].Sweep?
    requires DayNumber(today) - DayNumber(es[i].date.value) <= 28
    ensures Evaluate(Run(doc, es[..j]), today).status != Expired
    decreases j
  {
    RunStep(doc, es, j);
    var before := Run(doc, es[..j - 1]);
    if j == i + 1 {
      EditTouches(before, es[i].date, es[i].recorded, es[i].marked);
      hide Evaluate, Swept, Run, Enforced, DayNumber, AddOneMonth;
      RecentTouchIsLive(Run(doc, es[..j]), today);
    } else {
      TouchKeepsAlive(doc, es, i, j - 1, today);
      BumpIsCosmetic(before, es[j - 1].today, es[j - 1].committed, today);
      hide Evaluate, Swept, Run, Enforced, DayNumber;
    }
  }

  /** After a bump at event `i`, sweeps alone never bump again. */
  lemma {:induction false} SettledAfterBump(doc: Doc, es: seq<Event>, i: nat, j: nat, today: Date)
    requires DocOk(doc) && EventsOk(es) && i < j <= |es| && Bumps(doc, es, i) && ValidDate(today)
    requires forall k :: i < k < j ==> es[k].Sweep?
    ensures !Evaluate(Run(doc, es[..j]), today).needsBump
    decreases j
  {
    var e := es[j - 1];
    var before := Run(doc, es[..j - 1]);
    assert es[..j][..j - 1] == es[..j - 1] && es[..j][j - 1] == e;
    hide Evaluate, Swept, Run;
    assert Run(doc, es[..j]) == Swept(before, e.today, e.committed) by {
      RunStep(doc, es, j);
    }
    if j == i + 1 {
      BumpIsCosmetic(before, e.today, e.committed, today);
    } else {
      SettledAfterBump(doc, es, i, j - 1, e.today);
      SettledAfterBump(doc, es, i, j - 1, today);
      IdleSweep(before, e.today, e.committed);
    }
  }

  lemma RunStep(doc: Doc, es: seq<Event>, j: nat)
    requires DocOk(doc) && EventsOk(es) && 0 < j <= |es|
    ensures Run(doc, es[..j]) == Next(Run(doc, es[..j - 1]), es[j - 1])
  {
    assert es[..j][..j - 1] == es[..j - 1];
  }

  lemma IdleSweep(doc: Doc, today: Date, committed: Option<Date>)
    requires DocOk(doc) && ValidDate(today) && (committed.Some? ==> TouchOk(committed.value))
    requires !Evaluate(doc, today).needsBump
    ensures Swept(doc, today, committed) == doc
  {
  }

  /** The renewal loop is broken: over every run, between two bumps there is a
      commit by somebody else. */
  lemma BumpsAreSeparated(doc: Doc, es: seq<Event>, i: nat, j: nat)
    requires DocOk(doc) && EventsOk(es) && i < j < |es| && Bumps(doc, es, i) && Bumps(doc, es, j)
    ensures exists k :: i < k < j && es[k].Edit?
  {
    if forall k :: i < k < j ==> es[k].Sweep? {
      SettledAfterBump(doc, es, i, j, es[j].today);
      assert false;
    }
  }

  /** A document last touched at most 28 days ago is never expired, whatever is
      recorded; the bound is a whole February. */
  lemma RecentTouchIsLive(doc: Doc, today: Date)
    requires DocOk(doc) && ValidDate(today) && NewestTouch(doc.log).Some?
    requires ValidDate(NewestTouch(doc.log).value)
    requires DayNumber(today) - DayNumber(NewestTouch(doc.log).value) <= 28
    ensures Evaluate(doc, today).status != Expired
  {
    var t := NewestTouch(doc.log).value;
    TouchIsOk(doc.log);
    hide DayNumber, AddOneMonth, NewestTouch;
    AddOneMonthIs(t);
    MonthGap(t);
    var d := AddOneMonth(t).value;
    assert Derived(doc) == Some(d);
    BeforeIsSmaller(d, today);
    if doc.recorded.Some? {
      BeforeIsSmaller(doc.recorded.value, today);
      BeforeIsSmaller(doc.recorded.value, d);
    }
  }

  /** And without a later recorded date, one untouched for 32 days always is. */
  lemma StaleTouchExpires(doc: Doc, today: Date)
    requires DocOk(doc) && ValidDate(today) && NewestTouch(doc.log).Some?
    requires ValidDate(NewestTouch(doc.log).value)
    requires DayNumber(today) - DayNumber(NewestTouch(doc.log).value) >= 32
    requires doc.recorded.Some? && Derived(doc).Some? ==> !Before(Derived(doc).value, doc.recorded.value)
    ensures Evaluate(doc, today).status == Expired
  {
    var t := NewestTouch(doc.log).value;
    TouchIsOk(doc.log);
    hide DayNumber, AddOneMonth, NewestTouch;
    AddOneMonthIs(t);
    MonthGap(t);
    var d := AddOneMonth(t).value;
    assert Derived(doc) == Some(d);
    BeforeIsSmaller(d, today);
    if doc.recorded.Some? {
      BeforeIsSmaller(doc.recorded.value, d);
      BeforeIsSmaller(d, doc.recorded.value);
    }
  }
}
