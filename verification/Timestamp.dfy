/** The printed UTC timestamp YYYY-MM-DDTHH:MM:SSZ: its width, that it can be
    told apart, and that sorting the text sorts the moments. */
module Timestamp {
  import opened Calendar
  import opened Decimal

  function Concat(pieces: seq<string>): string {
    if pieces == [] then "" else pieces[0] + Concat(pieces[1..])
  }

  /** The pieces of the printed form; `year` is never negative for a clock reading. */
  function Pieces(c: Civil): seq<string>
    requires ValidCivil(c)
  {
    [Padded(c.date.year, 4), "-", Padded(c.date.month, 2), "-", Padded(c.date.day, 2), "T",
     Padded(c.hour, 2), ":", Padded(c.minute, 2), ":", Padded(c.second, 2), "Z"]
  }

  function DayPieces(d: Date): seq<string>
    requires ValidDate(d)
  {
    [Padded(d.year, 4), "-", Padded(d.month, 2), "-", Padded(d.day, 2)]
  }

  /** The calendar day alone, YYYY-MM-DD. */
  function DayText(d: Date): string
    requires ValidDate(d)
  {
    Concat(DayPieces(d))
  }

  /** The timestamp of a second count. */
  function Iso(secs: nat): string {
    CivilFromEpochCounts(secs);
    Concat(Pieces(CivilFromEpoch(secs)))
  }

  /** The day of a second count. */
  function Ymd(secs: nat): string {
    CivilFromEpochCounts(secs);
    DayText(CivilFromEpoch(secs).date)
  }

  /** The first second of the year 10000. */
  const YEAR_10000 := 253402300800

  // ----- Order on fields -----

  predicate MomentBefore(a: Civil, b: Civil) {
    if a.date != b.date then Before(a.date, b.date)
    else if a.hour != b.hour then a.hour < b.hour
    else if a.minute != b.minute then a.minute < b.minute
    else a.second < b.second
  }

  lemma DayOrder(s: nat, t: nat)
    ensures var a, b := CivilFromDays(s), CivilFromDays(t);
            (Before(a, b) <==> s < t) && (a == b <==> s == t)
  {
    hide CivilFromDays, DayNumber;
    CivilFromDaysCounts(s);
    CivilFromDaysCounts(t);
    BeforeIsSmaller(CivilFromDays(s), CivilFromDays(t));
  }

  lemma TimeOrder(p: int, q: int)
    requires 0 <= p < 86400 && 0 <= q < 86400
    ensures p < q <==>
              if p / 3600 != q / 3600 then p / 3600 < q / 3600
              else if (p % 3600) / 60 != (q % 3600) / 60 then (p % 3600) / 60 < (q % 3600) / 60
              else p % 60 < q % 60
  {
    TimeFields(p);
    TimeFields(q);
  }

  /** Civil moments are ordered as their second counts. */
  lemma MomentOrder(s: nat, t: nat)
    ensures MomentBefore(CivilFromEpoch(s), CivilFromEpoch(t)) <==> s < t
  {
    hide CivilFromDays, Before;
    DayOrder(s / 86400, t / 86400);
    TimeOrder(s % 86400, t % 86400);
    DivModOrder(s, t);
  }

  lemma DivModOrder(s: nat, t: nat)
    ensures s < t <==> s / 86400 < t / 86400 || (s / 86400 == t / 86400 && s % 86400 < t % 86400)
  {
  }

  // ----- Order on text -----

  /** Lexicographic on pieces. */
  predicate PiecesLess(a: seq<string>, b: seq<string>)
    requires |a| == |b|
  {
    if a == [] then false
    else LexLess(a[0], b[0]) || (a[0] == b[0] && PiecesLess(a[1..], b[1..]))
  }

  lemma {:induction false} LexPieces(a: seq<string>, b: seq<string>)
    requires |a| == |b| && forall i :: 0 <= i < |a| ==> |a[i]| == |b[i]|
    ensures LexLess(Concat(a), Concat(b)) <==> PiecesLess(a, b)
  {
    if a != [] {
      LexConcat(a[0], Concat(a[1..]), b[0], Concat(b[1..]));
      LexPieces(a[1..], b[1..]);
    }
  }

  predicate ShortYear(c: Civil) {
    ValidCivil(c) && c.date.year < 10000
  }

  lemma FieldText(n: nat, m: nat, w: nat)
    requires (w == 4 && n < 10000 && m < 10000) || (w == 2 && n < 100 && m < 100)
    ensures |Padded(n, w)| == w && |Padded(m, w)| == w
    ensures LexLess(Padded(n, w), Padded(m, w)) <==> n < m
    ensures Padded(n, w) == Padded(m, w) <==> n == m
  {
    assert Pow10(0) == 1 && Pow10(1) == 10 && Pow10(2) == 100 && Pow10(3) == 1000 && Pow10(4) == 10000;
    hide LexLess, Padded, Fixed, Pow10;
    PaddedIsFixed(n, w);
    PaddedIsFixed(m, w);
    FixedOrder(n, m, w);
  }

  lemma PiecesOrder(a: Civil, b: Civil)
    requires ShortYear(a) && ShortYear(b)
    ensures PiecesLess(Pieces(a), Pieces(b)) <==> MomentBefore(a, b)
    ensures forall i :: 0 <= i < 12 ==> |Pieces(a)[i]| == |Pieces(b)[i]|
  {
    hide LexLess, Padded;
    FieldText(a.date.year, b.date.year, 4);
    FieldText(a.date.month, b.date.month, 2);
    FieldText(a.date.day, b.date.day, 2);
    FieldText(a.hour, b.hour, 2);
    FieldText(a.minute, b.minute, 2);
    FieldText(a.second, b.second, 2);
    LexIrreflexive("-");
    LexIrreflexive("T");
    LexIrreflexive(":");
    LexIrreflexive("Z");
    PiecesLessUnfolds(Pieces(a), Pieces(b));
  }

  /** Twelve pieces with equal separators compare field by field. */
  lemma PiecesLessUnfolds(a: seq<string>, b: seq<string>)
    requires |a| == 12 && |b| == 12
    requires forall i :: 0 <= i < 12 && i % 2 == 1 ==> a[i] == b[i] && !LexLess(a[i], b[i])
    ensures PiecesLess(a, b) <==>
              || LexLess(a[0], b[0])
              || (a[0] == b[0] && (LexLess(a[2], b[2])
              || (a[2] == b[2] && (LexLess(a[4], b[4])
              || (a[4] == b[4] && (LexLess(a[6], b[6])
              || (a[6] == b[6] && (LexLess(a[8], b[8])
              || (a[8] == b[8] && LexLess(a[10], b[10]))))))))))
  {
    hide LexLess;
    forall i | 0 <= i < 12
      ensures PiecesLess(a[i..], b[i..]) <==>
          LexLess(a[i], b[i]) || (a[i] == b[i] && PiecesLess(a[i + 1..], b[i + 1..]))
    {
      assert a[i..][1..] == a[i + 1..] && b[i..][1..] == b[i + 1..];
    }
    assert a[0..] == a && b[0..] == b;
    assert a[12..] == [] && b[12..] == [];
    assert PiecesLess(a[10..], b[10..]) <==> LexLess(a[10], b[10]);
    assert PiecesLess(a[8..], b[8..]) <==> LexLess(a[8], b[8]) || (a[8] == b[8] && PiecesLess(a[10..], b[10..]));
    assert PiecesLess(a[6..], b[6..]) <==> LexLess(a[6], b[6]) || (a[6] == b[6] && PiecesLess(a[8..], b[8..]));
    assert PiecesLess(a[4..], b[4..]) <==> LexLess(a[4], b[4]) || (a[4] == b[4] && PiecesLess(a[6..], b[6..]));
    assert PiecesLess(a[2..], b[2..]) <==> LexLess(a[2], b[2]) || (a[2] == b[2] && PiecesLess(a[4..], b[4..]));
  }

  /** The year has at most four digits exactly before the bound. */
  lemma YearBound(secs: nat)
    ensures secs < YEAR_10000 <==> CivilFromEpoch(secs).date.year < 10000
  {
    var last := Date(9999, 12, 31);
    var d := CivilFromEpoch(secs).date;
    LastShortDay();
    hide CivilFromDays, DayNumber, DaysInMonth;
    CivilFromDaysCounts(secs / 86400);
    BeforeIsSmaller(last, d);
    LastDayOfYear(d);
  }

  lemma LastShortDay()
    ensures ValidDate(Date(9999, 12, 31))
    ensures DayNumber(Date(9999, 12, 31)) == 2932896 + EPOCH_DAY
  {
    hide YearsLength, MonthsLength;
    YearsClosed(9999);
    MonthsTable(9999, 12);
  }

  lemma LastDayOfYear(d: Date)
    requires ValidDate(d)
    ensures Before(Date(9999, 12, 31), d) <==> d.year >= 10000
  {
  }

  /** Sorting the text sorts the moments, for every pair of moments before the
      year 10000. */
  lemma IsoOrder(s: nat, t: nat)
    requires s < YEAR_10000 && t < YEAR_10000
    ensures LexLess(Iso(s), Iso(t)) <==> s < t
    ensures Iso(s) == Iso(t) <==> s == t
  {
    hide CivilFromEpoch, MomentBefore, Concat, PiecesLess, Pieces, LexLess;
    CivilFromEpochCounts(s);
    CivilFromEpochCounts(t);
    YearBound(s);
    YearBound(t);
    var a, b := CivilFromEpoch(s), CivilFromEpoch(t);
    PiecesOrder(a, b);
    PiecesOrder(b, a);
    PiecesCount(a);
    PiecesCount(b);
    LexPieces(Pieces(a), Pieces(b));
    LexPieces(Pieces(b), Pieces(a));
    MomentOrder(s, t);
    MomentOrder(t, s);
    LexIrreflexive(Iso(s));
  }

  lemma PiecesCount(c: Civil)
    requires ValidCivil(c)
    ensures |Pieces(c)| == 12
  {
  }

  /** The text has 20 characters exactly while the year has four digits. */
  lemma IsoWidth(secs: nat)
    ensures |Iso(secs)| == 20 <==> secs < YEAR_10000
  {
    CivilFromEpochCounts(secs);
    YearBound(secs);
    var c := CivilFromEpoch(secs);
    hide CivilFromEpoch, Padded;
    PiecesWidth(Pieces(c));
    FieldText(c.date.month, c.date.day, 2);
    FieldText(c.hour, c.minute, 2);
    FieldText(c.second, c.second, 2);
    if c.date.year < 10000 {
      FieldText(c.date.year, c.date.year, 4);
    } else {
      LongYear(c.date.year);
    }
  }

  lemma LongYear(y: nat)
    requires y >= 10000
    ensures |Padded(y, 4)| > 4
  {
    assert Pow10(0) == 1 && Pow10(1) == 10 && Pow10(2) == 100 && Pow10(3) == 1000 && Pow10(4) == 10000;
    DigitsLong(y, 4);
  }

  lemma PiecesWidth(p: seq<string>)
    requires |p| == 12
    ensures |Concat(p)| == |p[0]| + |p[1]| + |p[2]| + |p[3]| + |p[4]| + |p[5]| + |p[6]| + |p[7]| + |p[8]| + |p[9]|
        + |p[10]| + |p[11]|
  {
    forall i | 0 <= i < 12
      ensures |Concat(p[i..])| == |p[i]| + |Concat(p[i + 1..])|
    {
      assert p[i..][1..] == p[i + 1..];
    }
    assert p[0..] == p && p[12..] == [];
    assert |Concat(p[11..])| == |p[11]|;
    assert |Concat(p[10..])| == |p[10]| + |Concat(p[11..])|;
    assert |Concat(p[9..])| == |p[9]| + |Concat(p[10..])|;
    assert |Concat(p[8..])| == |p[8]| + |Concat(p[9..])|;
    assert |Concat(p[7..])| == |p[7]| + |Concat(p[8..])|;
    assert |Concat(p[6..])| == |p[6]| + |Concat(p[7..])|;
    assert |Concat(p[5..])| == |p[5]| + |Concat(p[6..])|;
    assert |Concat(p[4..])| == |p[4]| + |Concat(p[5..])|;
    assert |Concat(p[3..])| == |p[3]| + |Concat(p[4..])|;
    assert |Concat(p[2..])| == |p[2]| + |Concat(p[3..])|;
    assert |Concat(p[1..])| == |p[1]| + |Concat(p[2..])|;
  }

  lemma {:induction false} ConcatInjective(a: seq<string>, b: seq<string>)
    requires |a| == |b| && forall i :: 0 <= i < |a| ==> |a[i]| == |b[i]|
    requires Concat(a) == Concat(b)
    ensures a == b
  {
    if a != [] {
      var x, y := Concat(a), Concat(b);
      assert x[..|a[0]|] == a[0] && y[..|b[0]|] == b[0];
      assert x[|a[0]|..] == Concat(a[1..]) && y[|b[0]|..] == Concat(b[1..]);
      ConcatInjective(a[1..], b[1..]);
      assert a == [a[0]] + a[1..] && b == [b[0]] + b[1..];
    }
  }

  lemma PaddedInjective(n: nat, m: nat, w: nat)
    requires Padded(n, w) == Padded(m, w)
    ensures n == m
  {
    PaddedValue(n, w);
    PaddedValue(m, w);
  }

  /** No two moments share a timestamp, whatever the year. */
  lemma IsoInjective(s: nat, t: nat)
    requires Iso(s) == Iso(t)
    ensures s == t
  {
    CivilFromEpochCounts(s);
    CivilFromEpochCounts(t);
    var a, b := CivilFromEpoch(s), CivilFromEpoch(t);
    hide CivilFromEpoch, Padded;
    PiecesWidth(Pieces(a));
    PiecesWidth(Pieces(b));
    FieldText(a.date.month, b.date.month, 2);
    FieldText(a.date.day, b.date.day, 2);
    FieldText(a.hour, b.hour, 2);
    FieldText(a.minute, b.minute, 2);
    FieldText(a.second, b.second, 2);
    ConcatInjective(Pieces(a), Pieces(b));
    assert Pieces(a)[0] == Pieces(b)[0];
    PaddedInjective(a.date.year, b.date.year, 4);
    assert Pieces(a)[2] == Pieces(b)[2] && Pieces(a)[4] == Pieces(b)[4] && Pieces(a)[6] == Pieces(b)[6]
        && Pieces(a)[8] == Pieces(b)[8] && Pieces(a)[10] == Pieces(b)[10];
    assert a == b;
    EpochRoundTrip(a, s);
    EpochRoundTrip(b, t);
  }

  lemma {:induction false} ConcatAppend(a: seq<string>, b: seq<string>)
    ensures Concat(a + b) == Concat(a) + Concat(b)
  {
    if a == [] {
      assert a + b == b;
    } else {
      assert (a + b)[1..] == a[1..] + b;
      ConcatAppend(a[1..], b);
    }
  }

  lemma DayTextWidth(d: Date)
    requires ValidDate(d)
    ensures |DayText(d)| == |Padded(d.year, 4)| + 6
    ensures |Padded(d.month, 2)| == 2 && |Padded(d.day, 2)| == 2
  {
    var p := DayPieces(d);
    FieldText(d.month, d.day, 2);
    hide Padded;
    assert p[1..][1..] == p[2..] && p[2..][1..] == p[3..] && p[3..][1..] == p[4..] && p[4..][1..] == [];
    assert |Concat(p[4..])| == 2;
    assert |Concat(p[3..])| == 3;
    assert |Concat(p[2..])| == 5;
    assert |Concat(p[1..])| == 6;
  }

  lemma DayTextInjective(a: Date, b: Date)
    requires ValidDate(a) && ValidDate(b) && DayText(a) == DayText(b)
    ensures a == b
  {
    DayTextWidth(a);
    DayTextWidth(b);
    hide Padded, Concat;
    ConcatInjective(DayPieces(a), DayPieces(b));
    assert DayPieces(a)[0] == DayPieces(b)[0] && DayPieces(a)[2] == DayPieces(b)[2]
        && DayPieces(a)[4] == DayPieces(b)[4];
    PaddedInjective(a.year, b.year, 4);
    PaddedInjective(a.month, b.month, 2);
    PaddedInjective(a.day, b.day, 2);
  }

  lemma SameDay(s: nat, t: nat)
    ensures CivilFromEpoch(s).date == CivilFromEpoch(t).date <==> s / 86400 == t / 86400
  {
    hide CivilFromDays;
    DayOrder(s / 86400, t / 86400);
  }

  /** Two second counts print the same day exactly when they fall on the same day. */
  lemma YmdIsDay(s: nat, t: nat)
    ensures Ymd(s) == Ymd(t) <==> s / 86400 == t / 86400
  {
    hide CivilFromEpoch, DayText, ValidDate;
    CivilFromEpochCounts(s);
    CivilFromEpochCounts(t);
    SameDay(s, t);
    if Ymd(s) == Ymd(t) {
      DayTextInjective(CivilFromEpoch(s).date, CivilFromEpoch(t).date);
    }
  }

  /** The printed day starts the printed timestamp. */
  lemma YmdStartsIso(s: nat)
    ensures Ymd(s) + "T" <= Iso(s)
  {
    hide CivilFromEpoch, Padded;
    CivilFromEpochCounts(s);
    var a := CivilFromEpoch(s);
    var p := Pieces(a);
    ConcatAppend(p[..5], p[5..]);
    assert p == p[..5] + p[5..] && p[..5] == DayPieces(a.date) && p[5] == "T";
  }

  /** Where everything stands in a timestamp, and what its digits read as. */
  lemma IsoReads(secs: nat)
    requires secs < YEAR_10000
    ensures var t, c := Iso(secs), CivilFromEpoch(secs);
            && |t| == 20
            && t[4] == '-' && t[7] == '-' && t[10] == 'T' && t[13] == ':' && t[16] == ':' && t[19] == 'Z'
            && Value(t[0..4]) == c.date.year && Value(t[5..7]) == c.date.month && Value(t[8..10]) == c.date.day
            && Value(t[11..13]) == c.hour && Value(t[14..16]) == c.minute && Value(t[17..19]) == c.second
  {
    CivilFromEpochCounts(secs);
    YearBound(secs);
    var c := CivilFromEpoch(secs);
    PiecesRead(c);
    hide CivilFromEpoch, Pieces, Padded, Value, Concat, ValidDate;
    Places(Pieces(c));
  }

  lemma PiecesRead(c: Civil)
    requires ShortYear(c)
    ensures var p := Pieces(c);
            && |p| == 12 && |p[0]| == 4 && (forall i :: 1 <= i < 12 ==> |p[i]| == if i % 2 == 0 then 2 else 1)
            && p[1] == "-" && p[3] == "-" && p[5] == "T" && p[7] == ":" && p[9] == ":" && p[11] == "Z"
            && Value(p[0]) == c.date.year && Value(p[2]) == c.date.month && Value(p[4]) == c.date.day
            && Value(p[6]) == c.hour && Value(p[8]) == c.minute && Value(p[10]) == c.second
  {
    hide Padded, Value;
    FieldText(c.date.year, c.date.year, 4);
    FieldText(c.date.month, c.date.day, 2);
    FieldText(c.hour, c.minute, 2);
    FieldText(c.second, c.second, 2);
    PaddedValue(c.date.year, 4);
    PaddedValue(c.date.month, 2);
    PaddedValue(c.date.day, 2);
    PaddedValue(c.hour, 2);
    PaddedValue(c.minute, 2);
    PaddedValue(c.second, 2);
  }

  /** Where piece `i` starts. */
  function Offset(p: seq<string>, i: nat): nat
    requires i <= |p|
  {
    if i == 0 then 0 else Offset(p, i - 1) + |p[i - 1]|
  }

  lemma {:induction false} OffsetFront(p: seq<string>, i: nat)
    requires 0 < i <= |p|
    ensures Offset(p, i) == |p[0]| + Offset(p[1..], i - 1)
  {
    if i > 1 {
      OffsetFront(p, i - 1);
    }
  }

  lemma {:induction false} PieceAt(p: seq<string>, i: nat)
    requires i < |p|
    ensures Offset(p, i) + |p[i]| <= |Concat(p)|
    ensures Concat(p)[Offset(p, i)..Offset(p, i) + |p[i]|] == p[i]
  {
    if i > 0 {
      PieceAt(p[1..], i - 1);
      OffsetFront(p, i);
      hide Offset;
      var t, o, rest := Concat(p), Offset(p[1..], i - 1), Concat(p[1..]);
      assert t == p[0] + rest && p[1..][i - 1] == p[i];
      assert t[|p[0]| + o..|p[0]| + o + |p[i]|] == rest[o..o + |p[i]|];
    }
  }

  lemma Places(p: seq<string>)
    requires |p| == 12 && |p[0]| == 4 && forall i :: 1 <= i < 12 ==> |p[i]| == if i % 2 == 0 then 2 else 1
    ensures var t := Concat(p);
            && |t| == 20
            && t[0..4] == p[0] && t[5..7] == p[2] && t[8..10] == p[4]
            && t[11..13] == p[6] && t[14..16] == p[8] && t[17..19] == p[10]
            && [t[4]] == p[1] && [t[7]] == p[3] && [t[10]] == p[5]
            && [t[13]] == p[7] && [t[16]] == p[9] && [t[19]] == p[11]
  {
    PiecesWidth(p);
    hide Concat;
    assert Offset(p, 0) == 0 && Offset(p, 1) == 4 && Offset(p, 2) == 5 && Offset(p, 3) == 7;
    assert Offset(p, 4) == 8 && Offset(p, 5) == 10 && Offset(p, 6) == 11 && Offset(p, 7) == 13;
    assert Offset(p, 8) == 14 && Offset(p, 9) == 16 && Offset(p, 10) == 17 && Offset(p, 11) == 19;
    hide Offset;
    forall i | 0 <= i < 12
      ensures Offset(p, i) + |p[i]| <= |Concat(p)| && Concat(p)[Offset(p, i)..Offset(p, i) + |p[i]|] == p[i]
    {
      PieceAt(p, i);
    }
  }
}
