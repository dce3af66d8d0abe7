/** The time stamps of the manifests against the calendar (tool/src/ascmhl.rs and the civil
    arithmetic it calls): successive days are successive dates, and a stamp reads back. */
module Calendar {
  import opened Prelude
  import opened Positional
  import opened Numerals

  // ---------------------------------------------------------------------------------------
  // The Gregorian calendar
  // ---------------------------------------------------------------------------------------

  datatype Date = Date(year: nat, month: nat, day: nat)

  predicate Leap(year: nat) {
    year % 4 == 0 && (year % 100 != 0 || year % 400 == 0)
  }

  function MonthLength(year: nat, month: nat): nat {
    match month
    case 2 => if Leap(year) then 29 else 28
    case 4 => 30
    case 6 => 30
    case 9 => 30
    case 11 => 30
    case _ => 31
  }

  function NextDate(t: Date): Date {
    if t.day < MonthLength(t.year, t.month) then t.(day := t.day + 1)
    else if t.month < 12 then Date(t.year, t.month + 1, 1)
    else Date(t.year + 1, 1, 1)
  }

  /** The date `days` days after 1970-01-01. */
  function DateAfter(days: nat): Date {
    if days == 0 then Date(1970, 1, 1) else NextDate(DateAfter(days - 1))
  }

  // ---------------------------------------------------------------------------------------
  // Years and months that start in March
  // ---------------------------------------------------------------------------------------

  /** The first day of year `y` of an era of 400 years, as centuries, fours and single years. */
  function YearStart(c: nat, q: nat, u: nat): nat {
    36_524 * c + 1461 * q + 365 * u
  }

  /** A year of an era, with its last day: the leap day ends a fourth year, but for three
      centuries out of four. */
  predicate YearOfEra(c: nat, q: nat, u: nat) {
    c < 4 && q < 25 && u < 4
  }

  function LastDay(c: nat, q: nat, u: nat): nat {
    if u == 3 && (q < 24 || c == 3) then 365 else 364
  }

  lemma Mod4(k: nat, r: nat)
    requires r < 4
    ensures (4 * k + r) % 4 == r
  {
  }

  lemma Mod100(k: nat, r: nat)
    requires r < 100
    ensures (100 * k + r) % 100 == r
  {
  }

  lemma Mod400(k: nat, r: nat)
    requires r < 400
    ensures (400 * k + r) % 400 == r
  {
  }

  lemma LeapDay(era: nat, c: nat, q: nat, u: nat)
    requires YearOfEra(c, q, u)
    ensures LastDay(c, q, u) == 365 <==> Leap(400 * era + 100 * c + 4 * q + u + 1)
  {
    hide Leap;
    var y := 400 * era + 100 * c + 4 * q + u + 1;
    if u < 3 {
      Mod4(100 * era + 25 * c + q, u + 1);
      LeapBy(y, u + 1, y % 100, y % 400);
    } else {
      Mod4(100 * era + 25 * c + q + 1, 0);
      if q < 24 {
        Mod100(4 * era + c, 4 * q + 4);
        LeapBy(y, 0, 4 * q + 4, y % 400);
      } else {
        Mod100(4 * era + c + 1, 0);
        Mod400(if c < 3 then era else era + 1, if c < 3 then 100 * (c + 1) else 0);
        LeapBy(y, 0, 0, if c < 3 then 100 * (c + 1) else 0);
      }
    }
  }

  lemma LeapBy(y: nat, r4: nat, r100: nat, r400: nat)
    requires y % 4 == r4 && y % 100 == r100 && y % 400 == r400
    ensures Leap(y) <==> r4 == 0 && (r100 != 0 || r400 == 0)
  {
  }

  /** Every day of an era lies in a year of it. */
  lemma YearOf(doe: nat) returns (c: nat, q: nat, u: nat, v: nat)
    requires doe < 146_097
    ensures YearOfEra(c, q, u) && v <= LastDay(c, q, u) && doe == YearStart(c, q, u) + v
  {
    c := if doe == 146_096 then 3 else doe / 36_524;
    var r := doe - 36_524 * c;
    q := r / 1461;
    var t := r - 1461 * q;
    u := if t == 1460 then 3 else t / 365;
    v := t - 365 * u;
  }

  /** The source's year of a day of an era is the one it lies in. */
  lemma YearFormula(c: nat, q: nat, u: nat, v: nat)
    requires YearOfEra(c, q, u) && v <= LastDay(c, q, u)
    ensures var doe := YearStart(c, q, u) + v;
            doe < 146_097 && (doe - doe / 1460 + doe / 36_524 - doe / 146_096) / 365 == 100 * c + 4 * q + u
  {
    var doe := YearStart(c, q, u) + v;
    var w := if 24 * c + q + 365 * u + v >= 1460 then 1 else 0;
    assert doe == 1460 * (25 * c + q) + (24 * c + q + 365 * u + v);
    assert doe / 1460 == 25 * c + q + w;
    var last := if doe == 146_096 then 1 else 0;
    assert doe / 146_096 == last;
    Centuries(c, q, u, v);
    assert doe / 36_524 == c + last;
    assert doe - doe / 1460 + doe / 36_524 - doe / 146_096 == 365 * (100 * c + 4 * q + u) + (v - w);
    assert 0 <= v - w < 365;
  }

  lemma Centuries(c: nat, q: nat, u: nat, v: nat)
    requires YearOfEra(c, q, u) && v <= LastDay(c, q, u)
    ensures var doe := YearStart(c, q, u) + v; doe / 36_524 == c + if doe == 146_096 then 1 else 0
  {
    var doe := YearStart(c, q, u) + v;
    var r := 1461 * q + 365 * u + v;
    assert doe == 36_524 * c + r && r <= 36_524;
    assert r == 36_524 ==> c == 3;
  }

  /** The date of day `v` of the year that starts in March of `y`. */
  function MarchDate(y: nat, v: nat): Date
    requires v < 366
  {
    var mp := (5 * v + 2) / 153;
    var d := v - (153 * mp + 2) / 5 + 1;
    if mp < 10 then Date(y, mp + 3, d) else Date(y + 1, mp - 9, d)
  }

  function CivilDate(days: nat): Date {
    var (y, m, d) := CivilFromDays(days);
    Date(y, m, d)
  }

  lemma YearStartOfYear(c: nat, q: nat, u: nat)
    requires YearOfEra(c, q, u)
    ensures var y := 100 * c + 4 * q + u; 365 * y + y / 4 - y / 100 == YearStart(c, q, u)
  {
    var y := 100 * c + 4 * q + u;
    assert y / 4 == 25 * c + q;
    assert y / 100 == c;
  }

  lemma CivilIsMarchDate(days: nat, era: nat, c: nat, q: nat, u: nat, v: nat)
    requires YearOfEra(c, q, u) && v <= LastDay(c, q, u)
    requires days + 719_468 == 146_097 * era + YearStart(c, q, u) + v
    ensures CivilDate(days) == MarchDate(400 * era + 100 * c + 4 * q + u, v)
  {
    hide YearStart, MarchDate, CivilFromDays;
    YearFormula(c, q, u, v);
    YearStartOfYear(c, q, u);
    CivilByEra(days, era, YearStart(c, q, u) + v, 100 * c + 4 * q + u, v);
    LastDayIs(c, q, u);
  }

  /** The source's arithmetic, once the era, the year in it and the day in that are known. */
  lemma CivilByEra(days: nat, era: nat, doe: nat, y: nat, v: nat)
    requires doe < 146_097 && days + 719_468 == 146_097 * era + doe && v < 366
    requires (doe - doe / 1460 + doe / 36_524 - doe / 146_096) / 365 == y
    requires doe == 365 * y + y / 4 - y / 100 + v
    ensures CivilDate(days) == MarchDate(400 * era + y, v)
  {
    EraOf(days + 719_468, era, doe);
  }

  lemma EraOf(z: nat, era: nat, doe: nat)
    requires doe < 146_097 && z == 146_097 * era + doe
    ensures z / 146_097 == era
  {
  }

  lemma LastDayIs(c: nat, q: nat, u: nat)
    ensures LastDay(c, q, u) == 364 || LastDay(c, q, u) == 365
  {
  }

  // ---------------------------------------------------------------------------------------
  // Successive days
  // ---------------------------------------------------------------------------------------

  lemma NextInYear(y: nat, v: nat)
    requires v < 365 && (v == 364 ==> Leap(y + 1))
    ensures MarchDate(y, v + 1) == NextDate(MarchDate(y, v))
  {
    var mp := (5 * v + 2) / 153;
    var first, next := (153 * mp + 2) / 5, (153 * mp + 155) / 5;
    hide Leap;
    assert 0 <= mp < 12 && first <= v < next;
    MonthLengths(y, mp);
    assert (5 * (v + 1) + 2) / 153 == if v + 1 < next then mp else mp + 1;
  }

  lemma MonthLengths(y: nat, mp: nat)
    requires mp < 12
    ensures var m := if mp < 10 then mp + 3 else mp - 9;
            mp < 11 ==> (153 * mp + 155) / 5 - (153 * mp + 2) / 5 == MonthLength(y, m)
    ensures mp == 11 ==> (153 * mp + 2) / 5 == 337
  {
    hide Leap;
  }

  lemma NextYear(y: nat, v: nat)
    requires v == if Leap(y + 1) then 365 else 364
    ensures MarchDate(y + 1, 0) == NextDate(MarchDate(y, v))
  {
    hide Leap;
  }

  /** The era, the year in it and the day in that, of every day. */
  lemma DayOfEra(days: nat) returns (era: nat, c: nat, q: nat, u: nat, v: nat)
    ensures YearOfEra(c, q, u) && v <= LastDay(c, q, u)
    ensures days + 719_468 == 146_097 * era + YearStart(c, q, u) + v
  {
    hide YearStart, LastDay, YearOfEra;
    var z := days + 719_468;
    era := z / 146_097;
    c, q, u, v := YearOf(z % 146_097);
  }

  lemma CivilNext(days: nat)
    ensures CivilDate(days + 1) == NextDate(CivilDate(days))
  {
    hide MarchDate, NextDate, LastDay, CivilDate, Leap, YearOfEra, YearStart;
    var era, c, q, u, v := DayOfEra(days);
    CivilIsMarchDate(days, era, c, q, u, v);
    LeapDay(era, c, q, u);
    var y := 400 * era + 100 * c + 4 * q + u;
    LastDayIs(c, q, u);
    if v < LastDay(c, q, u) {
      CivilIsMarchDate(days + 1, era, c, q, u, v + 1);
      NextInYear(y, v);
    } else {
      var era', c', q', u' := Following(era, c, q, u);
      CivilIsMarchDate(days + 1, era', c', q', u', 0);
      NextYear(y, v);
    }
  }

  /** The year after a year of an era. */
  lemma Following(era: nat, c: nat, q: nat, u: nat) returns (era': nat, c': nat, q': nat, u': nat)
    requires YearOfEra(c, q, u)
    ensures YearOfEra(c', q', u')
    ensures 146_097 * era' + YearStart(c', q', u') == 146_097 * era + YearStart(c, q, u) + LastDay(c, q, u) + 1
    ensures 400 * era' + 100 * c' + 4 * q' + u' == 400 * era + 100 * c + 4 * q + u + 1
  {
    hide LastDay, YearStart;
    LastDayShort(c, q, u);
    if u < 3 {
      era', c', q', u' := era, c, q, u + 1;
      YearStartNext(c, q, u);
    } else if q < 24 {
      era', c', q', u' := era, c, q + 1, 0;
      YearStartNext(c, q, u);
    } else {
      YearStartCentury(c);
      if c < 3 {
        era', c', q', u' := era, c + 1, 0, 0;
      } else {
        era', c', q', u' := era + 1, 0, 0, 0;
      }
    }
  }

  lemma YearStartNext(c: nat, q: nat, u: nat)
    ensures YearStart(c, q, u + 1) == YearStart(c, q, u) + 365
    ensures u == 3 ==> YearStart(c, q + 1, 0) == YearStart(c, q, u) + 366
  {
  }

  lemma YearStartCentury(c: nat)
    ensures YearStart(c + 1, 0, 0) == YearStart(c, 24, 3) + 365
    ensures YearStart(0, 0, 0) == 0 && YearStart(4, 0, 0) == 146_096
  {
    assert 36_524 * (c + 1) == 36_524 * c + 36_524;
    assert 1461 * 24 + 365 * 3 + 365 == 36_524;
  }

  lemma LastDayShort(c: nat, q: nat, u: nat)
    requires YearOfEra(c, q, u)
    ensures LastDay(c, q, u) == if u < 3 then 364 else if q < 24 || c == 3 then 365 else 364
  {
  }

  lemma Epoch()
    ensures CivilDate(0) == DateAfter(0)
  {
    hide CivilDate;
    CivilByEra(0, 4, 135_080, 369, 306);
  }

  /** The source's civil date of a day is the Gregorian date that many days after 1970-01-01. */
  lemma {:induction false} CivilIsCalendar(days: nat)
    ensures CivilDate(days) == DateAfter(days)
  {
    hide NextDate, CivilDate;
    if days == 0 {
      Epoch();
    } else {
      CivilIsCalendar(days - 1);
      CivilNext(days - 1);
    }
  }

  // ---------------------------------------------------------------------------------------
  // Stamps
  // ---------------------------------------------------------------------------------------

  predicate RealDate(t: Date) {
    1 <= t.month <= 12 && 1 <= t.day <= MonthLength(t.year, t.month)
  }

  lemma {:induction false} DatesAreReal(days: nat)
    ensures RealDate(DateAfter(days))
  {
    hide Leap;
    if days > 0 {
      DatesAreReal(days - 1);
    }
  }

  /** The six numerals of a stamp. */
  datatype Fields = Fields(year: string, month: string, day: string, hour: string, minute: string, second: string)

  /** A decimal numeral of `n` with so many digits, or more only if it needs them. */
  ghost predicate Spells(s: string, n: nat, width: nat) {
    && (forall c :: c in s ==> IsDecDigit(c)) && Value(10, CharDigits(s)) == n
    && |s| >= width && (n < Pow(10, width) ==> |s| == width)
  }

  /** The numerals of a date and of a time of day in seconds. */
  ghost predicate FieldsOf(f: Fields, t: Date, secs: nat) {
    && Spells(f.year, t.year, 4) && Spells(f.month, t.month, 2) && Spells(f.day, t.day, 2)
    && exists h: nat, m: nat, s: nat :: TimeOf(f, h, m, s, secs)
  }

  ghost predicate TimeOf(f: Fields, h: nat, m: nat, s: nat, secs: nat) {
    && m < 60 && s < 60 && 3600 * h + 60 * m + s == secs
    && Spells(f.hour, h, 2) && Spells(f.minute, m, 2) && Spells(f.second, s, 2)
  }

  lemma PaddedSpells(width: nat, n: nat)
    requires width > 0
    ensures Spells(Padded(10, width, n), n, width)
  {
    hide Value, Pow, Padded;
    PaddedDigits(width, n);
    PaddedValue(10, width, n);
    if n < Pow(10, width) {
      PaddedWidth(width, n);
    }
  }

  function StampFields(unix: nat): Fields {
    var t, secs := CivilDate(unix / 86_400), unix % 86_400;
    Fields(Padded(10, 4, t.year), Padded(10, 2, t.month), Padded(10, 2, t.day),
           Padded(10, 2, secs / 3600), Padded(10, 2, secs % 3600 / 60), Padded(10, 2, secs % 60))
  }

  /** A stamp spells the date that many days after the epoch and the seconds of that day. */
  lemma StampReads(unix: nat)
    ensures var f := StampFields(unix);
            && FieldsOf(f, DateAfter(unix / 86_400), unix % 86_400)
            && UtcTimestamp(unix) == f.year + "-" + f.month + "-" + f.day + "T" + f.hour + ":" + f.minute + ":" + f.second + "Z"
            && UtcIso(unix) == f.year + "-" + f.month + "-" + f.day + "T" + f.hour + ":" + f.minute + ":" + f.second + "+00:00"
  {
    hide Padded, Spells, CivilFromDays, CivilDate;
    var t, secs, f := CivilDate(unix / 86_400), unix % 86_400, StampFields(unix);
    CivilIsCalendar(unix / 86_400);
    CivilDateIs(unix / 86_400);
    PaddedSpells(4, t.year);
    PaddedSpells(2, t.month);
    PaddedSpells(2, t.day);
    PaddedSpells(2, secs / 3600);
    PaddedSpells(2, secs % 3600 / 60);
    PaddedSpells(2, secs % 60);
    SecondsOf(secs);
    assert TimeOf(f, secs / 3600, secs % 3600 / 60, secs % 60, secs);
    var z := UtcTimestamp(unix);
    var body := f.year + "-" + f.month + "-" + f.day + "T" + f.hour + ":" + f.minute + ":" + f.second;
    assert z == body + "Z";
    assert z[..|z| - 1] == body;
  }

  lemma CivilDateIs(days: nat)
    ensures var (y, m, d) := CivilFromDays(days); CivilDate(days) == Date(y, m, d)
  {
    hide CivilFromDays;
  }

  lemma SecondsOf(secs: nat)
    ensures 3600 * (secs / 3600) + 60 * (secs % 3600 / 60) + secs % 60 == secs && secs % 3600 / 60 < 60
  {
    assert secs == 3600 * (secs / 3600) + secs % 3600;
    assert secs % 3600 % 60 == secs % 60;
  }

  lemma {:induction false} ColonsGone(a: string, b: string)
    requires ':' !in a
    ensures RemoveColons(a + b) == a + RemoveColons(b)
  {
    if a != "" {
      ColonsGone(a[1..], b);
      assert (a + b)[1..] == a[1..] + b && [a[0]] + a[1..] == a;
    } else {
      assert a + b == b;
    }
  }

  lemma ClockColons(h: string, m: string, s: string)
    requires ':' !in h && ':' !in m && ':' !in s
    ensures RemoveColons(h + ":" + m + ":" + s) == h + m + s
  {
    hide RemoveColons;
    assert h + ":" + m + ":" + s == h + (":" + (m + (":" + s)));
    ColonsGone(h, ":" + (m + (":" + s)));
    ColonFirst(m + (":" + s));
    ColonsGone(m, ":" + s);
    ColonFirst(s);
    ColonsGone(s, "");
    assert s + "" == s && RemoveColons("") == "" by {
      NoColons();
    }
    assert h + (m + s) == h + m + s;
  }

  lemma ColonFirst(s: string)
    ensures RemoveColons(":" + s) == RemoveColons(s)
  {
    assert (":" + s)[1..] == s;
  }

  lemma NoColons()
    ensures RemoveColons("") == ""
  {
  }

  /** The stamp of a file name is the same date and time without colons exactly up to the year
      9999; later its date is cut off after ten characters. */
  lemma FileStampReads(unix: nat)
    ensures var f := StampFields(unix);
            UtcFilenameStamp(unix) == f.year + "-" + f.month + "-" + f.day + "_" + f.hour + f.minute + f.second + "Z"
            <==> DateAfter(unix / 86_400).year < 10_000
  {
    hide Padded, Spells, CivilFromDays, CivilDate, UtcTimestamp, RemoveColons, StampFields, DateAfter, FieldsOf;
    var f, z := StampFields(unix), UtcTimestamp(unix);
    StampReads(unix);
    FieldWidths(unix, f);
    var date, clock := f.year + "-" + f.month + "-" + f.day, f.hour + ":" + f.minute + ":" + f.second;
    assert z == date + "T" + clock + "Z";
    if |f.year| == 4 {
      assert |date| == 10;
      assert z[..10] == date && z[11..|z| - 1] == clock;
      ClockColons(f.hour, f.minute, f.second);
      assert date + "_" + (f.hour + f.minute + f.second) + "Z" == date + "_" + f.hour + f.minute + f.second + "Z";
    } else {
      var rest := z[11..|z| - 1];
      assert rest[|date| - 11] == z[|date|] == 'T';
      KeepsOthers(rest, 'T');
      var stamp := UtcFilenameStamp(unix);
      assert stamp == z[..10] + "_" + RemoveColons(rest) + "Z";
      assert 'T' in stamp;
      assert 'T' !in f.year + "-" + f.month + "-" + f.day + "_" + f.hour + f.minute + f.second + "Z";
    }
  }

  lemma {:induction false} KeepsOthers(s: string, c: char)
    requires c in s && c != ':'
    ensures c in RemoveColons(s)
  {
    if s[0] != c {
      KeepsOthers(s[1..], c);
    }
  }

  lemma FieldWidths(unix: nat, f: Fields)
    requires FieldsOf(f, DateAfter(unix / 86_400), unix % 86_400)
    ensures |f.year| >= 4 && (|f.year| == 4 <==> DateAfter(unix / 86_400).year < 10_000) && |f.month| == |f.day| == 2
    ensures ':' !in f.hour && ':' !in f.minute && ':' !in f.second
    ensures 'T' !in f.year && 'T' !in f.month && 'T' !in f.day && 'T' !in f.hour && 'T' !in f.minute && 'T' !in f.second
  {
    hide Value, Pow, Leap, DateAfter;
    DatesAreReal(unix / 86_400);
    TenPowers();
    if |f.year| == 4 {
      FourDigits(f.year, DateAfter(unix / 86_400).year);
    }
  }

  lemma FourDigits(s: string, n: nat)
    requires Spells(s, n, 4) && |s| == 4
    ensures n < 10_000
  {
    hide Pow, Value;
    TenPowers();
    forall i | 0 <= i < 4
      ensures CharDigits(s)[i] < 10
    {
      assert s[i] in s;
    }
    ValueBound(10, CharDigits(s));
  }

  lemma TenPowers()
    ensures Pow(10, 2) == 100 && Pow(10, 4) == 10_000
  {
    assert Pow(10, 2) == 10 * Pow(10, 1) && Pow(10, 1) == 10 * Pow(10, 0);
    assert Pow(10, 4) == 10 * Pow(10, 3) && Pow(10, 3) == 10 * Pow(10, 2);
  }
}
