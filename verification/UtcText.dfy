/** The text of an epoch: "YYYY-MM-DD HH:MM:SS" in UTC. */
module UtcText {
  import opened CivilDate
  import opened Decimal

  datatype Time = Time(date: Date, hour: nat, minute: nat, second: nat)

  predicate ValidTime(t: Time) {
    ValidDate(t.date) && t.hour < 24 && t.minute < 60 && t.second < 60
  }

  /** Seconds from the epoch to a time. */
  function EpochOf(t: Time): int
    requires ValidTime(t)
  {
    86400 * DayNumber(t.date) + 3600 * t.hour + 60 * t.minute + t.second
  }

  /** The time of an epoch. Rust's `div_euclid` and `rem_euclid` are Dafny's `/` and `%`. */
  function TimeOf(epoch: int): Time {
    var s := epoch % 86400;
    Time(FromDays(epoch / 86400), s / 3600, s % 3600 / 60, s % 60)
  }

  /** `{:0w}` of a natural number. */
  function Pad(n: nat, w: nat): (s: string)
    ensures s != [] && |s| >= w && forall c | c in s :: IsDigit(c)
  {
    Zeros(if |Render(n)| < w then w - |Render(n)| else 0) + Render(n)
  }

  function Zeros(n: nat): (s: string)
    ensures |s| == n && forall c | c in s :: c == '0'
  {
    seq(n, _ => '0')
  }

  /** `{:04}` of a year: the sign counts towards the width. */
  function PadYear(y: int): (s: string)
    ensures s != []
  {
    if y >= 0 then Pad(y, 4) else "-" + Pad(-y, 3)
  }

  /** `format_utc`. */
  function FormatUtc(epoch: int): string {
    var t := TimeOf(epoch);
    FromDaysIsRight(epoch / 86400);
    PadYear(t.date.year) + Tail(t)
  }

  /** Everything after the year. */
  function Tail(t: Time): string
    requires ValidTime(t)
  {
    "-" + Pad(t.date.month, 2) + "-" + Pad(t.date.day, 2) + " " + Pad(t.hour, 2)
    + ":" + Pad(t.minute, 2) + ":" + Pad(t.second, 2)
  }

  // ----- the time -----

  lemma TimeOfIsRight(epoch: int)
    ensures ValidTime(TimeOf(epoch)) && EpochOf(TimeOf(epoch)) == epoch
  {
    hide FromDays, DayNumber, ValidDate;
    FromDaysIsRight(epoch / 86400);
    Seconds(epoch % 86400);
  }

  lemma Seconds(s: int)
    requires 0 <= s < 86400
    ensures 0 <= s / 3600 < 24 && 0 <= s % 3600 / 60 < 60 && s == 3600 * (s / 3600) + 60 * (s % 3600 / 60) + s % 60
  {
  }

  /** Every valid time is the time of exactly one epoch. */
  lemma EpochOfIsRight(t: Time)
    requires ValidTime(t)
    ensures TimeOf(EpochOf(t)) == t
  {
    hide FromDays, DayNumber, ValidDate;
    DateOfDayNumber(t.date);
    SplitDay(DayNumber(t.date), t.hour, t.minute, t.second);
  }

  lemma SplitDay(days: int, h: nat, m: nat, s: nat)
    requires h < 24 && m < 60 && s < 60
    ensures var e := 86400 * days + 3600 * h + 60 * m + s;
            e / 86400 == days && e % 86400 / 3600 == h && e % 86400 % 3600 / 60 == m && e % 86400 % 60 == s
  {
    var e := 86400 * days + 3600 * h + 60 * m + s;
    assert e / 86400 == days;
    assert e % 86400 == 3600 * h + 60 * m + s;
  }

  // ----- the text -----

  lemma {:induction false} ValueOfZeros(n: nat, s: string)
    requires forall c | c in s :: IsDigit(c)
    ensures (forall c | c in Zeros(n) + s :: IsDigit(c)) && Value(Zeros(n) + s) == Value(s)
    decreases |s| + n
  {
    var z := Zeros(n) + s;
    if s != [] {
      assert z[..|z| - 1] == Zeros(n) + s[..|s| - 1];
      assert s[|s| - 1] in s;
      assert forall c | c in s[..|s| - 1] :: c in s;
      ValueOfZeros(n, s[..|s| - 1]);
    } else if n > 0 {
      assert z[..|z| - 1] == Zeros(n - 1) + s;
      ValueOfZeros(n - 1, s);
    }
  }

  lemma ValueOfPad(n: nat, w: nat)
    ensures Value(Pad(n, w)) == n
  {
    ValueOfRender(n);
    ValueOfZeros(if |Render(n)| < w then w - |Render(n)| else 0, Render(n));
  }

  lemma TwoWide(n: nat)
    requires n < 100
    ensures |Pad(n, 2)| == 2
  {
    assert n >= 10 ==> |Render(n / 10)| == 1;
  }

  function ReadYear(s: string): int
    requires s != [] && forall c | c in s[1..] :: IsDigit(c)
    requires s[0] == '-' || IsDigit(s[0])
  {
    if s[0] == '-' then 0 - Value(s[1..]) else Value(s)
  }

  lemma YearReadsBack(y: int)
    ensures var s := PadYear(y);
            (forall c | c in s[1..] :: IsDigit(c)) && (s[0] == '-' || IsDigit(s[0])) && ReadYear(s) == y
  {
    var s := PadYear(y);
    if y >= 0 {
      ValueOfPad(y, 4);
      assert s[0] in s;
      assert forall c | c in s[1..] :: c in s;
    } else {
      ValueOfPad(-y, 3);
      assert s[1..] == Pad(-y, 3);
    }
  }

  /** The places of the fields and separators after the year. */
  predicate LaidOut(s: string, month: string, day: string, hour: string, minute: string, second: string) {
    && |s| == 15 && s[0] == s[3] == '-' && s[6] == ' ' && s[9] == s[12] == ':'
    && s[1..3] == month && s[4..6] == day && s[7..9] == hour && s[10..12] == minute && s[13..15] == second
  }

  lemma TailLayout(t: Time)
    requires ValidTime(t)
    ensures LaidOut(Tail(t), Pad(t.date.month, 2), Pad(t.date.day, 2),
                    Pad(t.hour, 2), Pad(t.minute, 2), Pad(t.second, 2))
  {
    TwoWide(t.date.month);
    TwoWide(t.date.day);
    TwoWide(t.hour);
    TwoWide(t.minute);
    TwoWide(t.second);
    hide Pad, LaidOut;
    Layout(Pad(t.date.month, 2), Pad(t.date.day, 2), Pad(t.hour, 2), Pad(t.minute, 2), Pad(t.second, 2));
  }

  lemma Layout(a: string, b: string, c: string, d: string, e: string)
    requires |a| == |b| == |c| == |d| == |e| == 2
    ensures LaidOut("-" + a + "-" + b + " " + c + ":" + d + ":" + e, a, b, c, d, e)
  {
  }

  lemma {:induction false} RenderLength(n: nat, w: nat, limit: nat)
    requires w > 0 && limit == Tens(w) && n < limit
    ensures |Render(n)| <= w
    decreases w
  {
    if n >= 10 {
      RenderLength(n / 10, w - 1, Tens(w - 1));
    }
  }

  function Tens(w: nat): nat {
    if w == 0 then 1 else 10 * Tens(w - 1)
  }

  /** For the years 0 to 9999 the text is "YYYY-MM-DD HH:MM:SS": nineteen characters with the separators in
      their places, and the digits between them are those of the fields. */
  lemma TextLayout(epoch: int)
    requires 0 <= TimeOf(epoch).date.year <= 9999
    ensures var s, t := FormatUtc(epoch), TimeOf(epoch);
            && |s| == 19 && s[4] == s[7] == '-' && s[10] == ' ' && s[13] == s[16] == ':'
            && Spells(s[..4], t.date.year) && Spells(s[5..7], t.date.month) && Spells(s[8..10], t.date.day)
            && Spells(s[11..13], t.hour) && Spells(s[14..16], t.minute) && Spells(s[17..], t.second)
  {
    var t := TimeOf(epoch);
    TimeOfIsRight(epoch);
    var year, tail := PadYear(t.date.year), Tail(t);
    assert FormatUtc(epoch) == year + tail;
    assert Tens(4) == 10 * (10 * (10 * (10 * Tens(0))));
    RenderLength(t.date.year, 4, 10000);
    assert |year| == 4;
    TailLayout(t);
    PadSpells(t.date.year, 4);
    PadSpells(t.date.month, 2);
    PadSpells(t.date.day, 2);
    PadSpells(t.hour, 2);
    PadSpells(t.minute, 2);
    PadSpells(t.second, 2);
    hide *;
    PlacesInText(year, tail, Pad(t.date.month, 2), Pad(t.date.day, 2),
                 Pad(t.hour, 2), Pad(t.minute, 2), Pad(t.second, 2));
  }

  /** The string is digits whose value is the number. */
  predicate Spells(s: string, n: nat) {
    (forall c | c in s :: IsDigit(c)) && Value(s) == n
  }

  lemma PadSpells(n: nat, w: nat)
    ensures Spells(Pad(n, w), n)
  {
    ValueOfPad(n, w);
  }

  lemma PlacesInText(year: string, tail: string, month: string, day: string,
                     hour: string, minute: string, second: string)
    requires |year| == 4 && LaidOut(tail, month, day, hour, minute, second)
    ensures var s := year + tail;
            && |s| == 19 && s[4] == s[7] == '-' && s[10] == ' ' && s[13] == s[16] == ':'
            && s[..4] == year && s[5..7] == month && s[8..10] == day
            && s[11..13] == hour && s[14..16] == minute && s[17..] == second
  {
    var s := year + tail;
    assert forall i, j | 0 <= i <= j <= 15 :: s[4 + i..4 + j] == tail[i..j];
    assert s[5..7] == tail[1..3] && s[8..10] == tail[4..6] && s[11..13] == tail[7..9];
    assert s[14..16] == tail[10..12] && s[17..] == tail[13..15];
  }

  /** The text determines the epoch, for years of any size and sign. */
  lemma TextDeterminesEpoch(e: int, f: int)
    ensures FormatUtc(e) == FormatUtc(f) ==> e == f
  {
    if FormatUtc(e) == FormatUtc(f) {
      SameText(e, f);
    }
  }

  lemma SameText(e: int, f: int)
    requires FormatUtc(e) == FormatUtc(f)
    ensures e == f
  {
    var t, u := TimeOf(e), TimeOf(f);
    TimeOfIsRight(e);
    TimeOfIsRight(f);
    TailLayout(t);
    TailLayout(u);
    var s := FormatUtc(e);
    var n := |s| - 15;
    assert s[..n] == PadYear(t.date.year) == PadYear(u.date.year);
    assert s[n..] == Tail(t) == Tail(u);
    YearReadsBack(t.date.year);
    YearReadsBack(u.date.year);
    ValueOfPad(t.date.month, 2); ValueOfPad(u.date.month, 2);
    ValueOfPad(t.date.day, 2); ValueOfPad(u.date.day, 2);
    ValueOfPad(t.hour, 2); ValueOfPad(u.hour, 2);
    ValueOfPad(t.minute, 2); ValueOfPad(u.minute, 2);
    ValueOfPad(t.second, 2); ValueOfPad(u.second, 2);
  }
}
