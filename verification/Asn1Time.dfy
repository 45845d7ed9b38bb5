/** The two ASN.1 time texts: YYMMDDHHMM[SS] and YYYYMMDDHHMM[SS][.f], each with a zone. */
module Asn1Time {
  import opened Calendar
  import opened Chars
  import opened Wrappers

  datatype Kind = Utc | Generalized

  /** Years a two-digit year can stand for. */
  predicate UtcYear(y: int) { 1950 <= y <= 2049 }

  // ----- reading -----

  /** Two digits at `i` that are not the end of the text and lie between `lo` and `hi`. */
  function Pair(s: string, i: nat, lo: nat, hi: nat): (r: Option<nat>)
    ensures r.Some? ==> i + 2 < |s| && lo <= r.value <= hi && IsDigit(s[i]) && IsDigit(s[i + 1])
  {
    if i + 2 < |s| && IsDigit(s[i]) && IsDigit(s[i + 1]) then
      var n := (s[i] - '0') as nat * 10 + (s[i + 1] - '0') as nat;
      if lo <= n <= hi then Some(n) else None
    else None
  }

  function Year(kind: Kind, s: string): Option<int> {
    var a := Pair(s, 0, 0, 99);
    if a.None? then None
    else if kind.Utc? then Some(if a.value < 50 then 2000 + a.value else 1900 + a.value)
    else
      var b := Pair(s, 2, 0, 99);
      if b.None? then None else Some(a.value * 100 + b.value)
  }

  function YearLength(kind: Kind): nat { if kind.Utc? then 2 else 4 }

  predicate IsZone(c: char) { c == 'Z' || c == '+' || c == '-' }

  function SkipDigits(s: string, i: nat): (j: nat)
    requires i <= |s|
    ensures i <= j <= |s|
    ensures forall k :: i <= k < j ==> IsDigit(s[k])
    decreases |s| - i
  {
    if i < |s| && IsDigit(s[i]) then SkipDigits(s, i + 1) else i
  }

  /** Position after an optional fraction of a second. */
  function SkipFraction(kind: Kind, strict: bool, s: string, i: nat): (r: Option<nat>)
    requires i < |s|
    ensures r.Some? ==> i <= r.value < |s|
    ensures r.Some? ==> forall k :: i <= k < r.value ==> IsDigit(s[k]) || s[k] == '.'
  {
    if kind.Generalized? && s[i] == '.' then
      if strict || i + 1 == |s| then None
      else
        var j := SkipDigits(s, i + 1);
        if j == i + 1 || j == |s| then None else Some(j)
    else Some(i)
  }

  /** Seconds east of Greenwich named by the zone, which must end the text. */
  function Zone(strict: bool, s: string, i: nat): Option<int>
    requires i < |s|
  {
    if s[i] == 'Z' then
      if i + 1 == |s| then Some(0) else None
    else if !strict && (s[i] == '+' || s[i] == '-') && |s| == i + 5 then
      // The last pair ends the text, so it is read from the text with a character added.
      var h := Pair(s + "Z", i + 1, 0, 12);
      var m := Pair(s + "Z", i + 3, 0, 59);
      if h.None? || m.None? then None
      else
        var seconds := h.value * 3600 + m.value * 60;
        Some(if s[i] == '+' then seconds else -seconds)
    else None
  }

  /** A parsed time: the written fields and the zone offset. */
  datatype Parsed = Parsed(tm: Tm, offset: int)

  function Parse(kind: Kind, strict: bool, s: string): Option<Parsed> {
    var o := YearLength(kind);
    var y := Year(kind, s);
    var mo := Pair(s, o, 1, 12);
    if y.None? || mo.None? then None
    else
      var d := Pair(s, o + 2, 1, 31);
      var h := Pair(s, o + 4, 0, 23);
      var mi := Pair(s, o + 6, 0, 59);
      if d.None? || d.value > MonthDays(y.value, mo.value) || h.None? || mi.None? then None
      else
        var noSeconds := !strict && IsZone(s[o + 8]);
        var sec := if noSeconds then Some(0) else Pair(s, o + 8, 0, 59);
        if sec.None? then None
        else
          var f := SkipFraction(kind, strict, s, if noSeconds then o + 8 else o + 10);
          if f.None? then None
          else
            var z := Zone(strict, s, f.value);
            var tm := Tm(y.value, mo.value, d.value, h.value, mi.value, sec.value);
            if z.None? then None else Some(Parsed(tm, z.value))
  }

  // ----- the time line -----

  /** Seconds on one line for all times; a zone east of Greenwich is earlier. */
  function Instant(p: Parsed): int { Seconds(p.tm) - p.offset }

  /** A time in another zone is moved to Greenwich only when a time is asked for, not when a text is checked;
      the moved time must stay in the years 1900 to 9999. */
  predicate Converts(p: Parsed) { p.offset == 0 || 1900 <= JulianYear(Instant(p) / DAY) <= 9999 }

  const FIRST := FIRST_DAY * DAY

  const END := END_DAY * DAY

  // ----- the checks and the printer -----

  predicate UtcCheck(s: string) { Parse(Utc, false, s).Some? }

  predicate GeneralizedCheck(s: string) { Parse(Generalized, false, s).Some? }

  /** The expiry check of the load loop: either text will do, the short one first. */
  function ReadTime(s: string): Option<Parsed> {
    if UtcCheck(s) then Parse(Utc, false, s) else Parse(Generalized, false, s)
  }

  predicate TimeCheck(s: string) { ReadTime(s).Some? }

  function Tens(n: nat): char
    requires n < 100
  {
    '0' + (n / 10) as char
  }

  function Ones(n: nat): char {
    '0' + (n % 10) as char
  }

  function Digits(t: Tm): (s: string)
    requires ValidTm(t)
  {
    [Tens(t.month), Ones(t.month), Tens(t.day), Ones(t.day), Tens(t.hour), Ones(t.hour),
     Tens(t.minute), Ones(t.minute), Tens(t.second), Ones(t.second)]
  }

  /** The clock's text: the short form while two digits can name the year. */
  function Print(t: Tm): string
    requires ValidTm(t) && 0 <= t.year <= 9999
  {
    var yy := [Tens(t.year % 100), Ones(t.year % 100)];
    if UtcYear(t.year) then yy + Digits(t) + "Z"
    else [Tens(t.year / 100), Ones(t.year / 100)] + yy + Digits(t) + "Z"
  }

  /** The text stored for an end date given by the user in the strict form. */
  function StrictText(s: string): Option<string> {
    var u, g := Parse(Utc, true, s), Parse(Generalized, true, s);
    if u.Some? then Some(s)
    else if g.Some? then Some(if UtcYear(g.value.tm.year) then s[2..] else s)
    else None
  }

  // ----- proofs -----

  lemma PairReads(s: string, i: nat, n: nat, lo: nat, hi: nat)
    requires n < 100 && i + 2 < |s| && s[i] == Tens(n) && s[i + 1] == Ones(n)
    ensures Pair(s, i, lo, hi) == if lo <= n <= hi then Some(n) else None
  {
  }

  /** The ten digits of month to second, wherever they stand, read back. */
  lemma DigitsRead(s: string, o: nat, t: Tm)
    requires ValidTm(t) && o + 10 < |s|
    requires forall i :: 0 <= i < 10 ==> s[o + i] == Digits(t)[i]
    ensures Pair(s, o, 1, 12) == Some(t.month) && Pair(s, o + 2, 1, 31) == Some(t.day)
    ensures Pair(s, o + 4, 0, 23) == Some(t.hour) && Pair(s, o + 6, 0, 59) == Some(t.minute)
    ensures Pair(s, o + 8, 0, 59) == Some(t.second)
  {
    var d := Digits(t);
    assert s[o] == d[0] && s[o + 1] == d[1] && s[o + 2] == d[2] && s[o + 3] == d[3] && s[o + 4] == d[4];
    assert s[o + 5] == d[5] && s[o + 6] == d[6] && s[o + 7] == d[7] && s[o + 8] == d[8] && s[o + 9] == d[9];
    PairReads(s, o, t.month, 1, 12);
    PairReads(s, o + 2, t.day, 1, 31);
    PairReads(s, o + 4, t.hour, 0, 23);
    PairReads(s, o + 6, t.minute, 0, 59);
    PairReads(s, o + 8, t.second, 0, 59);
  }

  lemma ShortForm(t: Tm)
    requires ValidTm(t) && UtcYear(t.year)
    ensures Parse(Utc, false, Print(t)) == Some(Parsed(t, 0))
  {
    var s := Print(t);
    assert |s| == 13 && s[12] == 'Z' && forall i :: 0 <= i < 10 ==> s[2 + i] == Digits(t)[i];
    PairReads(s, 0, t.year % 100, 0, 99);
    DigitsRead(s, 2, t);
    assert IsDigit(s[10]);
  }

  lemma LongForm(t: Tm)
    requires ValidTm(t) && 0 <= t.year <= 9999 && !UtcYear(t.year)
    ensures Parse(Generalized, false, Print(t)) == Some(Parsed(t, 0))
    ensures !UtcCheck(Print(t))
  {
    var s := Print(t);
    assert |s| == 15 && s[14] == 'Z' && forall i :: 0 <= i < 10 ==> s[4 + i] == Digits(t)[i];
    PairReads(s, 0, t.year / 100, 0, 99);
    PairReads(s, 2, t.year % 100, 0, 99);
    DigitsRead(s, 4, t);
    assert IsDigit(s[12]) && IsDigit(s[10]);
  }

  /** The clock's text passes the expiry check and names the time it was printed from. */
  lemma PrintReadsBack(t: Tm)
    requires ValidTm(t) && 0 <= t.year <= 9999
    ensures ReadTime(Print(t)) == Some(Parsed(t, 0))
  {
    if UtcYear(t.year) { ShortForm(t); } else { LongForm(t); }
  }

  /** The clock's text is a UTCTime exactly from 1950 to 2049. */
  lemma PrintIsUtcExactly(t: Tm)
    requires ValidTm(t) && 0 <= t.year <= 9999
    ensures UtcCheck(Print(t)) <==> UtcYear(t.year)
  {
    if UtcYear(t.year) { ShortForm(t); } else { LongForm(t); }
  }

  /** An end date the user may give is stored as text the load check accepts, and names the same time. */
  lemma StrictTextIsChecked(s: string)
    requires StrictText(s).Some?
    ensures ReadTime(StrictText(s).value)
         == if Parse(Utc, true, s).Some? then Parse(Utc, true, s) else Parse(Generalized, true, s)
  {
    var u, g := Parse(Utc, true, s), Parse(Generalized, true, s);
    if u.Some? {
      StrictIsLoose(Utc, s);
    } else {
      StrictIsLoose(Generalized, s);
      if UtcYear(g.value.tm.year) { DropCentury(s); } else { LongIsNotShort(s); }
    }
  }

  lemma StrictIsLoose(kind: Kind, s: string)
    requires Parse(kind, true, s).Some?
    ensures Parse(kind, false, s) == Parse(kind, true, s)
  {
    var o := YearLength(kind);
    assert IsDigit(s[o + 8]);
  }

  lemma LongIsNotShort(s: string)
    requires Parse(Generalized, true, s).Some?
    ensures !UtcCheck(s)
  {
    assert IsDigit(s[10]) && IsDigit(s[12]);
  }

  lemma DropCentury(s: string)
    requires Parse(Generalized, true, s).Some? && UtcYear(Parse(Generalized, true, s).value.tm.year)
    ensures Parse(Utc, false, s[2..]) == Parse(Generalized, true, s)
  {
    var t := s[2..];
    forall i: nat, lo: nat, hi: nat ensures Pair(t, i, lo, hi) == Pair(s, i + 2, lo, hi) {
    }
    assert t[12] == s[14] && t[10] == s[12];
  }

  /** What holds of every time that was read. */
  predicate Readable(p: Parsed) { ValidTm(p.tm) && 0 <= p.tm.year <= 9999 && -DAY < p.offset < DAY }

  lemma ReadIsReadable(kind: Kind, strict: bool, s: string)
    requires Parse(kind, strict, s).Some?
    ensures Readable(Parse(kind, strict, s).value)
  {
  }

  /** Readable times begin in the year 0, and those of Greenwich end with the year 9999. */
  lemma ReadableInstants(p: Parsed)
    requires Readable(p)
    ensures Instant(p) > 0 && (p.offset == 0 ==> Instant(p) < END)
  {
    var begin, end := Tm(0, 1, 1, 0, 0, 0), Tm(10000, 1, 1, 0, 0, 0);
    BoundaryDays();
    NewYear(0);
    SecondsFollowTheCalendar(p.tm, end);
    SecondsFollowTheCalendar(p.tm, begin);
    hide Julian;
  }

  /** A time converts exactly when it is one of Greenwich, or falls into the years 1900 to 9999 there. */
  lemma ConvertsExactly(p: Parsed)
    requires Readable(p)
    ensures Converts(p) <==> p.offset == 0 || FIRST <= Instant(p) < END
  {
    ReadableInstants(p);
    FourDigitYears(Instant(p) / DAY);
    hide JulianYear, Julian;
  }

  /** The clock in the years 1900 to 9999. */
  lemma ClockInstants(now: Tm)
    requires ValidTm(now) && 1900 <= now.year <= 9999
    ensures FIRST <= Instant(Parsed(now, 0)) < END
  {
    SecondsFollowTheCalendar(now, Tm(1900, 1, 1, 0, 0, 0));
    SecondsFollowTheCalendar(now, Tm(10000, 1, 1, 0, 0, 0));
    hide Julian;
  }

  const WEST := "99991231235959-0100"

  const WEST_TIME := Parsed(Tm(9999, 12, 31, 23, 59, 59), -3600)

  lemma WestIsRead(s: string)
    requires s == WEST
    ensures GeneralizedCheck(s) && ReadTime(s) == Some(WEST_TIME)
  {
    var z := s + "Z";
    assert Pair(z, 15, 0, 12) == Some(1) && Pair(z, 17, 0, 59) == Some(0);
    assert Zone(false, s, 14) == Some(-3600);
    assert Parse(Generalized, false, s) == Some(WEST_TIME);
  }

  lemma WestOverflows(p: Parsed)
    requires p == WEST_TIME
    ensures Instant(p) >= END && !Converts(p)
  {
    ConvertsExactly(p);
    NewYearsEve(p.tm);
    hide Julian, Converts;
  }

  /** A text that every check accepts and that names no time: in Greenwich the year 10000 has begun. */
  lemma LastSecondOfTheWest()
    ensures TimeCheck(WEST) && GeneralizedCheck(WEST) && ReadTime(WEST) == Some(WEST_TIME)
    ensures Instant(WEST_TIME) >= END && !Converts(WEST_TIME)
  {
    WestIsRead(WEST);
    hide ReadTime, GeneralizedCheck;
    WestOverflows(WEST_TIME);
  }

  /** Accepted times hold nothing but digits, a point and a zone. */
  lemma TimeCharacters(s: string)
    requires TimeCheck(s)
    ensures forall i :: 0 <= i < |s| ==> IsDigit(s[i]) || s[i] == '.' || IsZone(s[i])
  {
    var kind := if UtcCheck(s) then Utc else Generalized;
    ParsedCharacters(kind, s);
  }

  lemma ParsedCharacters(kind: Kind, s: string)
    requires Parse(kind, false, s).Some?
    ensures forall i :: 0 <= i < |s| ==> IsDigit(s[i]) || s[i] == '.' || IsZone(s[i])
  {
    var o := YearLength(kind);
    var start := if IsZone(s[o + 8]) then o + 8 else o + 10;
    var f := SkipFraction(kind, false, s, start).value;
    assert forall i :: 0 <= i < start ==> IsDigit(s[i]);
    assert Zone(false, s, f).Some?;
    if s[f] != 'Z' {
      var z := s + "Z";
      assert forall i :: f + 1 <= i < |s| ==> z[i] == s[i];
    }
  }
}
