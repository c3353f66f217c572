/**
 * The Siebel timestamp formatter: Joda-Time's pattern "M/d/y H:m:s" bound to a
 * fixed zone seven hours behind UTC.  Month, day, hour, minute and second are
 * one or two digits, the year one to nine digits; every digit run is read
 * greedily, the whole text must be consumed, and every field must be in range
 * for the ISO chronology (a day that does not exist in its month is refused).
 */
module SiebelFormat {
  import opened Options
  import opened Scan
  import opened Calendar

  /** The zone the pattern is read in: UTC-7, a fixed offset with no daylight saving. */
  const OFFSET_MILLIS: int := -25_200_000

  /** The wall-clock fields of a Siebel timestamp, or None when the text does not match the pattern. */
  function ParseLocal(s: string): (r: Option<DateTime>)
    ensures r.Some? ==> Valid(r.value) && r.value.milli == 0 && r.value.year >= 0
  {
    var month :- Number(s, 1, 2);
    var s1 :- Literal(month.rest, '/');
    var day :- Number(s1, 1, 2);
    var s2 :- Literal(day.rest, '/');
    var year :- Number(s2, 1, 9);
    var s3 :- Literal(year.rest, ' ');
    var hour :- Number(s3, 1, 2);
    var s4 :- Literal(hour.rest, ':');
    var minute :- Number(s4, 1, 2);
    var s5 :- Literal(minute.rest, ':');
    var second :- Number(s5, 1, 2);
    var dt := FieldsOf(month.digits, day.digits, year.digits, hour.digits, minute.digits, second.digits);
    if second.rest == [] && Valid(dt) then Some(dt) else None
  }

  /** The absolute instant, in epoch milliseconds, that a Siebel timestamp denotes. */
  function Parse(s: string): (r: Option<int>)
    ensures r.Some? <==> ParseLocal(s).Some?
    // Wall-clock time in UTC-7 is seven hours behind the instant.
    ensures r.Some? ==> r.value == EpochMillis(ParseLocal(s).value) + 7 * MILLIS_PER_HOUR
  {
    var local :- ParseLocal(s);
    Some(EpochMillis(local) - OFFSET_MILLIS)
  }

  /** The pattern has no fraction of a second and the zone is a whole number of seconds, so every instant read is a whole second. */
  lemma WholeSecondInstants(s: string)
    ensures Parse(s).Some? ==> Parse(s).value % MILLIS_PER_SECOND == 0
  {
    ParseShifts(s);
    if ParseLocal(s).Some? {
      ShiftWholeSeconds(ParseLocal(s).value, Parse(s).value);
    }
  }

  /** A date-time on a whole second, shifted by the zone's offset, is still on a whole second. */
  lemma ShiftWholeSeconds(dt: DateTime, ms: int)
    requires 1 <= dt.month <= 12 && dt.milli == 0
    requires ms == EpochMillis(dt) + 25_200_000
    ensures ms % MILLIS_PER_SECOND == 0
  {
    WholeSeconds(dt);
    assert ms == EpochMillis(dt) + 25_200 * MILLIS_PER_SECOND;
  }

  /** The text made of six digit runs joined by the pattern's separators. */
  function Join(mo: string, d: string, y: string, h: string, mi: string, sec: string): string {
    mo + ("/" + (d + ("/" + (y + (" " + (h + (":" + (mi + (":" + sec)))))))))
  }

  /** Digit runs of the lengths the pattern reads: one to nine digits for the year, one or two for the rest. */
  predicate Runs(mo: string, d: string, y: string, h: string, mi: string, sec: string) {
    AllDigits(mo) && AllDigits(d) && AllDigits(y) && AllDigits(h) && AllDigits(mi) && AllDigits(sec)
    && 1 <= |mo| <= 2 && 1 <= |d| <= 2 && 1 <= |y| <= 9 && 1 <= |h| <= 2 && 1 <= |mi| <= 2 && 1 <= |sec| <= 2
  }

  /** The wall-clock fields that six digit runs denote. */
  function FieldsOf(mo: string, d: string, y: string, h: string, mi: string, sec: string): DateTime
    requires Runs(mo, d, y, h, mi, sec)
  {
    DateTime(ValueOf(y), ValueOf(mo), ValueOf(d), ValueOf(h), ValueOf(mi), ValueOf(sec), 0)
  }

  /** Text in the pattern is accepted exactly when its fields are in range, and then denotes those fields. */
  lemma ParseJoined(mo: string, d: string, y: string, h: string, mi: string, sec: string)
    requires Runs(mo, d, y, h, mi, sec)
    ensures var dt := FieldsOf(mo, d, y, h, mi, sec);
      ParseLocal(Join(mo, d, y, h, mi, sec)) == if Valid(dt) then Some(dt) else None
  {
    var t5 := ":" + sec;
    var t4 := mi + t5;
    var t3 := ":" + t4;
    var t2 := h + t3;
    var t1 := " " + t2;
    var u2 := y + t1;
    var u1 := "/" + u2;
    var v2 := d + u1;
    var v1 := "/" + v2;
    assert Join(mo, d, y, h, mi, sec) == mo + v1;
    ReadNumber(mo, v1, 1, 2);
    ReadLiteral('/', v2);
    ReadNumber(d, u1, 1, 2);
    ReadLiteral('/', u2);
    ReadNumber(y, t1, 1, 9);
    ReadLiteral(' ', t2);
    ReadNumber(h, t3, 1, 2);
    ReadLiteral(':', t4);
    ReadNumber(mi, t5, 1, 2);
    ReadLiteral(':', sec);
    ReadNumber(sec, [], 1, 2);
    assert sec + [] == sec;
  }

  /** Every accepted text is in the pattern: six digit runs and the separators, nothing before or after. */
  lemma ParseSound(s: string)
    requires ParseLocal(s).Some?
    ensures exists mo, d, y, h, mi, sec ::
      Runs(mo, d, y, h, mi, sec) && s == Join(mo, d, y, h, mi, sec)
        && ParseLocal(s).value == FieldsOf(mo, d, y, h, mi, sec)
  {
    var month := Number(s, 1, 2).value;
    var s1 := Literal(month.rest, '/').value;
    var day := Number(s1, 1, 2).value;
    var s2 := Literal(day.rest, '/').value;
    var year := Number(s2, 1, 9).value;
    var s3 := Literal(year.rest, ' ').value;
    var hour := Number(s3, 1, 2).value;
    var s4 := Literal(hour.rest, ':').value;
    var minute := Number(s4, 1, 2).value;
    var s5 := Literal(minute.rest, ':').value;
    var second := Number(s5, 1, 2).value;
    assert second.rest == [];
    assert second.digits + [] == second.digits;
    var mo, d, y, h, mi, sec := month.digits, day.digits, year.digits, hour.digits, minute.digits, second.digits;
    assert s == Join(mo, d, y, h, mi, sec);
    assert Runs(mo, d, y, h, mi, sec);
    assert ParseLocal(s).value == FieldsOf(mo, d, y, h, mi, sec);
  }

  /** The wall-clock times that the pattern can print: valid, at a whole second, in a year of nine digits or fewer. */
  predicate Representable(dt: DateTime) {
    Valid(dt) && dt.milli == 0 && dt.year >= 0
  }

  /** Prints `dt` in the pattern with two-digit fields and an at least four-digit year. */
  function Format(dt: DateTime): string
    requires Representable(dt)
  {
    Join(Padded(dt.month, 2), Padded(dt.day, 2), Padded(dt.year, 4),
      Padded(dt.hour, 2), Padded(dt.minute, 2), Padded(dt.second, 2))
  }

  /** Parsing what Format prints gives back the same wall-clock fields. */
  lemma ParseFormat(dt: DateTime)
    requires Representable(dt)
    ensures ParseLocal(Format(dt)) == Some(dt)
  {
    PaddedWidth(dt.month, 2);
    PaddedWidth(dt.day, 2);
    PaddedWidth(dt.hour, 2);
    PaddedWidth(dt.minute, 2);
    PaddedWidth(dt.second, 2);
    assert dt.year < Pow10(9);
    DecimalLength(dt.year, 9);
    ParseJoined(Padded(dt.month, 2), Padded(dt.day, 2), Padded(dt.year, 4),
      Padded(dt.hour, 2), Padded(dt.minute, 2), Padded(dt.second, 2));
  }

  /** A printed wall-clock time denotes that time at UTC-7, that is, its UTC reading plus seven hours. */
  lemma ParseFormatInstant(dt: DateTime)
    requires Representable(dt)
    ensures Parse(Format(dt)).Some?
    ensures Parse(Format(dt)).value == EpochMillis(dt) + 25200000
  {
    ParseFormat(dt);
    ParseShifts(Format(dt));
  }

  /** Parse fails exactly when the wall-clock fields are refused, and otherwise shifts them by seven hours. */
  lemma ParseShifts(s: string)
    ensures Parse(s).None? <==> ParseLocal(s).None?
    ensures ParseLocal(s).Some? ==>
              Parse(s).Some? && Parse(s).value == EpochMillis(ParseLocal(s).value) + 25200000
  {
  }

  /** The instant of any text in the pattern: refused exactly when its fields are invalid, else their UTC reading plus seven hours. */
  lemma InstantOfJoin(mo: string, d: string, y: string, h: string, mi: string, sec: string)
    requires Runs(mo, d, y, h, mi, sec)
    ensures Parse(Join(mo, d, y, h, mi, sec)).Some? <==> Valid(FieldsOf(mo, d, y, h, mi, sec))
    ensures Parse(Join(mo, d, y, h, mi, sec)).Some? ==>
              Parse(Join(mo, d, y, h, mi, sec)).value == EpochMillis(FieldsOf(mo, d, y, h, mi, sec)) + 25200000
  {
    ParseJoined(mo, d, y, h, mi, sec);
    ParseShifts(Join(mo, d, y, h, mi, sec));
  }

  /** Digit runs need not be padded: "1/2/2013 3:4:5" is accepted. */
  lemma AcceptsUnpadded()
    ensures ParseLocal(Join("1", "2", "2013", "3", "4", "5")) == Some(DateTime(2013, 1, 2, 3, 4, 5, 0))
  {
    assert FieldsOf("1", "2", "2013", "3", "4", "5") == DateTime(2013, 1, 2, 3, 4, 5, 0) by {
      ValueOfFour('2', '0', '1', '3');
      ValueOfTwo('1', '0');
      ValueOfTwo('2', '0');
      ValueOfTwo('3', '0');
      ValueOfTwo('4', '0');
      ValueOfTwo('5', '0');
    }
    ParseJoined("1", "2", "2013", "3", "4", "5");
  }

  /** A month 13 is refused. */
  lemma RejectsMonth13()
    ensures ParseLocal(Join("13", "01", "2013", "00", "00", "00")) == None
  {
    ValueOfTwo('1', '3');
    ParseJoined("13", "01", "2013", "00", "00", "00");
  }

  /** February 29th of a common year is refused. */
  lemma RejectsFebruary29()
    ensures ParseLocal(Join("02", "29", "2013", "00", "00", "00")) == None
  {
    assert FieldsOf("02", "29", "2013", "00", "00", "00") == DateTime(2013, 2, 29, 0, 0, 0, 0) by {
      ValueOfFour('2', '0', '1', '3');
      ValueOfTwo('0', '2');
      ValueOfTwo('2', '9');
      ValueOfTwo('0', '0');
    }
    assert !Valid(DateTime(2013, 2, 29, 0, 0, 0, 0)) by {
      assert !IsLeapYear(2013);
    }
    ParseJoined("02", "29", "2013", "00", "00", "00");
  }

  /** Hour 24 is refused. */
  lemma RejectsHour24()
    ensures ParseLocal(Join("12", "09", "2013", "24", "00", "00")) == None
  {
    ValueOfTwo('2', '4');
    ParseJoined("12", "09", "2013", "24", "00", "00");
  }
}
