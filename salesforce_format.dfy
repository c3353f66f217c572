/**
 * The Salesforce timestamp formatter, Joda-Time's ISO 8601 date-time parser,
 * restricted to the "internet date-time" profile of section 5.6 of RFC 3339:
 * YYYY-MM-DDThh:mm:ss, an optional fraction of a second, and a zone
 * designator that is either "Z" or a signed "hh:mm" offset.  Like Joda-Time,
 * the fraction may have up to nine digits and is truncated to milliseconds.
 */
module SalesforceFormat {
  import opened Options
  import opened Scan
  import opened Calendar

  /** The largest offset magnitude an "hh:mm" designator can carry: 23:59. */
  const MAX_OFFSET_MINUTES: int := 23 * 60 + 59

  /** A wall-clock date-time and the offset from UTC, in minutes, that the text names for it. */
  datatype Stamp = Stamp(local: DateTime, offsetMinutes: int)

  /** An offset from UTC read from the front of a text, and the text that follows it. */
  datatype Zone = Zone(minutes: int, rest: string)

  /** Milliseconds denoted by the digits of a fraction of a second: the first three digits, right-padded with zeros. */
  function MillisOf(ds: string): (ms: nat)
    requires AllDigits(ds)
    ensures ms < 1000
  {
    var padded := ds + "000";
    assert AllDigits(padded[..3]);
    ValueOf(padded[..3])
  }

  /** The optional fraction of a second: "." and one to nine digits, or nothing (which yields no digits). */
  function Fraction(s: string): (r: Option<Token>)
    ensures r.Some? ==> AllDigits(r.value.digits) && |r.value.digits| <= 9
  {
    if |s| > 0 && s[0] == '.' then Number(s[1..], 1, 9) else Some(Token([], s))
  }

  /** A magnitude in minutes with the sign a designator gives it: negative after '-', positive otherwise. */
  function Signed(sign: char, magnitude: int): int {
    if sign == '-' then -magnitude else magnitude
  }

  /** The zone designator: "Z" for UTC, or a sign, two-digit hours up to 23, ":" and two-digit minutes up to 59. */
  function Offset(s: string): (r: Option<Zone>)
    ensures r.Some? ==> -MAX_OFFSET_MINUTES <= r.value.minutes <= MAX_OFFSET_MINUTES
  {
    if |s| > 0 && s[0] == 'Z' then Some(Zone(0, s[1..]))
    else if |s| > 0 && (s[0] == '+' || s[0] == '-') then
      var hh :- Number(s[1..], 2, 2);
      var s1 :- Literal(hh.rest, ':');
      var mm :- Number(s1, 2, 2);
      var hours, minutes := ValueOf(hh.digits), ValueOf(mm.digits);
      if hours <= 23 && minutes <= 59 then
        var magnitude := hours * 60 + minutes;
        Some(Zone(Signed(s[0], magnitude), mm.rest))
      else None
    else None
  }

  /** Digit runs of the lengths the profile prescribes: four for the year, two for every other field. */
  predicate Runs(y: string, mo: string, d: string, h: string, mi: string, sec: string) {
    AllDigits(y) && AllDigits(mo) && AllDigits(d) && AllDigits(h) && AllDigits(mi) && AllDigits(sec)
    && |y| == 4 && |mo| == 2 && |d| == 2 && |h| == 2 && |mi| == 2 && |sec| == 2
  }

  /** The wall-clock fields that the digit runs and the fraction digits denote. */
  function FieldsOf(y: string, mo: string, d: string, h: string, mi: string, sec: string, frac: string): DateTime
    requires Runs(y, mo, d, h, mi, sec) && AllDigits(frac)
  {
    DateTime(ValueOf(y), ValueOf(mo), ValueOf(d), ValueOf(h), ValueOf(mi), ValueOf(sec), MillisOf(frac))
  }

  /** Three digit runs joined by a separator, followed by `rest`: how "YYYY-MM-DD" and "hh:mm:ss" are written. */
  function Glue(a: string, b: string, c: string, sep: char, rest: string): string {
    a + ([sep] + (b + ([sep] + (c + rest))))
  }

  /** Three digit runs read from the front of a text, and the text that follows them. */
  datatype Triple = Triple(first: string, second: string, third: string, rest: string)

  /**
   * Three digit runs of widths `width`, 2 and 2, separated by `sep`: the date
   * element "YYYY-MM-DD" or the time element "hh:mm:ss".
   */
  function Element(s: string, width: nat, sep: char): (r: Option<Triple>)
    ensures r.Some? ==>
              s == Glue(r.value.first, r.value.second, r.value.third, sep, r.value.rest)
              && AllDigits(r.value.first) && AllDigits(r.value.second) && AllDigits(r.value.third)
              && |r.value.first| == width && |r.value.second| == 2 && |r.value.third| == 2
  {
    var a :- Number(s, width, width);
    var s1 :- Literal(a.rest, sep);
    var b :- Number(s1, 2, 2);
    var s2 :- Literal(b.rest, sep);
    var c :- Number(s2, 2, 2);
    Some(Triple(a.digits, b.digits, c.digits, c.rest))
  }

  /** The date-time fields and zone offset of a Salesforce timestamp, or None when the text does not conform. */
  function ParseStamp(s: string): (r: Option<Stamp>)
    ensures r.Some? ==> Valid(r.value.local) && 0 <= r.value.local.year <= 9999
                        && -MAX_OFFSET_MINUTES <= r.value.offsetMinutes <= MAX_OFFSET_MINUTES
  {
    var date :- Element(s, 4, '-');
    var s1 :- Literal(date.rest, 'T');
    var time :- Element(s1, 2, ':');
    Tail(date, time)
  }

  /**
   * What follows the seconds: an optional fraction, the zone designator and
   * nothing else; the fields read so far must then form a valid date-time.
   */
  function Tail(date: Triple, time: Triple): (r: Option<Stamp>)
    requires Runs(date.first, date.second, date.third, time.first, time.second, time.third)
    ensures r.Some? ==> Valid(r.value.local) && 0 <= r.value.local.year <= 9999
                        && -MAX_OFFSET_MINUTES <= r.value.offsetMinutes <= MAX_OFFSET_MINUTES
  {
    var fraction :- Fraction(time.rest);
    var zone :- Offset(fraction.rest);
    var local := FieldsOf(date.first, date.second, date.third, time.first, time.second, time.third, fraction.digits);
    if zone.rest == [] && Valid(local) then Some(Stamp(local, zone.minutes)) else None
  }

  /** The absolute instant, in epoch milliseconds, that a Salesforce timestamp denotes: its fields less its offset. */
  function Parse(s: string): (r: Option<int>)
    ensures r.Some? <==> ParseStamp(s).Some?
  {
    var st :- ParseStamp(s);
    Some(EpochMillis(st.local) - st.offsetMinutes * MILLIS_PER_MINUTE)
  }

  /** The text made of the six digit runs joined by the profile's separators, followed by `tail`. */
  function Join(y: string, mo: string, d: string, h: string, mi: string, sec: string, tail: string): string {
    Glue(y, mo, d, '-', "T" + Glue(h, mi, sec, ':', tail))
  }

  /** How a fraction with the given digits is written: nothing when there are none. */
  function FractionText(frac: string): string {
    if frac == [] then [] else "." + frac
  }

  /** The canonical designator of an offset: "Z" for zero, a signed "hh:mm" otherwise. */
  function ZoneText(minutes: int): string
    requires -MAX_OFFSET_MINUTES <= minutes <= MAX_OFFSET_MINUTES
  {
    if minutes == 0 then "Z"
    else
      var magnitude := if minutes < 0 then -minutes else minutes;
      [if minutes < 0 then '-' else '+'] + (Padded(magnitude / 60, 2) + (":" + Padded(magnitude % 60, 2)))
  }

  lemma ReadFraction(frac: string, rest: string)
    requires AllDigits(frac) && |frac| <= 9
    requires frac == [] ==> rest == [] || rest[0] != '.'
    requires frac != [] && |frac| < 9 ==> rest == [] || !IsDigit(rest[0])
    ensures Fraction(FractionText(frac) + rest) == Some(Token(frac, rest))
  {
    if frac == [] {
      assert FractionText(frac) + rest == rest;
    } else {
      assert (FractionText(frac) + rest)[1..] == frac + rest;
      ReadNumber(frac, rest, 1, 9);
    }
  }

  /** Reading back a canonical designator gives the offset it was printed from, with nothing left over. */
  lemma ReadOffset(minutes: int)
    requires -MAX_OFFSET_MINUTES <= minutes <= MAX_OFFSET_MINUTES
    ensures Offset(ZoneText(minutes)).Some? && Offset(ZoneText(minutes)).value == Zone(minutes, [])
  {
    if minutes == 0 {
      assert ZoneText(minutes)[1..] == [];
    } else {
      var magnitude := if minutes < 0 then -minutes else minutes;
      var hours, rest := magnitude / 60, magnitude % 60;
      assert hours * 60 + rest == magnitude && hours <= 23;
      ReadSignedOffset(if minutes < 0 then '-' else '+', hours, rest);
    }
  }

  /** Reading back a sign, two-digit hours, ":" and two-digit minutes. */
  lemma ReadSignedOffset(sign: char, hours: nat, minutes: nat)
    requires sign == '+' || sign == '-'
    requires hours <= 23 && minutes <= 59
    ensures var r := Offset([sign] + (Padded(hours, 2) + (":" + Padded(minutes, 2))));
      r.Some? && r.value == Zone(Signed(sign, hours * 60 + minutes), [])
  {
    var hh, mm := Padded(hours, 2), Padded(minutes, 2);
    var s := [sign] + (hh + (":" + mm));
    PaddedWidth(hours, 2);
    PaddedWidth(minutes, 2);
    assert s[1..] == hh + (":" + mm);
    ReadNumber(hh, ":" + mm, 2, 2);
    ReadLiteral(':', mm);
    assert mm + [] == mm;
    ReadNumber(mm, [], 2, 2);
  }

  /**
   * The designators Offset accepts with nothing after them are the canonical
   * ones that ZoneText prints, and the two spellings of a zero offset with a sign.
   */
  lemma OffsetSound(z: string)
    requires Offset(z).Some? && Offset(z).value.rest == []
    ensures z == ZoneText(Offset(z).value.minutes) || z == "+00:00" || z == "-00:00"
  {
    if z[0] == 'Z' {
      assert z == [z[0]] + z[1..];
      assert z == ZoneText(0);
    } else {
      var sign, hh, mm := SignedOffsetParts(z);
      SignedOffsetText(sign, hh, mm);
    }
  }

  /** Two-digit hours and minutes after a sign spell ZoneText of their signed value, or a signed zero. */
  lemma SignedOffsetText(sign: char, hh: string, mm: string)
    requires sign == '+' || sign == '-'
    requires AllDigits(hh) && AllDigits(mm) && |hh| == 2 && |mm| == 2
    requires ValueOf(hh) <= 23 && ValueOf(mm) <= 59
    ensures var magnitude: int := ValueOf(hh) * 60 + ValueOf(mm);
      var text := [sign] + (hh + (":" + mm));
      text == ZoneText(Signed(sign, magnitude)) || text == "+00:00" || text == "-00:00"
  {
    if ValueOf(hh) == 0 && ValueOf(mm) == 0 {
      SignedZero(sign, hh, mm);
    } else {
      SignedNonZero(sign, hh, mm);
    }
  }

  /** Hours and minutes that are both zero can only be spelt "00:00". */
  lemma SignedZero(sign: char, hh: string, mm: string)
    requires sign == '+' || sign == '-'
    requires AllDigits(hh) && AllDigits(mm) && |hh| == 2 && |mm| == 2
    requires ValueOf(hh) == 0 && ValueOf(mm) == 0
    ensures [sign] + (hh + (":" + mm)) == "+00:00" || [sign] + (hh + (":" + mm)) == "-00:00"
  {
    ValueOfTwo('0', '0');
    ValueOfInjective(hh, "00");
    ValueOfInjective(mm, "00");
  }

  /** Two-digit hours and minutes that are not both zero are spelt as ZoneText spells their signed value. */
  lemma SignedNonZero(sign: char, hh: string, mm: string)
    requires sign == '+' || sign == '-'
    requires AllDigits(hh) && AllDigits(mm) && |hh| == 2 && |mm| == 2
    requires ValueOf(hh) <= 23 && ValueOf(mm) <= 59 && 0 < ValueOf(hh) * 60 + ValueOf(mm)
    ensures [sign] + (hh + (":" + mm)) == ZoneText(Signed(sign, ValueOf(hh) * 60 + ValueOf(mm)))
  {
    var hours, minutes := ValueOf(hh), ValueOf(mm);
    var magnitude: int := hours * 60 + minutes;
    PaddedWidth(hours, 2);
    PaddedWidth(minutes, 2);
    ValueOfInjective(Padded(hours, 2), hh);
    ValueOfInjective(Padded(minutes, 2), mm);
    assert magnitude / 60 == hours && magnitude % 60 == minutes;
    SignedZoneText(sign, magnitude);
  }

  /** A non-zero offset prints as its sign, then its hours and minutes padded to two digits. */
  lemma SignedZoneText(sign: char, magnitude: int)
    requires sign == '+' || sign == '-'
    requires 0 < magnitude <= MAX_OFFSET_MINUTES
    ensures ZoneText(Signed(sign, magnitude)) == [sign] + (Padded(magnitude / 60, 2) + (":" + Padded(magnitude % 60, 2)))
  {
  }

  /** A signed designator that Offset accepts whole is a sign, two digits, ":" and two digits, read as hours and minutes. */
  lemma SignedOffsetParts(z: string) returns (sign: char, hh: string, mm: string)
    requires Offset(z).Some? && Offset(z).value.rest == [] && z[0] != 'Z'
    ensures sign == '+' || sign == '-'
    ensures AllDigits(hh) && AllDigits(mm) && |hh| == 2 && |mm| == 2
    ensures ValueOf(hh) <= 23 && ValueOf(mm) <= 59
    ensures z == [sign] + (hh + (":" + mm))
    ensures var magnitude: int := ValueOf(hh) * 60 + ValueOf(mm);
      Offset(z).value.minutes == Signed(sign, magnitude)
  {
    sign := z[0];
    var h := Number(z[1..], 2, 2).value;
    var s1 := Literal(h.rest, ':').value;
    var m := Number(s1, 2, 2).value;
    hh, mm := h.digits, m.digits;
    assert mm + [] == mm;
    assert z == [sign] + z[1..];
  }

  /** Reading back three digit runs and their separators. */
  lemma ReadElement(a: string, b: string, c: string, rest: string, width: nat, sep: char)
    requires AllDigits(a) && AllDigits(b) && AllDigits(c) && |a| == width && |b| == 2 && |c| == 2
    requires !IsDigit(sep)
    ensures Element(Glue(a, b, c, sep, rest), width, sep) == Some(Triple(a, b, c, rest))
  {
    ReadNumber(a, [sep] + (b + ([sep] + (c + rest))), width, width);
    ReadLiteral(sep, b + ([sep] + (c + rest)));
    ReadNumber(b, [sep] + (c + rest), 2, 2);
    ReadLiteral(sep, c + rest);
    ReadNumber(c, rest, 2, 2);
  }

  /** Text in the profile, with any designator that Offset reads whole, is accepted exactly when its fields are in range, and then denotes those fields and its offset. */
  lemma ParseJoined(y: string, mo: string, d: string, h: string, mi: string, sec: string, frac: string, z: string)
    requires Runs(y, mo, d, h, mi, sec) && AllDigits(frac) && |frac| <= 9
    requires Offset(z).Some? && Offset(z).value.rest == []
    ensures var local := FieldsOf(y, mo, d, h, mi, sec, frac);
      ParseStamp(Join(y, mo, d, h, mi, sec, FractionText(frac) + z))
        == if Valid(local) then Some(Stamp(local, Offset(z).value.minutes)) else None
  {
    var tail := FractionText(frac) + z;
    assert z[0] == 'Z' || z[0] == '+' || z[0] == '-';
    var clock := Glue(h, mi, sec, ':', tail);
    ReadElement(y, mo, d, "T" + clock, 4, '-');
    ReadLiteral('T', clock);
    ReadElement(h, mi, sec, tail, 2, ':');
    ReadFraction(frac, z);
  }

  /** An accepted tail is a fraction followed by a designator, and the stamp carries the fields and the designator's offset. */
  lemma TailSound(date: Triple, time: Triple) returns (frac: string, z: string)
    requires Runs(date.first, date.second, date.third, time.first, time.second, time.third)
    requires Tail(date, time).Some?
    ensures AllDigits(frac) && |frac| <= 9 && time.rest == FractionText(frac) + z
    ensures Offset(z).Some? && Offset(z).value == Zone(Tail(date, time).value.offsetMinutes, [])
    ensures Tail(date, time).value.local
         == FieldsOf(date.first, date.second, date.third, time.first, time.second, time.third, frac)
  {
    var fraction := Fraction(time.rest).value;
    frac, z := fraction.digits, fraction.rest;
    if |time.rest| > 0 && time.rest[0] == '.' {
      assert time.rest == "." + time.rest[1..];
    } else {
      assert frac == [];
    }
  }

  /** Every accepted text is in the profile: six digit runs, the separators, a fraction and a designator, nothing after. */
  lemma ParseSound(s: string) returns (y: string, mo: string, d: string, h: string, mi: string, sec: string, frac: string, z: string)
    requires ParseStamp(s).Some?
    ensures Runs(y, mo, d, h, mi, sec) && AllDigits(frac) && |frac| <= 9
    ensures s == Join(y, mo, d, h, mi, sec, FractionText(frac) + z)
    ensures Offset(z).Some? && Offset(z).value == Zone(ParseStamp(s).value.offsetMinutes, [])
    ensures z == ZoneText(ParseStamp(s).value.offsetMinutes) || z == "+00:00" || z == "-00:00"
    ensures ParseStamp(s).value.local == FieldsOf(y, mo, d, h, mi, sec, frac)
  {
    var date := Element(s, 4, '-').value;
    var s1 := Literal(date.rest, 'T').value;
    var time := Element(s1, 2, ':').value;
    y, mo, d, h, mi, sec := date.first, date.second, date.third, time.first, time.second, time.third;
    frac, z := TailSound(date, time);
    OffsetSound(z);
  }

  /**
   * The instant of any text in the profile, whatever designator spells its offset:
   * refused exactly when its fields are invalid, else their UTC reading less the offset.
   */
  lemma InstantOfJoin(y: string, mo: string, d: string, h: string, mi: string, sec: string, frac: string, z: string)
    requires Runs(y, mo, d, h, mi, sec) && AllDigits(frac) && |frac| <= 9
    requires Offset(z).Some? && Offset(z).value.rest == []
    ensures var s := Join(y, mo, d, h, mi, sec, FractionText(frac) + z);
      Parse(s).Some? <==> Valid(FieldsOf(y, mo, d, h, mi, sec, frac))
    ensures var s := Join(y, mo, d, h, mi, sec, FractionText(frac) + z);
      Parse(s).Some? ==>
        Parse(s).value == EpochMillis(FieldsOf(y, mo, d, h, mi, sec, frac)) - Offset(z).value.minutes * MILLIS_PER_MINUTE
  {
    ParseJoined(y, mo, d, h, mi, sec, frac, z);
    ParseShifts(Join(y, mo, d, h, mi, sec, FractionText(frac) + z));
  }

  /** A text without a zone designator is refused: the profile always names the offset. */
  lemma RequiresZone(y: string, mo: string, d: string, h: string, mi: string, sec: string, frac: string)
    requires Runs(y, mo, d, h, mi, sec) && AllDigits(frac) && |frac| <= 9
    ensures ParseStamp(Join(y, mo, d, h, mi, sec, FractionText(frac))).None?
  {
    var tail := FractionText(frac);
    var clock := Glue(h, mi, sec, ':', tail);
    ReadElement(y, mo, d, "T" + clock, 4, '-');
    ReadLiteral('T', clock);
    ReadElement(h, mi, sec, tail, 2, ':');
    ReadFraction(frac, []);
    assert tail + [] == tail;
  }

  /** The fraction's first three digits are the milliseconds; later digits are dropped, not rounded. */
  lemma MillisTruncates(ds: string)
    requires AllDigits(ds) && |ds| >= 3
    ensures MillisOf(ds) == ValueOf(ds[..3])
  {
    assert (ds + "000")[..3] == ds[..3];
  }

  /** A fraction of fewer than three digits counts tenths or hundredths of a second. */
  lemma MillisScales(ds: string)
    requires AllDigits(ds) && 1 <= |ds| <= 2
    ensures MillisOf(ds) == ValueOf(ds) * (if |ds| == 1 then 100 else 10)
  {
    var p := (ds + "000")[..3];
    ValueOfPush(p[..2], p[2]);
    assert p[..2] + [p[2]] == p;
    assert p[2] == '0';
    if |ds| == 1 {
      ValueOfPush(p[..1], p[1]);
      assert p[..1] + [p[1]] == p[..2];
      assert p[..1] == ds && p[1] == '0';
    } else {
      assert p[..2] == ds;
    }
  }

  /** The timestamps the profile can print: valid, with a four-digit year and an offset of at most 23:59. */
  predicate Representable(st: Stamp) {
    Valid(st.local) && 0 <= st.local.year <= 9999
    && -MAX_OFFSET_MINUTES <= st.offsetMinutes <= MAX_OFFSET_MINUTES
  }

  /** Prints `st` with a three-digit fraction and its canonical zone designator. */
  function Format(st: Stamp): string
    requires Representable(st)
  {
    var dt := st.local;
    Join(Padded(dt.year, 4), Padded(dt.month, 2), Padded(dt.day, 2), Padded(dt.hour, 2),
      Padded(dt.minute, 2), Padded(dt.second, 2), FractionText(Padded(dt.milli, 3)) + ZoneText(st.offsetMinutes))
  }

  /** Parsing what Format prints gives back the same fields and offset. */
  lemma ParseFormat(st: Stamp)
    requires Representable(st)
    ensures ParseStamp(Format(st)) == Some(st)
  {
    var dt := st.local;
    PaddedWidth(dt.year, 4);
    PaddedWidth(dt.month, 2);
    PaddedWidth(dt.day, 2);
    PaddedWidth(dt.hour, 2);
    PaddedWidth(dt.minute, 2);
    PaddedWidth(dt.second, 2);
    PaddedWidth(dt.milli, 3);
    var frac := Padded(dt.milli, 3);
    MillisTruncates(frac);
    assert frac[..3] == frac;
    ReadOffset(st.offsetMinutes);
    ParseJoined(Padded(dt.year, 4), Padded(dt.month, 2), Padded(dt.day, 2), Padded(dt.hour, 2),
      Padded(dt.minute, 2), Padded(dt.second, 2), frac, ZoneText(st.offsetMinutes));
  }

  /** Parse removes the offset: the instant is the fields' UTC reading less the offset. */
  lemma ParseShifts(s: string)
    ensures Parse(s).None? <==> ParseStamp(s).None?
    ensures ParseStamp(s).Some? ==>
              Parse(s).Some?
              && Parse(s).value == EpochMillis(ParseStamp(s).value.local) - ParseStamp(s).value.offsetMinutes * MILLIS_PER_MINUTE
  {
  }

  /** A printed timestamp denotes its fields read at its own offset. */
  lemma ParseFormatInstant(st: Stamp)
    requires Representable(st)
    ensures Parse(Format(st)).Some?
    ensures Parse(Format(st)).value == EpochMillis(st.local) - st.offsetMinutes * MILLIS_PER_MINUTE
  {
    ParseFormat(st);
    ParseShifts(Format(st));
  }
}
