/**
 * The comparator that decides whether a Siebel account was modified after
 * its Salesforce counterpart.  Each account is a map from field names to
 * values; the decision reads the "LastModifiedDate" field of both, parses the
 * Siebel value as a UTC-7 wall-clock time and the Salesforce value as an
 * ISO 8601 timestamp, and compares the two instants.  Every validation that
 * throws in `AccountDateComparator.isAfter` becomes an error outcome, raised
 * in the same order.
 */
module AccountDateComparator {
  import opened Options
  import opened Scan
  import opened Calendar
  import SiebelFormat
  import SalesforceFormat

  /** The field both accounts are compared on. */
  const LAST_MODIFIED_DATE: string := "LastModifiedDate"

  /** A value stored in an account: a string, the null reference, or an object of any other type. */
  datatype Value = Str(text: string) | Null | Other

  /** An account record: field names mapped to their values. */
  type Account = map<string, Value>

  /** Which of the two accounts an error is about. */
  datatype Side = Siebel | Salesforce

  /** The validations and parses that reject the comparison, each with the account it concerns. */
  datatype Error =
    | NullArgument(side: Side)
    | MissingField
    | TypeMismatch(side: Side)
    | ParseFailure(side: Side)

  /** The decision, or the error that stopped it. */
  datatype Outcome = Decided(after: bool) | Failed(error: Error)

  /** What looking up the date field yields: the stored value, or null when the field is absent. */
  function DateOf(account: Account): (r: Value)
    // As with a map lookup, absent and null-valued fields both read as null.
    ensures r.Null? <==> LAST_MODIFIED_DATE !in account || account[LAST_MODIFIED_DATE].Null?
    ensures !r.Null? ==> LAST_MODIFIED_DATE in account && account[LAST_MODIFIED_DATE] == r
  {
    if LAST_MODIFIED_DATE in account then account[LAST_MODIFIED_DATE] else Null
  }

  /**
   * Whether the Siebel account was modified strictly after the Salesforce one.
   * A null record, a Siebel record without the field, a value that is not a
   * string and a text that does not parse are errors; a Salesforce record
   * whose date is absent or null counts as older than anything.
   */
  function IsAfter(siebel: Option<Account>, salesforce: Option<Account>): (r: Outcome)
    // Null records are refused, the Siebel one first, whatever the other holds.
    ensures siebel.None? ==> r == Failed(NullArgument(Siebel))
    ensures siebel.Some? && salesforce.None? ==> r == Failed(NullArgument(Salesforce))
    // The Siebel record must carry the field, even when the Salesforce date is null.
    ensures siebel.Some? && salesforce.Some? && LAST_MODIFIED_DATE !in siebel.value ==> r == Failed(MissingField)
    // A missing Salesforce date wins before the Siebel value is examined at all.
    ensures (siebel.Some? && salesforce.Some? && LAST_MODIFIED_DATE in siebel.value
             && DateOf(salesforce.value).Null?) ==> r == Decided(true)
    // Past those checks, a Siebel value that is not a string, null included, is refused; so is one that does not parse.
    ensures (siebel.Some? && salesforce.Some? && LAST_MODIFIED_DATE in siebel.value
             && !DateOf(salesforce.value).Null? && !DateOf(siebel.value).Str?) ==> r == Failed(TypeMismatch(Siebel))
    ensures (siebel.Some? && salesforce.Some? && LAST_MODIFIED_DATE in siebel.value && !DateOf(salesforce.value).Null?
             && DateOf(siebel.value).Str? && SiebelFormat.Parse(DateOf(siebel.value).text).None?) ==> r == Failed(ParseFailure(Siebel))
    // The Siebel value is checked and parsed before the Salesforce value is looked at.
    ensures r == Failed(TypeMismatch(Salesforce)) || r == Failed(ParseFailure(Salesforce)) ==>
              siebel.Some? && DateOf(siebel.value).Str? && SiebelFormat.Parse(DateOf(siebel.value).text).Some?
    ensures (siebel.Some? && DateOf(siebel.value).Str? && SiebelFormat.Parse(DateOf(siebel.value).text).Some?
             && salesforce.Some? && DateOf(salesforce.value).Other?) ==> r == Failed(TypeMismatch(Salesforce))
    ensures (siebel.Some? && DateOf(siebel.value).Str? && SiebelFormat.Parse(DateOf(siebel.value).text).Some?
             && salesforce.Some? && DateOf(salesforce.value).Str?
             && SalesforceFormat.Parse(DateOf(salesforce.value).text).None?) ==> r == Failed(ParseFailure(Salesforce))
    // A decision against a present Salesforce date compares the two instants, both of which parsed.
    ensures r.Decided? && salesforce.Some? && !DateOf(salesforce.value).Null? ==>
              siebel.Some? && DateOf(siebel.value).Str? && DateOf(salesforce.value).Str?
              && SiebelFormat.Parse(DateOf(siebel.value).text).Some?
              && SalesforceFormat.Parse(DateOf(salesforce.value).text).Some?
              && (r.after <==> SiebelFormat.Parse(DateOf(siebel.value).text).value
                                 > SalesforceFormat.Parse(DateOf(salesforce.value).text).value)
  {
    if siebel.None? then Failed(NullArgument(Siebel))
    else if salesforce.None? then Failed(NullArgument(Salesforce))
    else if LAST_MODIFIED_DATE !in siebel.value then Failed(MissingField)
    else if DateOf(salesforce.value).Null? then Decided(true)
    else
      var a := siebel.value[LAST_MODIFIED_DATE];
      if !a.Str? then Failed(TypeMismatch(Siebel))
      else
        match SiebelFormat.Parse(a.text)
        case None => Failed(ParseFailure(Siebel))
        case Some(ta) =>
          var b := DateOf(salesforce.value);
          if !b.Str? then Failed(TypeMismatch(Salesforce))
          else
            match SalesforceFormat.Parse(b.text)
            case None => Failed(ParseFailure(Salesforce))
            case Some(tb) => Decided(ta > tb)
  }

  /** A record holding just the date field, set to the given text. */
  function Record(text: string): (a: Account)
    ensures DateOf(a) == Str(text)
  {
    map[LAST_MODIFIED_DATE := Str(text)]
  }

  /**
   * With both dates present as strings, the comparison is decided exactly when
   * both texts parse: no parse error is swallowed.
   */
  lemma DecidedIffParsed(siebel: Account, salesforce: Account)
    requires DateOf(siebel).Str? && DateOf(salesforce).Str?
    ensures IsAfter(Some(siebel), Some(salesforce)).Decided?
        <==> SiebelFormat.Parse(DateOf(siebel).text).Some? && SalesforceFormat.Parse(DateOf(salesforce).text).Some?
    ensures SiebelFormat.Parse(DateOf(siebel).text).None?
        ==> IsAfter(Some(siebel), Some(salesforce)) == Failed(ParseFailure(Siebel))
  {
  }

  /** Once both dates parse, the decision is whether the Siebel instant is strictly later. */
  lemma DecidedByInstants(siebel: Account, salesforce: Account)
    requires DateOf(siebel).Str? && DateOf(salesforce).Str?
    requires SiebelFormat.Parse(DateOf(siebel).text).Some? && SalesforceFormat.Parse(DateOf(salesforce).text).Some?
    ensures IsAfter(Some(siebel), Some(salesforce))
         == Decided(SiebelFormat.Parse(DateOf(siebel).text).value > SalesforceFormat.Parse(DateOf(salesforce).text).value)
  {
  }

  /** Equal instants are not "after": the comparison is strict. */
  lemma EqualInstantsNotAfter(siebel: Account, salesforce: Account)
    requires DateOf(siebel).Str? && DateOf(salesforce).Str?
    requires SiebelFormat.Parse(DateOf(siebel).text).Some? && SalesforceFormat.Parse(DateOf(salesforce).text).Some?
    requires SiebelFormat.Parse(DateOf(siebel).text).value == SalesforceFormat.Parse(DateOf(salesforce).text).value
    ensures IsAfter(Some(siebel), Some(salesforce)) == Decided(false)
  {
  }

  /** With the Salesforce record fixed, replacing the Siebel date by a later one never turns "after" into "not after". */
  lemma LaterSiebelStaysAfter(siebel: Account, later: Account, salesforce: Account)
    requires DateOf(siebel).Str? && DateOf(later).Str?
    requires SiebelFormat.Parse(DateOf(siebel).text).Some? && SiebelFormat.Parse(DateOf(later).text).Some?
    requires SiebelFormat.Parse(DateOf(siebel).text).value <= SiebelFormat.Parse(DateOf(later).text).value
    requires IsAfter(Some(siebel), Some(salesforce)) == Decided(true)
    ensures IsAfter(Some(later), Some(salesforce)) == Decided(true)
  {
  }

  /**
   * Against a timestamp printed by Salesforce at any offset, a Siebel time
   * printed in its pattern is after it exactly when its instant, the wall
   * clock read at UTC-7, is later than the timestamp's fields less its offset.
   */
  lemma PrintedInstants(dt: DateTime, st: SalesforceFormat.Stamp)
    requires SiebelFormat.Representable(dt) && SalesforceFormat.Representable(st)
    ensures IsAfter(Some(Record(SiebelFormat.Format(dt))), Some(Record(SalesforceFormat.Format(st))))
         == Decided(EpochMillis(dt) + 7 * MILLIS_PER_HOUR > EpochMillis(st.local) - st.offsetMinutes * MILLIS_PER_MINUTE)
  {
    SiebelFormat.ParseFormatInstant(dt);
    SalesforceFormat.ParseFormatInstant(st);
    DecidedByInstants(Record(SiebelFormat.Format(dt)), Record(SalesforceFormat.Format(st)));
  }

  /**
   * When Salesforce prints its timestamp at UTC-7 too, the comparison is
   * the chronological order of the two wall-clock readings.
   */
  lemma SameZoneIsWallClockOrder(dt: DateTime, other: DateTime)
    requires SiebelFormat.Representable(dt) && SalesforceFormat.Representable(SalesforceFormat.Stamp(other, -420))
    ensures IsAfter(Some(Record(SiebelFormat.Format(dt))), Some(Record(SalesforceFormat.Format(SalesforceFormat.Stamp(other, -420)))))
         == Decided(Before(other, dt))
  {
    PrintedInstants(dt, SalesforceFormat.Stamp(other, -420));
    EpochMillisOrder(other, dt);
  }

  /** A later Siebel wall-clock time never turns "after" into "not after". */
  lemma LaterWallClockStaysAfter(dt: DateTime, later: DateTime, salesforce: Account)
    requires SiebelFormat.Representable(dt) && SiebelFormat.Representable(later) && Before(dt, later)
    requires IsAfter(Some(Record(SiebelFormat.Format(dt))), Some(salesforce)) == Decided(true)
    ensures IsAfter(Some(Record(SiebelFormat.Format(later))), Some(salesforce)) == Decided(true)
  {
    SiebelFormat.ParseFormatInstant(dt);
    SiebelFormat.ParseFormatInstant(later);
    EpochMillisMonotone(dt, later);
    LaterSiebelStaysAfter(Record(SiebelFormat.Format(dt)), Record(SiebelFormat.Format(later)), salesforce);
  }

  /** The Siebel text "12/dd/2013 15:15:33" for a two-digit day of the month. */
  function SiebelText(day: string): string {
    SiebelFormat.Join("12", day, "2013", "15", "15", "33")
  }

  /** The Salesforce text "2013-12-09T22:15:33.001Z". */
  function SalesforceText(): string {
    SalesforceFormat.Join("2013", "12", "09", "22", "15", "33", ".001Z")
  }

  lemma SiebelTextSpelling()
    ensures SiebelText("09") == "12/09/2013 15:15:33"
    ensures SiebelText("10") == "12/10/2013 15:15:33"
  {
  }

  lemma SalesforceTextSpelling()
    ensures SalesforceText() == "2013-12-09T22:15:33.001Z"
  {
  }

  /** The wall-clock fields of "12/dd/2013 15:15:33" for a two-digit day of December. */
  lemma SiebelTestFields(day: string, d: int)
    requires AllDigits(day) && |day| == 2 && ValueOf(day) == d && 1 <= d <= 31
    ensures SiebelFormat.ParseLocal(SiebelText(day)).Some?
    ensures SiebelFormat.ParseLocal(SiebelText(day)).value == DateTime(2013, 12, d, 15, 15, 33, 0)
  {
    ValueOfTwo('1', '2');
    ValueOfTwo('1', '5');
    ValueOfTwo('3', '3');
    ValueOfFour('2', '0', '1', '3');
    ReadFields("12", day, "2013", "15", "15", "33", DateTime(2013, 12, d, 15, 15, 33, 0));
  }

  /** Reading six digit runs of known values. */
  lemma ReadFields(mo: string, day: string, y: string, h: string, mi: string, sec: string, dt: DateTime)
    requires SiebelFormat.Runs(mo, day, y, h, mi, sec) && Valid(dt) && dt.milli == 0
    requires ValueOf(mo) == dt.month && ValueOf(day) == dt.day && ValueOf(y) == dt.year
    requires ValueOf(h) == dt.hour && ValueOf(mi) == dt.minute && ValueOf(sec) == dt.second
    ensures SiebelFormat.ParseLocal(SiebelFormat.Join(mo, day, y, h, mi, sec)).Some?
    ensures SiebelFormat.ParseLocal(SiebelFormat.Join(mo, day, y, h, mi, sec)).value == dt
  {
    SiebelFormat.ParseJoined(mo, day, y, h, mi, sec);
  }

  /** "12/09/2013 15:15:33" at UTC-7 is 22:15:33.000 UTC on 9 December 2013; the day after is one day later. */
  lemma SiebelTestInstant(day: string)
    requires day == "09" || day == "10"
    ensures SiebelFormat.Parse(SiebelText(day)).Some?
    ensures SiebelFormat.Parse(SiebelText(day)).value
         == if day == "09" then 1386627333000 else 1386627333000 + MILLIS_PER_DAY
  {
    ValueOfTwo(day[0], day[1]);
    assert day == [day[0], day[1]];
    SiebelTestFields(day, ValueOf(day));
    SiebelFormat.ParseShifts(SiebelText(day));
    EpochDayOrigin();
  }

  /** Reading six digit runs, a fraction and the designator "Z" of known values. */
  lemma ReadStamp(y: string, mo: string, d: string, h: string, mi: string, sec: string, frac: string, dt: DateTime)
    requires SalesforceFormat.Runs(y, mo, d, h, mi, sec) && AllDigits(frac) && |frac| <= 9 && Valid(dt)
    requires ValueOf(y) == dt.year && ValueOf(mo) == dt.month && ValueOf(d) == dt.day
    requires ValueOf(h) == dt.hour && ValueOf(mi) == dt.minute && ValueOf(sec) == dt.second
    requires SalesforceFormat.MillisOf(frac) == dt.milli
    ensures SalesforceFormat.ParseStamp(SalesforceFormat.Join(y, mo, d, h, mi, sec, SalesforceFormat.FractionText(frac) + "Z")).Some?
    ensures SalesforceFormat.ParseStamp(SalesforceFormat.Join(y, mo, d, h, mi, sec, SalesforceFormat.FractionText(frac) + "Z")).value
         == SalesforceFormat.Stamp(dt, 0)
  {
    SalesforceFormat.ReadOffset(0);
    SalesforceFormat.ParseJoined(y, mo, d, h, mi, sec, frac, "Z");
  }

  /** "2013-12-09T22:15:33.001Z" is one millisecond after 22:15:33 UTC on 9 December 2013. */
  lemma SalesforceTestInstant()
    ensures SalesforceFormat.Parse(SalesforceText()).Some?
    ensures SalesforceFormat.Parse(SalesforceText()).value == 1386627333001
  {
    ValueOfTwo('1', '2');
    ValueOfTwo('0', '9');
    ValueOfTwo('2', '2');
    ValueOfTwo('1', '5');
    ValueOfTwo('3', '3');
    ValueOfFour('2', '0', '1', '3');
    assert SalesforceFormat.MillisOf("001") == 1 by {
      ValueOfTwo('0', '0');
      ValueOfPush("00", '1');
      assert "00" + ['1'] == "001";
      SalesforceFormat.MillisTruncates("001");
      assert "001"[..3] == "001";
    }
    assert SalesforceFormat.FractionText("001") + "Z" == ".001Z";
    ReadStamp("2013", "12", "09", "22", "15", "33", "001", DateTime(2013, 12, 9, 22, 15, 33, 1));
    SalesforceFormat.ParseShifts(SalesforceText());
    EpochDayOrigin();
  }

  /** A Siebel time one day later than the Salesforce timestamp is after it. */
  lemma SiebelAccountIsAfterSalesforceAccount()
    ensures IsAfter(Some(Record(SiebelText("10"))), Some(Record(SalesforceText()))) == Decided(true)
  {
    SiebelTestInstant("10");
    SalesforceTestInstant();
  }

  /** A Siebel time one millisecond before the Salesforce timestamp is not after it. */
  lemma SiebelAccountIsNotAfterSalesforceAccount()
    ensures IsAfter(Some(Record(SiebelText("09"))), Some(Record(SalesforceText()))) == Decided(false)
  {
    SiebelTestInstant("09");
    SalesforceTestInstant();
  }

  /** A Salesforce record without the date field counts as older than the Siebel one. */
  lemma EmptySalesforceAccount()
    ensures IsAfter(Some(Record(SiebelText("09"))), Some(map[])) == Decided(true)
  {
  }

  /** A null Siebel record or a Siebel record without the field is refused. */
  lemma MalformedSiebelAccount()
    ensures IsAfter(None, Some(Record(SalesforceText()))) == Failed(NullArgument(Siebel))
    ensures IsAfter(Some(Record(SiebelText("09"))), None) == Failed(NullArgument(Salesforce))
    ensures IsAfter(Some(map[]), Some(Record(SalesforceText()))) == Failed(MissingField)
  {
  }

  /** A Siebel field that holds null is a type error, not a missing field and not a decision. */
  lemma SiebelNullValue()
    ensures IsAfter(Some(map[LAST_MODIFIED_DATE := Null]), Some(Record(SalesforceText()))) == Failed(TypeMismatch(Siebel))
  {
  }

  /** A null Salesforce date decides the comparison before the Siebel value's type is examined. */
  lemma NullDateBeforeTypeCheck()
    ensures IsAfter(Some(map[LAST_MODIFIED_DATE := Other]), Some(map[LAST_MODIFIED_DATE := Null])) == Decided(true)
  {
  }
}
