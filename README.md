# Account date comparator

This project models the comparator that a Siebel-to-Salesforce account migration uses. It decides whether a Siebel account was modified after its Salesforce counterpart. Both accounts are loosely typed maps from field names to values.

`isAfter` does the following, in this order:
1. It refuses a null record.
2. It refuses a Siebel record that lacks the `LastModifiedDate` field.
3. It answers `true` at once when the Salesforce record has no date, or a null one.
4. It checks that the Siebel value is a string and parses it.
5. It checks that the Salesforce value is a string and parses it.
6. It answers whether the Siebel instant is strictly later than the Salesforce one.

The two formatters are modelled as parse functions:
- **Siebel** (`SiebelFormat`): Joda-Time's pattern `M/d/y H:m:s`, bound to a fixed zone seven hours behind UTC.
  - Month, day, hour, minute and second are one or two digits. The year is one to nine digits.
  - Every digit run is read greedily, and the whole text must be consumed.
  - Every field must be in range for the ISO chronology. A day that its month does not have is refused.
  - The instant is the wall-clock reading at UTC plus seven hours.
- **Salesforce** (`SalesforceFormat`): Joda-Time's ISO 8601 date-time parser, restricted to the "internet date-time" profile of section 5.6 of RFC 3339.
  - The text is `YYYY-MM-DDThh:mm:ss`, then an optional `.` with one to nine digits, then `Z` or a signed `hh:mm` offset. The offset is at most 23:59.
  - The fraction is truncated to milliseconds, as in Joda-Time.
  - The instant is the fields' UTC reading less the offset.

The other modules:
- `Calendar` holds the proleptic Gregorian calendar of Joda-Time's ISO chronology: month lengths, leap years, the year range Joda accepts, and epoch milliseconds.
- `Scan` holds digit runs, literal characters, and the zero-padded rendering used by the round-trip lemmas.
- `Options` holds the `Option` type the parsers return.

Instants are unbounded integers of epoch milliseconds.

A record is `map<string, Value>`, where `Value` is `Str(text)`, `Null` or `Other`. A field that is absent reads as null, as `Map.get` does.

A missing record is `None`.

The outcome is `Decided(after)` or `Failed(error)`. The error is one of the following, each carrying the side it concerns where that applies:
- `NullArgument`
- `MissingField`
- `TypeMismatch`
- `ParseFailure`

For each format, a `Format` function prints a date-time. Lemmas prove that parsing the printed text gives the fields back, and which instant it denotes.

## Model

| member | source | states |
|---|---|---|
| AccountDateComparator.IsAfter | src/main/java/org/mule/templates/util/AccountDateComparator.java:36-56 | A null Siebel record fails first, then a null Salesforce record, whatever the other holds. A Siebel record without the field fails next, even when the Salesforce date is null. A null or absent Salesforce date gives true before the Siebel value is examined. Otherwise a non-string Siebel value (null included) is a type error, and unparsable Siebel text is a parse error. A Salesforce type or parse error only arises after the Siebel text parsed. A Salesforce value of another type is a type error, and unparsable Salesforce text after a parsed Siebel text is a Salesforce parse error. Every decision against a present Salesforce date has both texts parsed, and is true iff the Siebel instant is greater. |
| AccountDateComparator.DateOf | src/main/java/org/mule/templates/util/AccountDateComparator.java:42-51 | Looking up the date field gives null exactly when the field is absent or holds null; any other result is the stored value. |
| AccountDateComparator.DecidedIffParsed | src/main/java/org/mule/templates/util/AccountDateComparator.java:48-55 | With both dates strings, the comparison is decided exactly when both texts parse. No parse error is swallowed. Unparsable Siebel text gives the Siebel parse error. |
| AccountDateComparator.DecidedByInstants | src/main/java/org/mule/templates/util/AccountDateComparator.java:55 | Once both texts parse, the outcome is Decided(Siebel instant > Salesforce instant). |
| AccountDateComparator.EqualInstantsNotAfter | src/main/java/org/mule/templates/util/AccountDateComparator.java:55 | Equal instants give false: the comparison is strict. |
| AccountDateComparator.LaterSiebelStaysAfter | src/main/java/org/mule/templates/util/AccountDateComparator.java:55 | With the Salesforce record fixed, a Siebel date with a later or equal instant keeps a true result true. |
| AccountDateComparator.PrintedInstants | src/main/java/org/mule/templates/util/AccountDateComparator.java:49-55 | Take any printable Siebel wall-clock time and any printable Salesforce timestamp at any offset. The outcome is Decided(wall clock + 7 h > timestamp fields − offset). |
| AccountDateComparator.SameZoneIsWallClockOrder | src/main/java/org/mule/templates/util/AccountDateComparator.java:55 | When the Salesforce text carries the offset −07:00, the outcome is the chronological (lexicographic) order of the two wall-clock readings. |
| AccountDateComparator.LaterWallClockStaysAfter | src/main/java/org/mule/templates/util/AccountDateComparator.java:49-55 | A later Siebel wall-clock time never turns true into false, whatever the Salesforce record holds. |
| AccountDateComparator.SiebelNullValue | src/main/java/org/mule/templates/util/AccountDateComparator.java:46-48 | A Siebel field present but null is a Siebel type error, not a missing field. |
| AccountDateComparator.NullDateBeforeTypeCheck | src/main/java/org/mule/templates/util/AccountDateComparator.java:42-48 | A null Salesforce date gives true even when the Siebel value is not a string. |
| AccountDateComparator.SiebelTextSpelling | src/test/java/org/mule/templates/util/AccountDateComparatorTest.java:27-29 | The Siebel test texts are "12/09/2013 15:15:33" and "12/10/2013 15:15:33". |
| AccountDateComparator.SalesforceTextSpelling | src/test/java/org/mule/templates/util/AccountDateComparatorTest.java:25 | The Salesforce test text is "2013-12-09T22:15:33.001Z". |
| AccountDateComparator.SiebelTestInstant | src/test/java/org/mule/templates/util/AccountDateComparatorTest.java:27-29 | "12/09/2013 15:15:33" denotes 1386627333000 ms, which is 2013-12-09T22:15:33Z. The day after denotes one day more. |
| AccountDateComparator.SalesforceTestInstant | src/test/java/org/mule/templates/util/AccountDateComparatorTest.java:25 | "2013-12-09T22:15:33.001Z" denotes 1386627333001 ms. |
| AccountDateComparator.SiebelAccountIsAfterSalesforceAccount | src/test/java/org/mule/templates/util/AccountDateComparatorTest.java:73-83 | Source "12/10/2013 15:15:33" against the Salesforce test text gives true. |
| AccountDateComparator.SiebelAccountIsNotAfterSalesforceAccount | src/test/java/org/mule/templates/util/AccountDateComparatorTest.java:85-107 | Source "12/09/2013 15:15:33", 1 ms earlier, against the same text gives false. |
| AccountDateComparator.EmptySalesforceAccount | src/test/java/org/mule/templates/util/AccountDateComparatorTest.java:63-71 | An empty Salesforce record gives true. |
| AccountDateComparator.MalformedSiebelAccount | src/test/java/org/mule/templates/util/AccountDateComparatorTest.java:33-61 | A null Siebel record, a null Salesforce record and an empty Siebel record each give their errors. |
| SiebelFormat.ParseLocal | src/main/java/org/mule/templates/util/AccountDateComparator.java:22 | An accepted text has valid fields, a whole second and a non-negative year. |
| SiebelFormat.Parse | src/main/java/org/mule/templates/util/AccountDateComparator.java:49 | An instant is produced exactly when the wall-clock fields are accepted. It is their epoch milliseconds plus 7 h: the zone `OFFSET_MILLIS` of line 22 is UTC−7, −25 200 000 ms. |
| SiebelFormat.WholeSecondInstants | src/main/java/org/mule/templates/util/AccountDateComparator.java:22 | Every Siebel instant is a whole number of seconds: the pattern has no fraction, and the zone is a whole number of seconds. |
| SiebelFormat.ParseJoined | src/main/java/org/mule/templates/util/AccountDateComparator.java:22 | Six digit runs of the pattern's lengths, joined by "/", "/", " ", ":", ":", are accepted exactly when their fields are valid, and then denote those fields. |
| SiebelFormat.ParseSound | src/main/java/org/mule/templates/util/AccountDateComparator.java:22 | Every accepted text is such a join of digit runs, and denotes the runs' values. |
| SiebelFormat.ParseFormat | src/main/java/org/mule/templates/util/AccountDateComparator.java:22 | Parsing a printed valid wall-clock time gives it back. |
| SiebelFormat.InstantOfJoin | src/main/java/org/mule/templates/util/AccountDateComparator.java:22 | Six digit runs joined by the pattern's separators give an instant exactly when their fields are valid, and that instant is the fields' epoch milliseconds plus 7 h. |
| SiebelFormat.ParseFormatInstant | src/main/java/org/mule/templates/util/AccountDateComparator.java:22 | A printed wall-clock time denotes its UTC reading plus 7 h. |
| SiebelFormat.AcceptsUnpadded | src/main/java/org/mule/templates/util/AccountDateComparator.java:22 | "1/2/2013 3:4:5" is accepted as 2013-01-02 03:04:05. |
| SiebelFormat.RejectsMonth13 | src/main/java/org/mule/templates/util/AccountDateComparator.java:22 | Month 13 is refused. |
| SiebelFormat.RejectsFebruary29 | src/main/java/org/mule/templates/util/AccountDateComparator.java:22 | February 29 of the common year 2013 is refused. |
| SiebelFormat.RejectsHour24 | src/main/java/org/mule/templates/util/AccountDateComparator.java:22 | Hour 24 is refused. |
| SalesforceFormat.ParseStamp | src/main/java/org/mule/templates/util/AccountDateComparator.java:21 | An accepted text has valid fields, a four-digit year and an offset of at most 23:59. |
| SalesforceFormat.Parse | src/main/java/org/mule/templates/util/AccountDateComparator.java:53 | An instant is produced exactly when the timestamp is accepted. |
| SalesforceFormat.Tail | src/main/java/org/mule/templates/util/AccountDateComparator.java:21 | After the seconds, an accepted tail yields valid fields and an offset in range. |
| SalesforceFormat.Element | src/main/java/org/mule/templates/util/AccountDateComparator.java:21 | A date or time element is three digit runs of the prescribed widths, joined by the separator. |
| SalesforceFormat.Fraction | src/main/java/org/mule/templates/util/AccountDateComparator.java:21 | The fraction has at most nine digits. |
| SalesforceFormat.Offset | src/main/java/org/mule/templates/util/AccountDateComparator.java:21 | An accepted designator's offset lies within ±23:59. |
| SalesforceFormat.MillisOf | src/main/java/org/mule/templates/util/AccountDateComparator.java:21 | A fraction denotes fewer than 1000 milliseconds. |
| SalesforceFormat.MillisTruncates | src/main/java/org/mule/templates/util/AccountDateComparator.java:21 | The milliseconds are the fraction's first three digits. Later digits are dropped, not rounded. |
| SalesforceFormat.MillisScales | src/main/java/org/mule/templates/util/AccountDateComparator.java:21 | One fraction digit counts tenths of a second, and two count hundredths. |
| SalesforceFormat.ReadOffset | src/main/java/org/mule/templates/util/AccountDateComparator.java:21 | The canonical designator of an offset ("Z" or signed "hh:mm") reads back as that offset. |
| SalesforceFormat.OffsetSound | src/main/java/org/mule/templates/util/AccountDateComparator.java:21 | A designator accepted with nothing after it is the canonical text of its offset, or one of the two signed spellings of zero, "+00:00" and "-00:00". |
| SalesforceFormat.SignedOffsetParts | src/main/java/org/mule/templates/util/AccountDateComparator.java:21 | A signed designator accepted whole is a sign, two digits up to 23, ":" and two digits up to 59, and its offset is their signed value in minutes. |
| SalesforceFormat.SignedOffsetText | src/main/java/org/mule/templates/util/AccountDateComparator.java:21 | A sign with two-digit hours and minutes spells the canonical text of the signed offset, unless both are zero. |
| SalesforceFormat.ParseJoined | src/main/java/org/mule/templates/util/AccountDateComparator.java:21 | Digit runs of the profile, with a fraction and any designator that `Offset` reads whole (the canonical text, "+00:00" or "-00:00"), are accepted exactly when their fields are valid. They then denote those fields and the designator's offset. |
| SalesforceFormat.TailSound | src/main/java/org/mule/templates/util/AccountDateComparator.java:21 | An accepted tail is a fraction followed by a designator that `Offset` reads whole, with the stamp's offset; `OffsetSound` says which texts those are. |
| SalesforceFormat.ParseSound | src/main/java/org/mule/templates/util/AccountDateComparator.java:21 | Every accepted text is six digit runs, the separators, a fraction and a designator, and denotes their values. The designator is the canonical text of the offset, or "+00:00" or "-00:00". |
| SalesforceFormat.RequiresZone | src/main/java/org/mule/templates/util/AccountDateComparator.java:21 | A text without a zone designator is refused. |
| SalesforceFormat.ParseFormat | src/main/java/org/mule/templates/util/AccountDateComparator.java:21 | Parsing a printed timestamp gives back its fields and offset. |
| SalesforceFormat.InstantOfJoin | src/main/java/org/mule/templates/util/AccountDateComparator.java:21 | Digit runs of the profile with any fraction and any designator that `Offset` reads whole give an instant exactly when their fields are valid. That instant is the fields' epoch milliseconds less the designator's offset. |
| SalesforceFormat.ParseFormatInstant | src/main/java/org/mule/templates/util/AccountDateComparator.java:21 | A printed timestamp denotes its fields less its offset: "Z" means UTC. |
| Calendar.EpochMillisMonotone | src/main/java/org/mule/templates/util/AccountDateComparator.java:55 | Chronologically ordered valid date-times have strictly increasing epoch milliseconds. |
| Calendar.EpochMillisOrder | src/main/java/org/mule/templates/util/AccountDateComparator.java:55 | On valid date-times, chronological order and millisecond order agree (both directions). |
| Calendar.EpochMillisInjective | src/main/java/org/mule/templates/util/AccountDateComparator.java:55 | Distinct valid date-times denote distinct instants. |
| Calendar.EpochDayNext | src/main/java/org/mule/templates/util/AccountDateComparator.java:21-22 | The next calendar day is exactly one epoch day later. |
| Calendar.EpochDayOrigin | src/test/java/org/mule/templates/util/AccountDateComparatorTest.java:25-29 | 1970-01-01 is day 0, and 2013-12-09 is day 16048. |
| Calendar.Valid | src/main/java/org/mule/templates/util/AccountDateComparator.java:21-22 | An accepted date-time has a day of 1 to 31 and a time of day inside one day. |
| Calendar.EpochMillis | src/main/java/org/mule/templates/util/AccountDateComparator.java:21-22 | A valid time of day lands inside its own epoch day. |
| Scan.Number | src/main/java/org/mule/templates/util/AccountDateComparator.java:22 | A number token is a run of between `min` and `max` digits followed by the rest of the text. It is greedy: a run shorter than `max` is never followed by another digit. |
| Scan.ValueOf | src/main/java/org/mule/templates/util/AccountDateComparator.java:21-22 | A digit run of length n denotes a value below 10^n. |
| Scan.Literal | src/main/java/org/mule/templates/util/AccountDateComparator.java:21-22 | A separator character is consumed exactly when the text starts with it. Otherwise the text is empty or starts with something else. |
| Scan.ReadNumber | src/main/java/org/mule/templates/util/AccountDateComparator.java:22 | A digit run of an allowed length, followed by a non-digit or the end of the text, is read back whole. |
| Scan.ValueOfInjective | src/main/java/org/mule/templates/util/AccountDateComparator.java:21 | Two digit strings of the same length and the same value are the same string. |

## Left out

- The three-argument `isAfter(siebel, salesforce, offset)` overload and its offset-string grammar are not modelled. Only `isAfter(Map, Map)` with its fixed UTC−7 offset is in the source; the tests call the overload, but its code is not part of this model.
- Time-zone rules and daylight saving are not modelled. The Siebel zone is the fixed offset of the source, −7 hours.
- Joda-Time's full `dateTimeParser` grammar is not modelled: week dates, ordinal dates, reduced precision, a missing time part, lowercase `t`/`z`, a `,` decimal separator, offsets `+hh`, `+hhmm`, offsets up to 23:59:59.999, and defaulting to the JVM's zone when no offset is given. Only the RFC 3339 section 5.6 profile is modelled. A text without a designator is refused (`SalesforceFormat.RequiresZone`).
- Salesforce fields must have exactly the widths of the profile: four digits for the year, two for each other field. Joda-Time's parser also reads shorter runs, such as a one-digit month, and a signed year or one longer than four digits.
- Joda-Time's pattern `y` also reads a sign before the year; the Siebel model reads unsigned years only.
- Joda-Time's two-digit-year pivot applies only to a `yy` pattern, which the source does not use. The model reads the year's digits as written.
- Leap seconds (`:60`) are refused, as Joda-Time's ISO chronology refuses them.
- Exception classes and messages of `Validate` and of the parsers are not modelled. Each failure is a distinct `Error` variant instead.
- The formatters' object identity and thread safety are not modelled. They are immutable static values, represented as functions.
- The integration test `BusinessLogicIT.java` is not modelled. It drives the migration flow against the two external systems.
- The round-trip lemmas cover only values the `Format` functions can print. For Siebel these are valid date-times at a whole second with a year of at most nine digits. For Salesforce they have a four-digit year and are printed with a three-digit fraction.
