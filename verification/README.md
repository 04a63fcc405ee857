# Verified models of PHP extension code

Dafny models of six parts of the PHP extensions, with proofs of what each promises:

- **Calendars** (`calendar/`): conversion between serial day numbers and Gregorian and Julian dates, the day of the
  week, and the date of Easter. The reference is `CivilCalendar`: month lengths, leap rules and a successor function
  that goes from one day to the next. The conversions are closed forms of nested truncating divisions, and are proved
  to agree with counting days one at a time, over the whole range of the C types.
- **bzip2 stream filters** (`bz2/bz2_filter.c`): the two re-buffering filters, written as classes over their buffers.
  The bzip2 library is any function of what it has seen that keeps to a contract (`Bz2Codec.DecodeAllows`,
  `Bz2Codec.EncodeAllows`); an error is always within it. The filters are proved against functions that say what is
  handed to the library, call by call. With a library that accepts the data the output does not depend on how the
  input is cut, and there are such libraries for every format that can be written and read bit by bit (`Bz2Libraries`).
- **Constant databases** (`dba/dba_cdb.c`, `dba/libcdb/`): the file format, the writer with its bucket sort and its
  linear-probing hash tables, the search, and the key traversal. What is stored is what is found, in the order of
  storing, in files of up to four gigabytes, and a traversal is not disturbed by other calls. The hash is proved to be
  that of the source's 32-bit operators (`CdbHash`), and complete files are described byte by byte, as another program
  would search them (`CdbLayout`).
- **dba handles and keys** (`dba/dba.c`): which opens are admitted, over all runs of opens and closes; and the printing
  and parsing of (group, name) keys.
- **Dates** (`date/php_date.c`): the listing of time zone transitions and the `DatePeriod` iterator.
- **DOM documents** (`dom/documentfragment.c`): giving a whole tree its document, on a heap of linked nodes.

## How to read it

Each file holds one module; the file's first comment says which source it follows. Code that changes state is modelled
by classes and methods, closed forms by functions. A method is proved against a specification function or against the
reference, and the lemmas beside it are about that specification.

C integers: `Int32` and `Int64` are the C `int` and `long` of an LP64 platform; `Div` and `Mod` truncate toward zero.
Where a value would not fit the signed variable it is assigned to, the model has an explicit overflow outcome
(`DateOverflow`, `SdnOverflow`), and the exact inputs that lead there are proved. Unsigned 32-bit arithmetic wraps
explicitly (`% WORD`).

`dafny verify dfyconfig.toml` checks everything.

## Where the code does not do what one would expect

- `SdnToGregorian` has no range check on the year: past day 784352264200 an intermediate value leaves `int`
  (`Gregor.SdnToGregorian`). `SdnToJulian` has one, but `year += 1` can still overflow, for exactly the sixty days
  784368370290 to 784368370349 (`Julian.SdnToJulian`).
- `GregorianToSdn` and `JulianToSdn` overflow `int` products long before the year does, so the round trip of
  `calendar/sdncal.h:47-64` holds exactly up to day 536874430 and day 536839030 (`Gregor.RoundTrip`,
  `Julian.RoundTrip`).
- The Easter correction divides negative numbers for years before 1600 and 1400. The cycle of 5700000 years holds for
  the correction exactly from 1401 on without 1500 (`Easter.CorrectionCycle`), and for Easter itself exactly when no
  Sunday lies between the two full moons (`Easter.GregorianEasterRepeats`); "always Gregorian" in 1500 is a year in which
  it fails (`Easter.TruncationBreaksCycle`).
- `easter_date` under "always Julian" hands a Julian date to `mktime`, which reads it as a Gregorian one: the timestamp
  is that of a Monday, in every year it accepts (`Calendars.TimestampWeekday`).
- `DatePeriod` asked for `INT_MAX` recurrences including the start keeps a negative count and yields nothing
  (`DatePeriod.CountIsKept`).
- The lock check of `php_dba_open` looks at the first handle on a path only. That keeps exclusive handles alone on their
  path exactly when no open uses '-' and every database that is itself locked is opened under its real path
  (`DbaLocks.ExclusiveLocksExcludeExactly`, `DbaLocks.PlainIsExact`). After any open with '-', and on any path that is
  not the real one, the scan admits a second writer (`DbaLocks.UnlockedHandleHidesWriters`,
  `DbaLocks.AliasEscapesWriter`); what can still keep it out is the lock on the stream, where the system holds that lock
  per open file rather than per process.
- `php_dba_make_key` prints with `%s` and so stops at a NUL; which pairs survive is proved exactly
  (`DbaKeys.SplitOfMadeKey`).
- A call of the compress filter that both brings data and closes fails if the library ends the stream on that data,
  since BZ_STREAM_END is not among the results line 241 accepts. When a call fails is exact
  (`Bz2Compress.Filter.Compress`), and there is a library for which the same data fails in one closing call and
  succeeds in two calls (`Bz2Compress.CutDecides`).
- Both filters drop an error that the library reports in the closing loop: the call reports success, with output
  missing (`Bz2Decompress.ErrorAtCloseIsDropped`, `Bz2Compress.ErrorAtCloseIsDropped`).
- With `concatenated` the decompress filter returns early when a stream ends in a library call that puts nothing out, and
  leaves the rest of the bucket and all further buckets unread (lines 147-150). With a library that never ends a stream so
  all streams of the input are decoded, however it is cut (`Bz2Concatenated.UseConcatenated`); with one that does, the
  cut decides what is lost (`Bz2Concatenated.SilentEndLosesStream`).
- A cdb traversal seeks through an `int`. In a file of more than two gigabytes it stops, without an error, at the first
  record that starts behind that, while fetches go on to find every record (`Cdb.NextVisits`, `Cdb.ReachesAll`,
  `CdbDatabase.StoreAndServe`).
- On a database without records firstkey returns nothing, but leaves the position at 0, and nextkey reads the header for a
  record: it yields 2048 bytes of it exactly if the file is at least 2056 bytes long (`Cdb.HeaderAsRecord`). A file as
  the writer leaves it is shorter.
- An insert that would pass four gigabytes is refused only after the record has been written and entered: its size is
  counted in part, and the positions noted from then on are not those written to (`CdbMake.Maker.Add`).

## Model

| member | source | states |
|---|---|---|
| `Gregor.SdnToGregorian` | calendar/gregor.c:137-191 | Every supported day number gives the date reached from 25 November 4714 B.C. by counting days one at a time; zero date outside the guard; overflow for exactly the rest |
| `Gregor.DigitsOfNthDay` | calendar/gregor.c:154-167 | The 400-year, 4-year and 5-month divisions recover century, day of the century, year, day of the year, month and day of the date counted to |
| `Gregor.CenturyCycle` | calendar/gregor.c:156-160 | Dividing by the 400-year cycle separates the century from the day within it, leap days included |
| `Gregor.YearCycle` | calendar/gregor.c:161-162 | Dividing by the 4-year cycle separates the year of the century from the day of the year |
| `Gregor.LastIntDay` | calendar/gregor.c:157-173 | The last day whose year fits an `int` at every step, as an equivalence |
| `Gregor.ClosedForm` | calendar/gregor.c:231-235 | For triples not refused, the formula is the closed-form day number, or overflows exactly past March-year 1469999 |
| `Gregor.ToSdnOutcome` | calendar/gregor.c:193-236 | Zero exactly for refused triples, overflow exactly past March-year 1469999, else a positive day number |
| `Gregor.SurvivesIffReal` | calendar/sdncal.h:47-64 | A triple that gets a positive number comes back unchanged if and only if it is a real Gregorian date |
| `Gregor.AcceptedDates` | calendar/gregor.c:201-215 | A real date is refused if and only if it lies before day 1 |
| `Gregor.ToSdnOfDate` | calendar/gregor.c:193-236 | A real date from day 1 on gets its number, up to the last one before overflow |
| `Gregor.RoundTrip` | calendar/gregor.c:137-236 | Day number to date and back is the identity, exactly up to day 536874430 |
| `Gregor.SdnOrder` | calendar/gregor.c:193-236 | Day numbers compare as the dates do |
| `Gregor.IsValidDate` | calendar/sdncal.h:50-64 | The documented validity test, run on both conversions, accepts exactly the real dates in range |
| `Gregor.ZeroExactly` | calendar/gregor.c:201-215 | 0 is the answer exactly to year 0, a month outside 1-12, a day outside 1-31, and what lies before the first day |
| `Gregor.SpillOver` | calendar/gregor.c:231-235 | A day number up to 31 that the month does not reach counts on from its last day, and is that of a day of the next month |
| `Gregor.KnownDays` | calendar/gregor.c:193-236 | 1 January 2000 is 2451545; 30 February and 2 March 2001 both are 2451971 |
| `Gregor.GuardIsExact` | calendar/gregor.c:150-154 | The guard keeps exactly the day numbers of which four times the offset number fits a `long` |
| `SerialDay.SerialOfNextDay` | calendar/gregor.c:231-235 | The closed form, in both calendars, grows by one from each day to its successor |
| `SerialDay.SerialOfNthDay` | calendar/gregor.c:193-236 | The closed form of the n-th day counted is n, in both calendars |
| `SerialDay.SerialInjective` | calendar/julian.c:250-253 | Different real dates have different numbers, in both calendars |
| `SerialDay.CountingReaches` | calendar/sdncal.h:47-64 | Every real date from day 1 on is reached by counting to its number |
| `SerialDay.SerialOrder` | calendar/sdncal.h:47-64 | Numeric order is chronological order, in both calendars |
| `SerialDay.ToCivil` | calendar/gregor.c:164-180 | The final steps turn a March-based year and day into the civil date; overflow exactly for January and February of year INT_MAX + 1 |
| `SerialDay.MonthCycle` | calendar/gregor.c:164-167 | Dividing by the 5-month cycle finds month and day of every real date |
| `Julian.SdnToJulian` | calendar/julian.c:155-213 | Every supported day number gives the date reached from 2 January 4713 B.C. by counting; zero date outside the guards; overflow for exactly sixty days |
| `Julian.DigitsOfNthDay` | calendar/julian.c:174-189 | The 4-year and 5-month divisions recover year, day of the year, month and day of the date counted to |
| `Julian.YearCycle` | calendar/julian.c:177-184 | Dividing by the 4-year cycle separates the year from the day of the year |
| `Julian.LastIntDay` | calendar/julian.c:177-195 | Exactly which days have a March-year, and a civil year, within `int` |
| `Julian.ClosedForm` | calendar/julian.c:250-253 | For triples not refused, the formula is the closed-form day number, or overflows exactly past March-year INT_MAX / 1461 |
| `Julian.ToSdnOutcome` | calendar/julian.c:215-254 | Zero exactly for refused triples, overflow exactly past March-year INT_MAX / 1461, else a positive day number |
| `Julian.SurvivesIffReal` | calendar/sdncal.h:47-64 | A triple that gets a positive number comes back unchanged if and only if it is a real Julian date |
| `Julian.AcceptedDates` | calendar/julian.c:223-234 | A real date is refused if and only if it lies before day 1 |
| `Julian.ToSdnOfDate` | calendar/julian.c:215-254 | A real date from day 1 on gets its number, up to the last one before overflow |
| `Julian.RoundTrip` | calendar/julian.c:155-254 | Day number to date and back is the identity, exactly up to day 536839030 |
| `Julian.SdnOrder` | calendar/julian.c:215-254 | Day numbers compare as the dates do |
| `Julian.IsValidDate` | calendar/sdncal.h:50-64 | The documented validity test, run on both conversions, accepts exactly the real dates in range |
| `Julian.ZeroExactly` | calendar/julian.c:223-234 | 0 is the answer exactly to year 0, a month outside 1-12, a day outside 1-31, and what lies before the first day |
| `Julian.SpillOver` | calendar/julian.c:250-253 | A day number up to 31 that the month does not reach counts on from its last day, and is that of a day of the next month |
| `Julian.KnownDays` | calendar/julian.c:215-254 | 4 October 1582 is 2299160; 30 February 1500 has a number too, 2268993 |
| `Dow.Congruence` | calendar/dow.c:34-45 | With its correction of negative remainders the result is the residue of the day number plus one modulo 7 |
| `Dow.WeekdaysInOrder` | calendar/dow.c:34-45 | Weekdays follow each other over all day numbers, negative ones included |
| `Easter.CalEaster` | calendar/easter.c:27-122 | For every year the days after 21 March lead to what the dominical number calls the first Sunday after the corrected full moon, and from year 1 on that is Easter by the day count; with a timestamp asked for, a date of Easter, or FALSE exactly outside 1970-2037 |
| `Easter.Report` | calendar/easter.c:100-118 | The March and April branches name a real date that is Easter |
| `Easter.DominicalFindsSundays` | calendar/easter.c:65-78 | The dominical number decides which days after 21 March are Sundays by the day count |
| `Easter.SundayAfter` | calendar/easter.c:93-98 | The corrected remainder leads from the full moon to the first day that the dominical number calls a Sunday |
| `Easter.FirstAfterMoonIsEaster` | calendar/easter.c:65-98 | What the dominical number calls the first Sunday after the moon is Easter by the day count, and nothing else is |
| `Easter.MarchAprilSplit` | calendar/easter.c:107-113 | Both branches name the day that many days after 21 March |
| `Easter.EasterIsUnique` | calendar/easter.c:93-98 | There is one Easter in a year, 1 to 35 days after 21 March |
| `Easter.DistinctMoons` | calendar/easter.c:70-91 | For one correction the 19 golden numbers have 19 different corrected full moons |
| `Easter.DistinctPaschalMoons` | calendar/easter.c:70-91 | Two years with equal correction share a full moon if and only if they share a golden number |
| `Easter.MovedWhenTaken` | calendar/easter.c:89-91 | 29 is always moved to 28, and 28 to 27 exactly when 28 is where another golden number's 29 moves |
| `Easter.JulianMoonByCycle` | calendar/easter.c:59-73 | From year 1 on the Julian full moon is that of the classical 19-year rule |
| `Easter.GregorianMoonByCycle` | calendar/easter.c:80-86 | The uncorrected Gregorian full moon is that of the classical rule with the number of the century, if and only if the year is 1401 or later and not 1500 |
| `Easter.RuleOfChoice` | calendar/easter.c:61-63 | Which years are Gregorian for each of the four choices of calendar/php_calendar.h:43-46 and for any other number |
| `Easter.KnownEasters` | calendar/easter.c:59-98 | Easter of 1492, 1913, 1999 and 2000, as calendar/tests/easter_days.phpt and easter_date.phpt have it |
| `Easter.EastersByRule` | calendar/easter.c:61-63 | Easter on both sides of the two changes of rule: 1752 and 1753 by default, 1582 and 1583 for choice 1 |
| `Easter.TruncatedResidue` | calendar/easter.c:65-96 | A C remainder, plus the divisor if negative, is the residue |
| `Easter.JulianEasterCycle` | calendar/easter.c:63-98 | In the Julian branch Easter repeats every 532 years |
| `Easter.CorrectionCycle` | calendar/easter.c:80-83 | The Gregorian correction repeats after 5700000 years, up to whole lunar cycles, if and only if the year is at least 1401 and not 1500 |
| `Easter.EasterInClosedForm` | calendar/easter.c:93-98 | Easter is the Sunday after the week in which the full moon falls, in closed form |
| `Easter.GregorianEasterRepeats` | calendar/easter.c:74-98 | In the Gregorian branch Easter is the same after 5700000 years if and only if no Sunday lies between the two full moons, for every year from 1 |
| `Easter.GregorianEasterCycle` | calendar/easter.c:74-98 | So it repeats for every year from 1401 other than 1500 |
| `Easter.TruncationBreaksCycle` | calendar/easter.c:80-83 | In the year 1500 the truncating divisions put Easter elsewhere than 5700000 years later |
| `Calendars.CalendarGap` | calendar/julian.c:250-253 | The two day numbers of one triple differ by c - floor(c/4) - 2 for the century c counted from March |
| `Calendars.ReformOf1582` | calendar/gregor.c:231-235 | Thursday 4 October 1582 (Julian) and Friday 15 October 1582 (Gregorian) have consecutive numbers |
| `Calendars.EasterIsSunday` | calendar/dow.c:34-45 | Easter has day of the week 0 by the repository's own conversions and day of the week |
| `Calendars.NoEarlierSunday` | calendar/easter.c:89-98 | No day between the full moon and Easter is a Sunday |
| `Calendars.TimestampWeekday` | calendar/easter.c:100-115 | The date of which a timestamp is made is a Sunday of the Gregorian calendar, except under "always Julian", where it is a Monday |
| `DbaKeys.SplitOfMadeKey` | dba/dba.c:203-227 | Splitting a made key gives (group, name) back if and only if the pair is representable, NULs considered |
| `DbaKeys.MakeOfSplitKey` | dba/dba.c:1064-1070 | Making a key of a split one gives it back, except exactly for a written-out empty group and for NULs in grouped keys |
| `DbaKeys.MakeKeyInjective` | dba/dba.c:203-227 | Different representable pairs have different keys |
| `DbaKeys.StrChrFindsFirst` | dba/dba.c:1064 | The search for ']' finds the first one before any NUL, and finds one if there is one |
| `DbaKeys.KeyOfPair` | dba/dba.c:203-240 | A name as a scalar and with an empty group is its own key; another pair is printed as group in brackets and name |
| `DbaKeys.KeyNeedsPair` | dba/dba.c:210-213 | No key exactly for an array without two elements |
| `DbaKeys.OnlyTextIsSplit` | dba/dba.c:1055-1063 | FALSE exactly for null and FALSE |
| `DbaLocks.ResourceList.Find` | dba/dba.c:589-609 | The scan over resource ids returns the dba handle with the lowest id on the path |
| `DbaLocks.FindFrom` | dba/dba.c:589-609 | The first match: a handle on the path, with none before it; none only if there is none |
| `DbaLocks.ResourceList.Open` | dba/dba.c:693-951 | An open decides by mode string, first handle on the path and environment, and registers the handle under the locked path and lock mode |
| `DbaLocks.ResourceList.Close` | dba/dba.c:973-985 | A handle leaves the list, other resources stay |
| `DbaLocks.PlainModesLock` | dba/dba.c:693-790 | Without '-' every admitted mode locks: reading shares, everything else is exclusive |
| `DbaLocks.ModeLanguage` | dba/dba.c:693-809 | The modes accepted, as strings, for any lock flags of a handler: a letter of "rwcn", then d, l or -, then t where a lock is taken |
| `DbaLocks.ModeMeaning` | dba/dba.c:710-801 | For each of them whether there is a lock, shared or exclusive, whether it waits, and whether it is one on the database |
| `DbaLocks.OpenRegisters` | dba/dba.c:811-950 | An open registers exactly one handle, with which lock, path and id, if and only if the mode is accepted, the first handle on the path is compatible, the lock is granted and the driver opens; otherwise nothing changes |
| `DbaLocks.CloseUndoesOpen` | dba/dba.c:973-985 | Closing what was opened leaves the list as it was; the id stays used |
| `DbaLocks.FirstMatchSuffices` | dba/dba.c:820-832 | The check on the first match decides as a check on all handles would, if and only if no unlocked first match hides a conflicting handle |
| `DbaLocks.OpenKeepsSafe` | dba/dba.c:820-832 | One plain open keeps the handles on each path free of conflicts and locked |
| `DbaLocks.PlainIsExact` | dba/dba.c:820-832 | An open that nothing outside prevents keeps every safe state safe if and only if it is plain: no '-', and the real path where the database itself is locked |
| `DbaLocks.SafeAfter` | dba/dba.c:614-951 | After every run of plain opens and closes no two handles on a path conflict |
| `DbaLocks.ExclusiveLocksExclude` | dba/dba.c:820-832 | After every run of plain opens and closes a LOCK_EX handle is the only handle on its path |
| `DbaLocks.ExclusiveLocksExcludeExactly` | dba/dba.c:820-832 | An open may be added to all runs of plain opens without costing exclusive handles their solitude if and only if it is plain |
| `DbaLocks.UnlockedHandleHidesWriters` | dba/dba.c:723-730 | After any '-' open the scan admits a writer beside a writer; with the stream locks granted the run ends with two exclusive handles on a path |
| `DbaLocks.UnlockedHandleHidesOthers` | dba/dba.c:723-730 | An instance: one '-' open and two writers |
| `DbaLocks.AliasEscapesWriter` | dba/dba.c:834-836 | On any path that is not the real path the scan misses a writer there; with the stream lock granted its handle is not alone |
| `DbaLocks.AliasEscapesScan` | dba/dba.c:834-836 | An instance: two writers under two names |
| `TimezoneTransitions.TransitionsGet` | date/php_date.c:3909-3944 | The loops produce one element for the beginning of the range and the transitions from the first later one on, in all branches |
| `TimezoneTransitions.FirstAfter` | date/php_date.c:3916-3929 | The first transition after the beginning: none before it is later, it is |
| `TimezoneTransitions.ListingIsFaithful` | date/php_date.c:3869-3945 | At every moment of the range the last element not later carries the type in force, or the first type before any transition |
| `TimezoneTransitions.ListingIsExact` | date/php_date.c:3938-3943 | Behind the first element are exactly the transitions strictly inside the range |
| `TimezoneTransitions.ListingAscends` | date/php_date.c:3909-3944 | The listing is in strict time order |
| `TimezoneTransitions.ListingWithinRange` | date/php_date.c:3885-3944 | The listing starts at the beginning of the range and everything else in it lies strictly inside |
| `DatePeriod.Iterator.Rewind` | date/php_date.c:1955-1966 | Index zero, and the period's current time is its start again |
| `DatePeriod.Iterator.HasMore` | date/php_date.c:1885-1905 | Asking moves the time on, except at first in an including period; more while before the end, or below the count |
| `DatePeriod.Iterator.Foreach` | date/php_date.c:1885-1967 | The dates are the start stepped 0, 1, 2, ... (or 1, 2, ...) times; as many as the count, or up to the first one not before the end, for any step that gets there |
| `DatePeriod.Iterator.ForeachUpTo` | date/php_date.c:1885-1967 | Left after a limit, on any period: the same dates up to the limit, and exactly as many as the limit when the end is never reached |
| `DatePeriod.Period.constructor` | date/php_date.c:4452-4456 | The count kept includes the start date, cut to an `int` |
| `DatePeriod.CountIsKept` | date/php_date.c:4456 | The count survives the `int` up to INT_MAX when the start is excluded, below INT_MAX when it is included, and not beyond |
| `DatePeriod.BothModes` | date/php_date.c:1885-1967 | Without an end, iterating over both periods made from one count: both stop at the start stepped that often, and excluding the start drops exactly the first date |
| `DatePeriod.BothModesToEnd` | date/php_date.c:1885-1967 | With an end and an increasing step, iterating over both periods: excluding the start drops exactly the first date, if there is one |
| `DatePeriod.IncreasingEnds` | date/php_date.c:1900-1901 | An increasing step passes every end, so the iteration stops |
| `DatePeriod.EndedRuns` | date/php_date.c:1892-1901 | Of two runs up to one end, the excluding one is the including one without its first date, whatever the step, and both are empty for an increasing step when the start is not before the end |
| `DomTree.SetTreeDoc` | dom/documentfragment.c:89-118 | Exactly the nodes and attributes of the subtree get the document; no other document and no other field changes |
| `DomTree.SetListDoc` | dom/documentfragment.c:109-115 | The same for a sibling list and all below it |
| `DomTree.SetAttributesDoc` | dom/documentfragment.c:95-108 | The same for an attribute list and all below it |
| `DomTree.Links.SubtreeIsLeastClosed` | dom/documentfragment.c:89-118 | The subtree is the least set with the root that follows every link except to the root's siblings |
| `DomTree.Links.SiblingStaysOut` | dom/documentfragment.c:89-118 | The root's next sibling is not in the subtree when nothing else links to it |
| `DomTree.SubtreeInHeap` | dom/documentfragment.c:89-118 | In terms of the fields in the heap: the subtree is the least set of objects with the root that follows children, the properties of elements, and the siblings of all but the root |
| `Bz2Decompress.Filter.constructor` | bz2/bz2_filter.c:329-381 | A new filter has empty buffers of 2048 bytes and a decoder that is not started |
| `Bz2Decompress.Filter.Pass` | bz2/bz2_filter.c:95-151 | One pass is one step of reading the bucket as specified, takes all output, leaves both buffers empty, and makes progress |
| `Bz2Decompress.Filter.FilterBucket` | bz2/bz2_filter.c:92-155 | A bucket is read to its end, to the early return or to a library error as specified; all that was put out is in the pieces |
| `Bz2Decompress.Filter.Drain` | bz2/bz2_filter.c:157-174 | At the close the library is asked until nothing comes or it does not answer Ok, and all of it is put out |
| `Bz2Decompress.FeedInStep` | bz2/bz2_filter.c:95-151 | For a single stream reading a bucket feeds it up to the end of the stream, and the output is the decoder's own |
| `Bz2Decompress.DrainingInStep` | bz2/bz2_filter.c:157-174 | Without an error, draining leaves nothing in the decoder |
| `Bz2Decompress.Filter.Decompress` | bz2/bz2_filter.c:67-181 | Fatal if and only if the library refuses a start or data; all output is passed on in either mode; for a single stream, after a close without library error, the output of all calls is the decoding of the input's first stream; passes on exactly with output or at an early return; `bytes_consumed` is set exactly without an early return, is never less than the input, and is the input's length unless the stream ends in this call |
| `Bz2Decompress.CallsAccepted` | bz2/bz2_filter.c:67-181 | With a library that accepts the input no call meets a library error, however the input is cut |
| `Bz2Decompress.Use` | bz2/bz2_filter.c:67-181 | Chunking independence: for any calls and buckets ending in a close the output is the decoding of the first stream of the joined input, unless the library reports an error, and always with a library that accepts the input; failed exactly on a library error |
| `Bz2Decompress.ErrorAtCloseIsDropped` | bz2/bz2_filter.c:159-180 | A library whose error at the close makes the filter ask for more, with no output, where a byte should have come |
| `Bz2Concatenated.UseConcatenated` | bz2/bz2_filter.c:67-181 | With `concatenated` and a library that ends no stream in silence: for any calls and buckets the output is the decoding of all streams of the joined input, one after the other, unless the library reports an error; failed exactly on a library error |
| `Bz2Concatenated.FeedInSequence` | bz2/bz2_filter.c:95-151 | Reading a bucket completes streams and starts a new decoder behind each; all output belongs to the streams read so far |
| `Bz2Concatenated.AllStreams` | bz2/bz2_filter.c:121-127 | With everything put out the output is the decoding of all streams |
| `Bz2Concatenated.SilentEndLosesStream` | bz2/bz2_filter.c:147-150 | A library within the contract that ends a stream in silence: two streams come out of two calls, and the second is lost in one bucket |
| `Bz2Concatenated.BothStreamsComeOut` | bz2/bz2_filter.c:95-151 | A library that does not: both streams come out of one bucket |
| `Bz2Codec.StreamIsFirst` | bz2/bz2_filter.c:121-127 | The stream of an input is its shortest complete prefix, or all of it |
| `Bz2Compress.Filter.Pass` | bz2/bz2_filter.c:232-262 | One pass makes one library call with the next bytes, takes all output and leaves both buffers empty; fatal exactly if the answer is not Ok |
| `Bz2Compress.HandOverAllTakes` | bz2/bz2_filter.c:227-264 | Data that is not refused is taken, each byte once and in order; it is refused with an error, or when asked to finish with the end of the stream |
| `Bz2Compress.FinishingEnds` | bz2/bz2_filter.c:266-281 | Finishing ends with an error or with one complete stream of all that was received |
| `Bz2Compress.Filter.FilterBucket` | bz2/bz2_filter.c:227-264 | A bucket is handed over as specified; fatal exactly if the library does not answer Ok; otherwise all output is in the pieces and all input counted |
| `Bz2Compress.Filter.Drain` | bz2/bz2_filter.c:266-281 | At the close the library is asked to finish until it does not answer Ok, and all of it is put out |
| `Bz2Compress.Filter.Compress` | bz2/bz2_filter.c:205-287 | Fatal if and only if the library answers other than Ok while data is handed over, so never without data, and with the end of the stream only on a closing call; otherwise conservation: every byte is handed over once and in order, all output passed on, `bytes_consumed` is the input length; after an incremental flush that brought data and left room in its last bucket nothing received is held back, with a library that flushes |
| `Bz2Compress.ClosingWithDataIsRefused` | bz2/bz2_filter.c:240-245 | A format, an input and an answer within the contract with which a closing call with data is refused |
| `Bz2Compress.CutDecides` | bz2/bz2_filter.c:205-287 | The same data fails in one closing call and gives a complete stream in two calls |
| `Bz2Compress.FlushDecides` | bz2/bz2_filter.c:240 | A library for which the same call asks for more with the normal flag, and passes on all of the data with the incremental flush |
| `Bz2Compress.ErrorAtCloseIsDropped` | bz2/bz2_filter.c:266-286 | A library whose error at the close makes the filter ask for more, with no stream put out |
| `Bz2Compress.CallsAccepted` | bz2/bz2_filter.c:205-287 | With a library that accepts the data no call meets a library error, however the data is cut |
| `Bz2Compress.Use` | bz2/bz2_filter.c:205-287 | For any cut of the data the output is one complete stream that decodes to the data, unless the library reports an error, and always with a library that accepts the data; failed exactly on a library error |
| `Bz2Compress.RoundTrip` | bz2/bz2_filter.c:67-287 | Compressing and decompressing gives the data back, for any cut of the data and of the compressed bytes, unless a library reports an error, and always with libraries that accept data and streams |
| `Bz2Libraries.SteppingAccepts` | bz2/bz2_filter.c:119-131 | For every format that decodes gradually there is a decoder within the contract that accepts every input |
| `Bz2Libraries.BufferingAccepts` | bz2/bz2_filter.c:240-245 | For every format with an encoding function there is an encoder within the contract that accepts all data |
| `Bz2Libraries.RoundTripSucceeds` | bz2/bz2_filter.c:67-287 | Through both filters over these libraries the data comes back, for any cut and without any condition on errors |
| `CdbFormat.UnpackPack` | dba/libcdb/uint32.c:32-48 | Unpacking a packed word gives it back |
| `CdbFormat.RecordParts` | dba/libcdb/cdb_make.c:104-134 | Reading the words and bytes of a written record gives its lengths, key and data, and the next record's place |
| `CdbHash.HashIsLoop` | dba/libcdb/cdb.c:67-79 | The hash is what the loop of the source computes from 5381, in shifts and exclusive ors of 32-bit words (`bv32`) |
| `CdbHash.NumberOfBits` | dba/libcdb/uint32.h:28 | A word and its binary digits determine each other |
| `CdbHash.KnownHashes` | dba/libcdb/cdb.c:67-79 | The hash of "1" is 177556, that of "one" 193420161 |
| `CdbLayout.KnownBytes` | dba/libcdb/uint32.c:32-48 | Packing puts the least significant byte first |
| `CdbLayout.RecordInBytes` | dba/libcdb/cdb_make.c:104-134 | In a complete file each record stands where the sizes of those before it put it, as two little-endian words and its bytes, and the first word says where the records end |
| `CdbLayout.ReachableInBytes` | dba/libcdb/cdb.c:129-178 | In a complete file every record is met, before any free slot, by following the words of its hash value's table from the slot that the upper digits of the hash name |
| `CdbLayout.HeaderOf` | dba/libcdb/cdb.c:135-137 | The reader looks for the table of a key at eight times the lowest byte of its hash |
| `CdbLayout.HeaderOfOne` | dba/libcdb/cdb.c:135-137 | For the key "1" that is the pointer 148 |
| `CdbLayout.StepInBytes` | dba/dba_cdb.c:286-315 | A step on any file, well-formed or not: where it moves by the lengths it reads, in 32 bits, and which bytes it yields |
| `CdbLayout.FirstInBytes` | dba/dba_cdb.c:245-284 | The first step on any file, too short ones included |
| `Cdb.Reader.Seek` | dba/dba_cdb.c:239-242 | A position is accepted if and only if it lies before the end of the data and fits the `int` reported |
| `Cdb.Reader.FirstKey` | dba/dba_cdb.c:245-284 | First key and cursor, in every success and failure branch |
| `Cdb.Reader.NextKey` | dba/dba_cdb.c:286-315 | Next key and cursor, in every success and failure branch |
| `Cdb.FirstVisits` | dba/dba_cdb.c:257-281 | On a file that holds records the first step yields the first key and stands behind its record |
| `Cdb.NextVisits` | dba/dba_cdb.c:298-312 | A step yields the next record's key if and only if there is one and its offset fits the `int`; otherwise nothing, and no movement |
| `Cdb.ReachesAll` | dba/dba_cdb.c:228-242 | A traversal comes to all records if and only if the last one starts within two gigabytes |
| `Cdb.HeaderAsRecord` | dba/dba_cdb.c:298-312 | Without records the step after the first yields 2048 bytes of the header exactly if the file has eight bytes more than the header |
| `Cdb.Reader.Traverse` | dba/dba_cdb.c:245-315 | firstkey and repeated nextkey, with any fetch and exists calls in between, yield the keys of the records in file order, each once, up to the first that starts behind two gigabytes, then nothing for ever, and nothing at all on an empty file as the writer leaves it; and the other calls are answered rightly |
| `Cdb.Reader.ReadAt` | dba/libcdb/cdb.c:104-125 | All bytes asked for, or failure exactly when the file ends before |
| `Cdb.Reader.Match` | dba/libcdb/cdb.c:46-64 | Comparing in pieces of 32 bytes decides equality of the key |
| `Cdb.Reader.FindNext` | dba/libcdb/cdb.c:129-178 | On a complete file the calls find the records with the key one after the other in the order of adding, then none |
| `Cdb.ProbeDecides` | dba/libcdb/cdb.c:150-175 | What one slot says about the rest of a search, and that the search stays on its table, round its end |
| `Cdb.SearchBegins` | dba/libcdb/cdb.c:135-148 | The pointer leads to the table of the key's bucket, and nothing lies before the starting slot |
| `Cdb.Reader.Fetch` | dba/dba_cdb.c:149-178 | The value fetched is the `skip`-th one stored under the key, or none if there are not that many |
| `Cdb.Reader.Exists` | dba/dba_cdb.c:195-206 | True if and only if a record has the key |
| `CdbIndex.MatchIsValue` | dba/dba_cdb.c:159-164 | Skipping from match to match counts the values of a key in order |
| `CdbTables.InsertKeeps` | dba/libcdb/cdb_make.c:203-209 | Inserting an entry at the first free slot keeps every record findable and records of one hash value in order |
| `CdbTables.ProbesReachAll` | dba/libcdb/cdb_make.c:204-207 | A probe sequence that meets no free slot has seen a full table, so the loop ends |
| `CdbTables.EarlierCountsAll` | dba/libcdb/cdb_make.c:180-184 | The bucket counts add up to the number of entries |
| `CdbMake.CountEntries` | dba/libcdb/cdb_make.c:150-157 | The counts are the lengths of the buckets |
| `CdbMake.MemSize` | dba/libcdb/cdb_make.c:159-166 | The allocation has room for all entries and for every table |
| `CdbMake.SortByBucket` | dba/libcdb/cdb_make.c:180-190 | The sort by bucket is stable: each bucket's part of the array is its entries in the order of adding |
| `CdbMake.FirstFreeSlot` | dba/libcdb/cdb_make.c:204-207 | The first free slot from the hash value's start, with all slots on the way taken; found in a table that is not full |
| `CdbMake.FillTable` | dba/libcdb/cdb_make.c:199-209 | The table of a bucket holds exactly its records, each findable, equal hash values in the order of adding |
| `CdbMake.Maker.Add` | dba/libcdb/cdb_make.c:76-134 | One more record stands at the end of the file and among the entries; refused if and only if the file would pass four gigabytes, and then exactly how far it has been written, entered and counted |
| `CdbMake.Maker.Finish` | dba/libcdb/cdb_make.c:138-237 | The finished file has the records, a correct table for each bucket and pointers to them; it fails if and only if the file would pass four gigabytes |
| `CdbDatabase.Store` | dba/dba_cdb.c:180-193 | Any records stored and closed within four gigabytes give a complete file |
| `CdbDatabase.StoreAndServe` | dba/dba_cdb.c:121-315 | From the writer to the reader: a traversal finds the stored keys in order, and every fetch and exists call during it finds the stored values in order and no others |

## Left out

- 32-bit `long`: the day number guards and Easter sums are for the 64-bit `long` of LP64.
- Easter.CalEaster: for years up to 0 the result is tied to the moon and the dominical number only, not to a day count; `mktime` and the current year as default are not part of this model.
- calendar/french.c, calendar/cal_unix.c, calendar/jewish.c and the month names.
- The bzip2 library: its calls are any answer within the stated contract; `small` and block-size parameters do not matter to it.
- Bz2Decompress.Filter.Decompress: by how much `bytes_consumed` exceeds the input when the stream ends in a call is not stated (line 108 adds the whole bucket).
- Bz2Concatenated.UseConcatenated: with a library that ends some stream in silence, which buckets and bytes are lost is not stated beyond the specified run (`Bz2Decompress.CalledAll`); and no library is shown to accept every input of several streams.
- Bucket reference counts, memory failure and the arguments of the filter factory.
- I/O errors and short reads of streams: a read returns what the file has, a write succeeds.
- Cdb.Reader.Traverse: on an empty database in a longer file than the writer leaves, only the first nextkey call is described.
- Cdb.Reader.FindNext: on a file that is not complete, or is longer than four gigabytes, nothing is promised about what a search finds.
- Cdb.Reader.Fetch: keys and values are sequences; that PHP keeps their lengths in an `int` is not modelled.
- CdbMake.Maker.Add: what a close after a refused record makes of the file is not followed further than the state in which the refusal leaves the writer.
- The chunks of 1000 entries in which the cdb writer keeps its list, and the one allocation its two arrays share: modelled as a sequence and two arrays.
- dba_delete, dba_optimize and dba_sync for cdb (constant answers), and the other dba drivers.
- DbaLocks.ResourceList.Open: persistent handles, lock files beside the database, flock itself and handlers that lock internally; what the operating system answers is a parameter.
- The "time" string of listed transitions, zones that are not identifiers, and the parsing of zone files.
- DatePeriod.Iterator.Foreach: a period whose dates never reach its end iterates for ever; what it yields is the contract of ForeachUpTo. Time is abstract, one step is a function; the wrap of the `int` index is not modelled for periods with an end date; nested iteration over one period, keys and the ISO form of the constructor are left out.
- Node kinds, read-only checks and parsing in dom/documentfragment.c other than what the document update looks at.
- bcmath, com_dotnet, ctype, curl, the rest of date, dba and dom, and all other extensions.
