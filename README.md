# seantis.reservation: time rules, identifiers, links and the monthly report

A Dafny model of the self-contained rules of the seantis.reservation booking
engine:

- the helpers of `seantis/reservation/utils.py`:
  - the closed-interval overlap test;
  - request ids read from their digits;
  - the `memoize` cache;
  - uuid matching, mirror generation and catalog queries;
  - the compare and monthly report links;
  - the site e-mail sender and resource titles;
  - event classes;
  - `flatten`, `pairs` and `pairwise`;
  - `total_timedelta_seconds`;
  - the merge of reserved slots;
  - the `EventUrls` menu;
  - `get_date_range` and `shift_day`;
  - `mock_data_dictionary`.
- the timeframe rules of `seantis/reservation/timeframe.py`:
  - the date-range invariant;
  - `timestr`;
  - overlap search and validation;
  - the walk up the acquisition chain.
- `monthly_report` of `seantis/reservation/report.py`:
  - the day-by-resource skeleton over the month's calendar grid;
  - the period bounds and the allocation query;
  - grouping by reservation group;
  - expansion of group reservations;
  - the `approved`/`pending` buckets kept sorted by start.

Modules, one per file:

| module | contents |
|---|---|
| `Wrappers` | `Option` and `Result` |
| `Decimal` | `str()`/`int()` on naturals, and zero padding |
| `Dates` | proleptic Gregorian dates and the ordinal |
| `Intervals` | overlap test, timedeltas, date ranges, weekday shift |
| `SlotMerge` | `merge_reserved_slots` |
| `Identifiers` | `is_uuid`, `generate_uuids`, `uuid_query`, `request_id_as_int` |
| `ListHelpers` | `flatten`, `pairs`, `pairwise` |
| `SiteText` | event class, sender, title, links, mock data dictionary |
| `Memo` | `memoize` |
| `EventMenu` | `EventUrls` |
| `Timeframes` | `timeframe.py` |
| `CalendarGrid` | the day numbers of `Calendar().itermonthdates` |
| `Report` | `monthly_report` |

Collaborators become inputs:

- The CMS catalog becomes a function from an object to its timeframes.
- The exposure check becomes a predicate on view names.
- `urlparam` and the translator become functions.
- `uuid5` becomes a function.
- The database tables become sequences in the order the database returns them.
- The resource titles and their display order become inputs.

Where `monthly_report` and `merge_reserved_slots` are wrong, the model keeps both versions:

- `Report.MonthlyReport` takes a `Variant`:
  - `AsWritten` follows the code line by line;
  - `Corrected` builds the report the code evidently means to build.
- In `SlotMerge`:
  - `MergeReservedSlots` is the loop as written;
  - `MergeAdjacent` is the merge its docstring describes.

Where the written description of the system and the code disagree, the model follows the code:

- Reservations come back with `pending` before `confirmed`. That is the declaration order of the `reservation_status` enum, by which the database sorts.

## Model

| member | source | states |
|---|---|---|
| Intervals.Overlaps | seantis/reservation/utils.py:131-138 | for well-formed ranges, true exactly when each range starts no later than the other ends (closed intervals) |
| Intervals.OverlapsSymmetric | seantis/reservation/utils.py:131-138 | the test does not depend on which range is given first |
| Intervals.OverlapsSelf | seantis/reservation/utils.py:131-138 | a range overlaps itself exactly when its start is not after its end |
| Intervals.TouchingRangesOverlap | seantis/reservation/utils.py:132-133 | a range ending where the next begins overlaps it |
| Intervals.TimedeltaOf | seantis/reservation/utils.py:458-459 | a timedelta in Python's normal form (seconds below a day, microseconds below a second) of exactly the given length |
| Intervals.TimedeltaOfTotal | seantis/reservation/utils.py:458-459 | a normalized timedelta is determined by its length |
| Intervals.TotalTimedeltaSeconds | seantis/reservation/utils.py:458-459 | the whole seconds of the length, rounded towards minus infinity; for a normal form, days times 86400 plus seconds |
| Intervals.TotalSecondsFloors | seantis/reservation/utils.py:459 | minus one microsecond is minus one second, not zero |
| Intervals.GetDateRange | seantis/reservation/utils.py:594-603 | the start is on the given day; the end moves to the next day exactly when the end time is before the start time; OverflowError exactly when that next day is past 9999-12-31 |
| Intervals.GetDateRangeSpan | seantis/reservation/utils.py:594-603 | the range is never negative and lasts less than 24 hours |
| Intervals.ShiftDay | seantis/reservation/utils.py:622-623 | a Plone weekday 0..6 that is 0 exactly for Python's Sunday |
| Intervals.ShiftDayRoundTrip | seantis/reservation/utils.py:622-623 | shifting is a bijection of the week with Monday at 1 and Sunday at 0 |
| Dates.OrdinalMonotone | seantis/reservation/timeframe.py:29 | Python's field-by-field date order is the order of the ordinals |
| Dates.KeyMonotone | seantis/reservation/utils.py:601 | the datetime order is the order of the timestamp keys |
| Dates.NextDay | seantis/reservation/utils.py:601 | adding one day to a valid date other than 9999-12-31 gives a valid date |
| Dates.OrdinalNextDay | seantis/reservation/utils.py:601 | the next day's ordinal is one more |
| Decimal.NatToString | seantis/reservation/utils.py:214-215 | `str(n)`: nonempty digits without leading zero, one digit exactly below ten |
| Decimal.ParseNatToString | seantis/reservation/utils.py:149 | `int(str(n)) == n` |
| Decimal.NatToStringInjective | seantis/reservation/utils.py:323-324 | different numbers have different spellings |
| Decimal.ZeroPad | seantis/reservation/timeframe.py:38-39 | `%d`/`%m`/`%Y` padding: digits only, as wide as the number or the field |
| Decimal.ParseZeroPad | seantis/reservation/timeframe.py:38-39 | a zero-padded number reads back as itself |
| Identifiers.CanonicalFormsMatch | seantis/reservation/utils.py:308-316 | the 32-hex and the hyphenated 36-character spellings both match the pattern |
| Identifiers.UuidMatchIgnoresSuffix | seantis/reservation/utils.py:313-314 | `re.match` anchors at the start only: anything may follow a match |
| Identifiers.UuidMatchLength | seantis/reservation/utils.py:308 | a matching string has at least 32 characters |
| Identifiers.UuidMatch | seantis/reservation/utils.py:308 | the pattern: five lower-case hex groups of 8, 4, 4, 4 and 12 digits, each group after the first optionally preceded by one `-`, anchored at the start only |
| Identifiers.IsUuid | seantis/reservation/utils.py:309-316 | a string passes when it matches the pattern, a `UUID` object always passes, anything else never |
| Identifiers.UuidMatchLowerCaseOnly | seantis/reservation/utils.py:308 | a 32-character identifier, plain or hyphenated, matches exactly when every hex digit is lower case; one upper-case digit anywhere refuses it |
| Identifiers.IsUuidCases | seantis/reservation/utils.py:309-316 | `is_uuid` accepts every `UUID` object, refuses an object that is neither string nor `UUID`, and accepts a 32-character identifier, plain or hyphenated, exactly when it is lower-case hex |
| Identifiers.GenerateUuids | seantis/reservation/utils.py:322-324 | max(0, quota-1) mirrors, the k-th named by `str(k+1)` |
| Identifiers.GenerateUuidsGrow | seantis/reservation/utils.py:322-324 | one more quota adds exactly the next mirror at the end |
| Identifiers.MirrorsDistinct | seantis/reservation/utils.py:322-324 | for an injective uuid5 that never returns its namespace, the mirrors are distinct and differ from the primary id |
| Identifiers.Dashed | seantis/reservation/utils.py:336-337 | the five groups 8-4-4-4-12 joined by hyphens, 36 characters |
| Identifiers.RemoveCharSpec | seantis/reservation/utils.py:335 | `replace('-', '')` leaves no hyphen and changes nothing without one |
| Identifiers.UuidQuery | seantis/reservation/utils.py:326-337 | the first spelling has no hyphen; a hyphenated input is the second, a plain one the first |
| Identifiers.UuidQueryPlain | seantis/reservation/utils.py:336-337 | a plain uuid gives itself and its hyphenated spelling |
| Identifiers.UuidQueryDashed | seantis/reservation/utils.py:334-335 | its hyphenated spelling gives the same pair |
| Identifiers.DashedUndashed | seantis/reservation/utils.py:334-337 | removing the hyphens undoes the hyphenation |
| Identifiers.DigitsOf | seantis/reservation/utils.py:140 | `re.findall(r'\d')` joined: digits only, no longer than the input |
| Identifiers.DigitsOfConcat | seantis/reservation/utils.py:149 | the digits of a concatenation are the concatenated digits |
| Identifiers.DigitsOfEmpty | seantis/reservation/utils.py:149 | no digits are found exactly when the string has none |
| Identifiers.RequestIdAsInt | seantis/reservation/utils.py:141-149 | None gives 0; fails exactly when the string has no digit |
| Identifiers.RequestIdFails | seantis/reservation/utils.py:149 | `int('')` raises exactly for strings without digits |
| Identifiers.RequestIdRoundTrip | seantis/reservation/utils.py:141-149 | the spelling of a number reads back as that number |
| Identifiers.RequestIdSkipsNonDigit | seantis/reservation/utils.py:142-143 | a non-digit anywhere is ignored |
| Identifiers.RequestIdExample | seantis/reservation/utils.py:142-143 | "11.11" gives 1111 |
| SlotMerge.SortByStart | seantis/reservation/utils.py:502 | sorted by start and a permutation of the slots |
| SlotMerge.SortSorted | seantis/reservation/utils.py:502 | slots already in start order come back unchanged |
| SlotMerge.SortByStartStable | seantis/reservation/utils.py:502 | the sort is stable: for every start, the slots with that start come out in the order they went in |
| SlotMerge.MergeReservedSlots | seantis/reservation/utils.py:478-519 | the loop computes the merge as written |
| SlotMerge.MergeNone | seantis/reservation/utils.py:504-519 | no slots, no timespans |
| SlotMerge.MergeOne | seantis/reservation/utils.py:499-500 | one slot comes back as one timespan of the same extent |
| SlotMerge.MergeAllAdjacent | seantis/reservation/utils.py:507-517 | when every gap passes the test, one timespan from the first start to the last end |
| SlotMerge.MergeDocstringExample | seantis/reservation/utils.py:485-490 | 08:00-08:14:59 and 08:15-08:29:59 give 08:00-08:29:59 |
| SlotMerge.MergeDropsIsolatedSlots | seantis/reservation/utils.py:512-517 | two slots an hour apart give one empty timespan |
| SlotMerge.MergeFusesSlotsADayApart | seantis/reservation/utils.py:509 | two slots a day apart are fused |
| SlotMerge.MergeAdjacent | seantis/reservation/utils.py:478-492 | corrected merge: empty exactly for no slots |
| SlotMerge.MergeAdjacentOne | seantis/reservation/utils.py:499-500 | one slot is one span |
| SlotMerge.MergeAdjacentCount | seantis/reservation/utils.py:478-492 | one span more than there are gaps between sorted slots |
| SlotMerge.MergeAdjacentAllContiguous | seantis/reservation/utils.py:485-490 | contiguous slots become one span from the first start to the last end |
| SlotMerge.MergeAdjacentNoneContiguous | seantis/reservation/utils.py:480-484 | slots of which none touch come back unchanged, in start order |
| SlotMerge.MergeAdjacentIdempotent | seantis/reservation/utils.py:480-484 | merging a merge changes nothing |
| SlotMerge.MergeAdjacentKeepsIsolatedSlots | seantis/reservation/utils.py:512-517 | the two slots an hour apart are both kept |
| SlotMerge.MergeAdjacentKeepsDaysApart | seantis/reservation/utils.py:509 | slots a day apart stay apart |
| ListHelpers.Flatten | seantis/reservation/utils.py:422-432 | as many elements as leaves |
| ListHelpers.FlattenLeaves | seantis/reservation/utils.py:427-432 | a flat list flattens to itself |
| ListHelpers.FlattenConcat | seantis/reservation/utils.py:427-432 | flattening distributes over concatenation |
| ListHelpers.FlattenIdempotent | seantis/reservation/utils.py:422-432 | flattening a flattened list changes nothing |
| ListHelpers.FlattenSplice | seantis/reservation/utils.py:428-430 | nested elements are yielded depth first, left to right: a nested list anywhere is replaced in place by its own flattening |
| ListHelpers.FlattenNested | seantis/reservation/utils.py:428-430 | the example `[[a, b], c]` flattens to `[a, b, c]` |
| ListHelpers.PairUp | seantis/reservation/utils.py:441-442 | floor(n/2) pairs, the i-th being elements 2i and 2i+1 |
| ListHelpers.UnpairPairUp | seantis/reservation/utils.py:434-442 | laying the pairs out again gives the list without an odd last element |
| ListHelpers.PairUpUnpair | seantis/reservation/utils.py:434-437 | pairing a laid-out list of pairs gives the pairs back |
| ListHelpers.PairsOfPairs | seantis/reservation/utils.py:435-437 | a flat list laid out from pairs, `(a,b,c,d)`, is paired back into exactly those pairs |
| ListHelpers.PairsOfNestedPairs | seantis/reservation/utils.py:435-437 | a list of nested two-item lists, `((a,b),(c,d))`, comes back as those same pairs |
| ListHelpers.Pairwise | seantis/reservation/utils.py:444-450 | n-1 pairs for n elements, none for none |
| ListHelpers.PairwiseComponents | seantis/reservation/utils.py:444-450 | the i-th pair is elements i and i+1 |
| SiteText.EventClass | seantis/reservation/utils.py:369-376 | unavailable exactly at 0, available exactly at 100, partly otherwise |
| SiteText.SiteEmailSender | seantis/reservation/utils.py:237-253 | None exactly without an address; the address alone without a name; otherwise `name<address>` |
| SiteText.SenderReadsBack | seantis/reservation/utils.py:237-253 | the sender string determines name and address |
| SiteText.ResourceTitle | seantis/reservation/utils.py:345-353 | the title alone without a parent, otherwise `parent - title` |
| SiteText.ResourceTitleEitherParent | seantis/reservation/utils.py:345-353 | both ways of reaching the parent give the same title, unlike no parent |
| SiteText.RStrip | seantis/reservation/utils.py:200 | the longest prefix that does not end in the character, with only that character cut |
| SiteText.Uuids | seantis/reservation/utils.py:195 | the uuids of the resources, in order |
| SiteText.CompareLink | seantis/reservation/utils.py:183-200 | empty below two shown resources; else the first's path, `?`, and one `compare_to=` per other resource, trailing `&` stripped |
| SiteText.ParamsSnoc | seantis/reservation/utils.py:197-198 | each further uuid appends one parameter |
| SiteText.ParamsJoinQuery | seantis/reservation/utils.py:197-198 | the loop output is the `&`-joined query plus one `&` |
| SiteText.JoinQueryEnd | seantis/reservation/utils.py:197-200 | the joined query ends in the last key and uuid |
| SiteText.CompareLinkQuery | seantis/reservation/utils.py:194-200 | the compare link is the path, `?` and the `&`-joined query |
| SiteText.MonthlyReportLink | seantis/reservation/utils.py:202-220 | empty without resources; else year, month and one `&uuid=` per resource |
| SiteText.ReportBaseReadsBack | seantis/reservation/utils.py:210-215 | the year and the month read back from the link |
| SiteText.MockDataDictionary | seantis/reservation/utils.py:111-129 | one form set under the key, whose records list the data's items in iteration order, numbered from 0 |
| SiteText.DistinctKeysCount | seantis/reservation/utils.py:126-127 | one record per key of the data |
| SiteText.MockRecordsCoverData | seantis/reservation/utils.py:126-127 | every key has exactly one record, carrying its value |
| Memo.Memoize.constructor | seantis/reservation/utils.py:156-158 | an empty cache for the function |
| Memo.Memoize.Call | seantis/reservation/utils.py:159-169 | always the function's value; a hashable argument is cached afterwards, nothing else changes |
| Memo.CallTwice | seantis/reservation/utils.py:159-165 | a second call gives the same value and finds it cached |
| EventMenu.EventUrls.constructor | seantis/reservation/utils.py:532-541 | an empty menu, empty order and empty links |
| EventMenu.EventUrls.GetRestricted | seantis/reservation/utils.py:544-567 | a link exactly for exposed views, built by `urlparam` |
| EventMenu.EventUrls.MenuAdd | seantis/reservation/utils.py:569-580 | nothing changes without a link; otherwise the entry is appended to its translated group and a new group to `order`; `order` keeps listing every group once |
| EventMenu.EventUrls.SetDefaultUrl | seantis/reservation/utils.py:582-586 | the default link is replaced only by a nonempty link |
| EventMenu.EventUrls.SetMoveUrl | seantis/reservation/utils.py:588-592 | the move link is replaced only by a nonempty link |
| EventMenu.FirstUse | seantis/reservation/utils.py:576-578 | the groups used, each once |
| EventMenu.AddKeepsBuilt | seantis/reservation/utils.py:569-580 | after any series of additions, each group lists its entries in order and `order` the groups by first use |
| EventMenu.ItemsOfAbsent | seantis/reservation/utils.py:576-577 | a group never added has no entries |
| Timeframes.IsValidDateRange | seantis/reservation/timeframe.py:27-30 | the only error is "End date before start date" |
| Timeframes.ValidDateRangeOrdinals | seantis/reservation/timeframe.py:28-30 | valid exactly when the start is not after the end |
| Timeframes.ValidDateRangeEdges | seantis/reservation/timeframe.py:29-30 | a one-day range is valid, an end a day before the start is not |
| Timeframes.FormatDate | seantis/reservation/timeframe.py:38-39 | `dd.mm.YYYY`, and ValueError exactly before 1900 |
| Timeframes.FormatDateReadsBack | seantis/reservation/timeframe.py:38-39 | day, month and year read back from the text |
| Timeframes.Timestr | seantis/reservation/timeframe.py:35-40 | 23 characters with ` - ` in the middle; fails exactly when a year is before 1900 |
| Timeframes.TimestrReadsBack | seantis/reservation/timeframe.py:35-40 | both dates read back from the text |
| Timeframes.SearchFolder | seantis/reservation/timeframe.py:91-94 | a timeframe's parent, any other object itself; AttributeError without portal type or parent |
| Timeframes.FirstOverlapping | seantis/reservation/timeframe.py:96-105 | a returned frame is among the frames, not the context, and overlaps the range |
| Timeframes.FirstOverlappingIsFirst | seantis/reservation/timeframe.py:98-105 | None exactly when no frame conflicts; otherwise no earlier frame conflicts |
| Timeframes.FirstOverlappingNone | seantis/reservation/timeframe.py:98-105 | the search finds nothing exactly when no frame other than the context overlaps |
| Timeframes.FirstOverlappingPrefix | seantis/reservation/timeframe.py:98-103 | a found frame is preceded only by the context or frames clear of the range |
| Timeframes.OverlappingTimeframe | seantis/reservation/timeframe.py:90-105 | fails exactly when the folder lookup fails; a result is an overlapping frame of the folder other than the context |
| Timeframes.OverlappingSkipsContext | seantis/reservation/timeframe.py:98-100 | a folder whose frames all carry the context's id yields no conflict |
| Timeframes.ValidateTimeframeRefuses | seantis/reservation/timeframe.py:49-55 | a form error exactly when some frame of the folder conflicts |
| Timeframes.TimeframesByContext | seantis/reservation/timeframe.py:67-85 | the context's own frames when it has any; otherwise frames of some ancestor or none |
| Timeframes.AcquisitionChain | seantis/reservation/timeframe.py:82-83 | the chain starts at the context |
| Timeframes.TimeframesByContextNearest | seantis/reservation/timeframe.py:72-85 | the frames of the first level that has frames or ends the walk, counting from the context |
| CalendarGrid.MonthGrid | seantis/reservation/report.py:59 | lead days of the previous month, the month, and trail days of the next |
| CalendarGrid.GridWholeWeeks | seantis/reservation/report.py:59 | 4 to 6 whole weeks, except December 9999 |
| CalendarGrid.GridHoldsMonth | seantis/reservation/report.py:59 | the month's days 1..n sit after the lead |
| CalendarGrid.GridLeadEndsPrevMonth | seantis/reservation/report.py:59 | the lead ends on the previous month's last day |
| CalendarGrid.MaxOf | seantis/reservation/report.py:58-60 | a running maximum: at least the start value and every element, and one of them |
| CalendarGrid.MaxOfIs | seantis/reservation/report.py:58-60 | a reached upper bound is the maximum |
| CalendarGrid.GridMax | seantis/reservation/report.py:58-60 | `last_day` is the previous month's length when the grid opens with it and it is longer, else the month's |
| CalendarGrid.MonthDaysMax | seantis/reservation/report.py:58-60 | over the month's own days `last_day` is the month's length |
| Report.Filter | seantis/reservation/report.py:79-85 | exactly the elements satisfying the filter, in order |
| Report.BisectLeft | seantis/reservation/report.py:67-72 | the first position whose start is not before the key |
| Report.Insort | seantis/reservation/report.py:101-103 | the bucket plus exactly the new entry |
| Report.InsortPosition | seantis/reservation/report.py:101-103 | the new entry goes after earlier starts and before equal or later ones |
| Report.InsortSorted | seantis/reservation/report.py:67-72 | insertion keeps a bucket sorted by start |
| Report.Row | seantis/reservation/report.py:62-72 | every resource with its title and two empty buckets |
| Report.FillDay | seantis/reservation/report.py:62-72 | the inner skeleton loop builds one day |
| Report.FillDayAsWritten | seantis/reservation/report.py:62-63 | as written, the day is reset for each resource, so it keeps the last one |
| Report.FillDayCorrected | seantis/reservation/report.py:62-72 | corrected, the day is set once and receives every resource |
| Report.CorrectedSkeleton | seantis/reservation/report.py:57-72 | corrected, the skeleton has exactly the month's days, each with exactly the listed resources |
| Report.BuildSkeleton | seantis/reservation/report.py:57-72 | the skeleton loop builds the skeleton and `last_day` as the running maximum from 28 |
| Report.SkeletonKeepsLastUuid | seantis/reservation/report.py:62-72 | as written, every day holds only the last resource |
| Report.SkeletonWithoutResources | seantis/reservation/report.py:59-72 | as written, no resources means no days |
| Report.SkeletonHoldsEveryUuid | seantis/reservation/report.py:59-72 | corrected, every day holds every resource |
| Report.Put | seantis/reservation/report.py:101-103 | the named bucket gets the insertion, the title and the other bucket stay |
| Report.AddItem | seantis/reservation/report.py:99-103 | KeyError exactly when the day, the resource or the status bucket is missing |
| Report.AddItemsFailed | seantis/reservation/report.py:105-110 | after an error, later entries change nothing |
| Report.AddItemsConcat | seantis/reservation/report.py:105-110 | adding two runs of entries is adding their concatenation |
| Report.AddItemsKeys | seantis/reservation/report.py:99-103 | adding entries keeps the days and the resources |
| Report.AddItemBucket | seantis/reservation/report.py:99-103 | an entry is inserted under its start's day, its resource and its status bucket, and nowhere else |
| Report.AddItemsBucket | seantis/reservation/report.py:99-110 | each bucket gains exactly the entries filed under it, and keeps its title |
| Report.AddItemsSorted | seantis/reservation/report.py:101-103 | every bucket stays sorted by start |
| Report.AddItemsSucceed | seantis/reservation/report.py:99-103 | no error when every entry finds its day, resource and bucket |
| Report.ItemsFor | seantis/reservation/report.py:109-110 | one entry per allocation of the group, with that allocation's start and end |
| Report.AddReservationsFailed | seantis/reservation/report.py:105-110 | an error ends the report |
| Report.AddGroup | seantis/reservation/report.py:109-110 | the inner loop adds the entries of the group |
| Report.AddOne | seantis/reservation/report.py:106-110 | a literal target files the reservation's own times (AttributeError without a start); a missing group is KeyError |
| Report.AddReservationsLoop | seantis/reservation/report.py:105-110 | the loop adds the reservations one after the other |
| Report.InPeriodBounds | seantis/reservation/report.py:75-81 | corrected, exactly the starts on days 1..last_day; as written, the same less starts after midnight on the last day |
| Report.LastDayMorningExcluded | seantis/reservation/report.py:76-81 | an allocation at 08:00 on 31 March 2021 is left out as written and kept corrected |
| Report.Group | seantis/reservation/report.py:88-90 | the allocations of a group, in fetch order |
| Report.GroupsOfLists | seantis/reservation/report.py:88-90 | the keys are the groups present, each list that group's allocations in fetch order |
| Report.GroupPartition | seantis/reservation/report.py:88-90 | each allocation lands in its own group's list as often as it was fetched, and in no other |
| Report.GroupAllocations | seantis/reservation/report.py:88-90 | the grouping loop builds the groups |
| Report.SelectReservationsSpec | seantis/reservation/report.py:93-97 | exactly the reservations on a fetched group, as a permutation, with pending ones first |
| Report.SelectIgnoresOthers | seantis/reservation/report.py:94 | reservations on groups outside the given ones are not selected: adding them leaves the selection as it was |
| Report.ReportIgnoresOtherGroups | seantis/reservation/report.py:89-97 | the report, or its error, is unchanged by reservations on groups of no allocation, such as those of resources left out of the report |
| Report.MonthlyReport | seantis/reservation/report.py:44-112 | the method returns the report or the error of `monthly_report` |
| Report.LastDayOverflow | seantis/reservation/report.py:58-76 | as written, `date(year, month, last_day)` fails exactly when the grid opens with a longer previous month; corrected, `last_day` is the month's length |
| Report.June2021Fails | seantis/reservation/report.py:58-76 | June 2021 opens on a Tuesday after a 31-day May, so the report as written raises ValueError |
| Report.ConfirmedHasNoBucket | seantis/reservation/report.py:95-103 | as written, a report gets through a confirmed reservation only when it targets a group without allocations |
| Report.ConfirmedStep | seantis/reservation/report.py:99-103 | as written, one confirmed reservation gets through only on an empty group |
| Report.ConfirmedGroupFails | seantis/reservation/report.py:109-110 | as written, a confirmed reservation on a nonempty group raises KeyError |
| Report.AddReservationsExpand | seantis/reservation/report.py:105-110 | reservations on groups add exactly their expanded entries |
| Report.AllItemsWithin | seantis/reservation/report.py:105-110 | expanded entries carry the reservations' resources and their allocations' days |
| Report.CorrectedAsItems | seantis/reservation/report.py:44-112 | corrected, when every reservation on a fetched group names a real group and a listed resource, the report is the skeleton plus every expanded entry, each on a day of the month for a listed resource; reservations on other groups are unconstrained |
| Report.CorrectedReportShape | seantis/reservation/report.py:57-72 | corrected, when every reservation on a fetched group names a real group and a listed resource, the report succeeds with every day of the month and every resource on each day; reservations on other groups are unconstrained |
| Report.CorrectedBuckets | seantis/reservation/report.py:99-103 | corrected, when every reservation on a fetched group names a real group and a listed resource, every bucket is sorted by start and holds exactly the entries filed under its day, resource and status; reservations on other groups are unconstrained |

## Left out

- Translation, language and CMS lookups are not modelled: `translate*`, `get_current_language`, `get_current_site_language`, `native_language_name`, `get_resource_by_uuid`, `portal_type_in_context`, `portal_type_by_context`, `get_config`, `flash`, `month_name` and `weekdayname_abbr`. They need the CMS.
- `profile`, `utc_mktime` and `utctimestamp` are not modelled: they read the wall clock or local time.
- `urlparam` is a parameter: it wraps URL joining.
- `string_uuid` is not modelled: resource uuids are taken in the 32-hex form it returns, so SiteText.CompareLink, SiteText.MonthlyReportLink and `uuid_query` use a resource's uuid as already-spelled text.
- The JSON encoders are not modelled, and neither is `additional_data_dictionary`, which uses interface introspection.
- `event_availability` is not modelled: it uses float division, rounding, translation and a scheduler.
- `handle_action`, `handle_exception` and `form_error` are not modelled: they map exceptions to CMS form errors. A form error is a value of the model.
- The SHA-1 inside `uuid5` is a parameter function.
- Identifiers.IsUuid: `re.match` returns a match object or None and is modelled by its truth. `unicode(obj)` conversion is not modelled.
- SiteText.EventClass: availability is an integer here. The source compares a numeric percentage with 0 and 100 and nothing else.
- SiteText.CompareLinkQuery: this assumes the last uuid does not end in `&`. `string_uuid` returns hex, so that always holds.
- SiteText.MockDataDictionary: Python 2 dictionary iteration order is an input.
- Memo.Memoize.Call: `__repr__` and `__get__` are not modelled. The instance binding is not modelled either, where one cache shared by all instances holds `(obj, args)` keys. The result is the same either way.
- EventMenu.EventUrls.GetRestricted: the `memoize` of `restricted_url` and `get_restricted` is not modelled. The exposure check is a fixed function, so caching does not change any result.
- ListHelpers.Flatten: every non-string iterable is a nested list. Generator laziness is not modelled.
- Intervals.GetDateRange: times of day are microseconds since midnight. There are no time zones.
- Timezones, `Allocation._start` against the display `start`, and the database's order among rows with the same status are not modelled. Both `_start` and `start` are one timestamp, and ties keep the table's order.
- `monthly_report` takes some things as inputs:
  - the `MonthlyReportView` request parsing;
  - `db.Scheduler`, the resource lookup and the titles;
  - `ordered_uuids`. As written, `sorted(titles.items(), lambda i: i[1])` at report.py:54 passes the one-argument lambda as Python 2's `cmp`, which the sort calls with two arguments: with two or more resource uuids `monthly_report` raises TypeError there, before the skeleton is built. The model does not capture that TypeError. It takes `ordered` as the titles' order that `key=` would give, so the properties about two or more resources describe the code with :54 corrected.
- `reservation.resource` is taken as a field of the reservation. It is not a column of the reservation model.
- A uuid that does not resolve to a resource is not modelled: in the source `get_resource_by_uuid` returns None (utils.py:340-342), `get_resource_title` then raises AttributeError (utils.py:351) and `monthly_report` fails (report.py:50-51). The model takes a title for every uuid.
- Report.AddOne: the branch for a literal `allocation` target (report.py:106) is modelled as written, but cannot arise in the source: `Reservation.target` is a GUID column and the query keeps only targets that are group keys.
- SQLAlchemy's `in_` with an empty list is a filter that keeps nothing.
- The day order of the `OrderedDict` is not modelled: the report is a map from day to resources.
- `SortedCollection` itself is not part of this model. Its `insert` is modelled by the `bisect_left` recipe it follows.
- The timeframe viewlets, the workflow state (`visible`), the add and edit forms, and `timeframes_by_uuid` are not modelled.
- `timeframes_in_context` is a parameter: it is a catalog query.
- No concurrency or transactions are modelled.

## Findings

| source | as written | input that shows it | evidently intended | confidence | as-written member | corrected member |
|---|---|---|---|---|---|---|
| seantis/reservation/utils.py:512-517 | A failed gap test appends the accumulator even when it is unset, then resets it. Slots that touch neither neighbour are lost, and empty timespans are emitted. | slots 08:00-08:15 and 09:00-09:15 give one empty timespan | every maximal run of adjacent slots becomes one timespan, isolated slots included | not executed | SlotMerge.MergeDropsIsolatedSlots | SlotMerge.MergeAdjacentKeepsIsolatedSlots |
| seantis/reservation/utils.py:509 | `.seconds` is the part of the gap below one day, so a gap of whole days passes the test | 08:00-08:15 and 08:15-08:30 on the next day are fused | the gap is measured in full | not executed | SlotMerge.MergeFusesSlotsADayApart | SlotMerge.MergeAdjacentKeepsDaysApart |
| seantis/reservation/report.py:62-63 | `report[day] = dict()` sits inside the loop over resources, so each day keeps only the last resource. As written, two or more resources raise TypeError at report.py:54 first, which hides this defect until :54 passes the lambda as `key=` | resources "a" and "b", once :54 is corrected: every day holds "b" only | every day holds every resource | not executed | Report.SkeletonKeepsLastUuid | Report.SkeletonHoldsEveryUuid |
| seantis/reservation/report.py:101 | The status names the bucket, and the status `confirmed` has no bucket, so a confirmed reservation raises KeyError | one confirmed reservation on a group with an allocation in the month | confirmed reservations go to `approved` | not executed | Report.ConfirmedHasNoBucket | Report.CorrectedBuckets |
| seantis/reservation/report.py:58-76 | `last_day` counts the previous month's days that open the grid, so `date(year, month, last_day)` raises ValueError | June 2021: the grid opens with 31 May | `last_day` is the month's length | not executed | Report.June2021Fails | Report.CorrectedReportShape |
| seantis/reservation/report.py:75-81 | The date `period_end` is compared with timestamps at midnight, so allocations on the last day after midnight are left out | an allocation at 08:00 on 31 March 2021 in the March report | the period includes the whole last day | not executed | Report.LastDayMorningExcluded | Report.InPeriodBounds |
