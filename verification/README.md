# Verified model of a host intrusion detection system

The system watches hosts: an agent on each host reports processes, connections,
logins and files; servers count and scan the reports and raise notices; operators
handle the notices and send commands to the hosts through a web console. This
project models its hardest parts in Dafny and proves what they promise.

- **The RSA channel** (`NumberTheory.dfy`, `BigEndian.dfy`, `RsaKeys.dfy`,
  `ServerRsa.dfy`, `DaemonRsa.dfy`). The server encrypts with the private key:
  PKCS #1 block type 1 (section 8.1 of RFC 2313), blinding, and the Chinese
  remainder path for any number of primes (sections 3.2, 5.2 of RFC 8017). The
  daemon opens the block with the public key. Fermat's little theorem, the
  extended Euclidean algorithm and Garner's recombination are proved from the
  definitions; no number theory is taken for granted. A random source is a finite
  list of draws, after which its reader reports an error.
- **The calendar of the shipped date library**, in UTC (`Gregorian.dfy`,
  `Moments.dfy`, `Weeks.dfy`, `Durations.dfy`): month arithmetic, differences in
  months and milliseconds, unit boundaries, week numbers and their inverse, and
  the normalisation of durations. `Date.UTC` takes the years 0 to 99 for 1900 to
  1999. The model keeps that rule, so the laws hold for every year or come with
  the exact condition under which it breaks them.
- **Detection** (`Records.dfy`, `Strings.dfy`, `Statistics.dfy`, `Rules.dfy`,
  `CountRuns.dfy`, `CountClauses.dfy`, `Notices.dfy`, `NoticeRuns.dfy`): the
  statistics, the rules over unordered clauses, counting and scanning of records
  under any interleaving with the rules evaluated on the counts of that moment,
  the notice collection with its unique index, and whole runs of ten scanners
  and the operators.
- **Dispatching of tasks** (`Dispatcher.dfy`): any number of nodes, a shared
  queue, one hundred senders for each node.
- **The exec hook** (`ExecHook.dfy`): packing of arguments and environment into
  sized buffers, the printed record, and the agent that splits it again.
- **Two smaller pieces**: the limit on one-time passwords (`TwoFactor.dfy`) and
  the expansion of address ranges into queue entries (`IpRanges.dfy`).

Objects that change in place are classes whose methods are proved against
functions of the old state; what those functions promise is proved as lemmas.
Protocols are state machines over atomic steps, and their theorems are about every
reachable state of every run.

Where the code does something else than one might expect, the model follows the code:

- Reducing a private exponent modulo p - 1 is wrong for p = 2, so a valid key has
  odd primes, as section 3.2 of RFC 8017 asks (`RsaKeys.ExponentReductionIsExact`).
- The two-digit year rule makes `daysInMonth` wrong for some February months.
  `setMonth` then clamps to the wrong day or spills into March, and a difference of
  two moments can come out with negative milliseconds
  (`MonthDifference.PositiveDifferenceExact` gives the exact condition,
  `MonthDifference.OvershootExample` an instance).
- A message can be sent for an ignored triple (`NoticeRuns.IgnoredTooLate`). It
  is exactly when, between the scanner's look and its insert, an operator ignored
  a notice of the triple and none gave that notice another status since
  (`NoticeRuns.NotifiedWhileIgnoredExactly`).
- The repair at the end of observation mode wraps its update in a second `$set`
  (`web/models/notice.go:143-147`, `web/models/base.go:165-174`). It never opens a
  notice: a store that refuses the field name removes every notice that is still
  learned, one that accepts it leaves them all learned
  (`Notices.NoticeCollection.LearnEnding`). Which of the two a store does is a
  parameter of the model. A warning that is raised again in observation mode is
  enough for the repair to be needed (`NoticeRuns.CollisionArises`).
- A late scan can miss a count: two records counted before either is scanned match
  no `count 1` clause (`CountClauses.LateScansMissTheCount`). A scan sees the
  ordinal of its record exactly when no record of the same value was counted in
  between (`CountRuns.OnTimeExactly`).
- A record whose environment field is empty is dropped by the agent, because
  cutting the last byte takes away a separator (`ProcessMonitor.RecordRoundTrip`,
  an instance in `ProcessMonitor.SkippedExample`).
- Failures are stored under the id of the queue entry, successes under the task id
  (`SendTasks.Sender.SendTask`).
- A range from an address to itself is empty (`IpRanges.BetweenIsInterval`).

## Model

| member | source | states |
|---|---|---|
| TaskChannel.RoundTrip | server/action/rsa.go:18-37 | for every valid key and every payload that fits, the daemon recovers exactly the payload that the server encrypted |
| TaskChannel.Exchange | daemon/task/rsa.go:34-62 | running both programs, whatever the random source yields, gives the payload or a server error; without blinding an error only for a payload that is too long |
| TaskChannel.UnpadPadded | daemon/task/rsa.go:51-61 | the scan for the separator finds the end of the padding, so unpadding inverts padding |
| ServerRsa.PriKeyEncrypt | server/action/rsa.go:18-37 | the result is the block to the power d modulo n in as many bytes as the modulus has, the same for every random source; the two error cases exactly |
| ServerRsa.PadBlock | server/action/rsa.go:24-29 | filling the buffer in place gives the bytes 0 and 1, at least eight 0xff, 0 and the payload |
| ServerRsa.PaddedBlockFits | server/action/rsa.go:24-30 | a padded block is below the modulus |
| ServerRsa.Decrypt | server/action/rsa.go:45-109 | blinded or not, by exponentiation or by remainders, the result is c^d mod n; an error exactly for c above n or a source without an invertible draw |
| ServerRsa.BlindingCancels | server/action/rsa.go:70-74 | multiplying by r^e before and by the inverse of r after has no effect, for every invertible r |
| ServerRsa.CrtPower | server/action/rsa.go:79-101 | for any number of primes the recombined value is c^d mod n, so it agrees with plain exponentiation |
| ServerRsa.RecombineFirstPair | server/action/rsa.go:79-88 | the first two primes give the residue below their product, also when the difference is still negative after one correction |
| ServerRsa.RecombineNextPrime | server/action/rsa.go:90-101 | one step of the loop extends the residue to one more prime |
| ServerRsa.RecombinedIsPower | server/action/rsa.go:90-101 | a residue right for every prime and below the product is the power modulo n |
| ServerRsa.GarnerStep | server/action/rsa.go:92-100 | a step stays below the new product, keeps the old residue and meets the new one |
| ServerRsa.ZeroIsUsable | server/action/rsa.go:57-68 | a draw of zero is used as one, so it never fails to blind |
| ServerRsa.ModInverse | server/action/rsa.go:119-131 | ok exactly when an inverse exists, and then an inverse between 0 and n |
| ServerRsa.CopyWithLeftPad | server/action/rsa.go:111-117 | the buffer holds zeros, then the bytes |
| RsaKeys.ExponentsCancel | server/action/rsa.go:77-77 | raising to e and d in either order is the identity modulo n, also for bases that share a factor with n |
| RsaKeys.CrtResidue | server/action/rsa.go:79-92 | the power with the reduced exponent is the power with d, modulo each prime |
| RsaKeys.ExponentReductionIsExact | server/action/rsa.go:79-92 | the reduced exponent is right for every base exactly when it is not zero |
| RsaKeys.SampleKeyIsValid | server/action/rsa.go:90-91 | a key with three primes meets every condition asked of keys |
| DaemonRsa.PubKeyDecrypt | daemon/task/rsa.go:34-62 | on every input the scanning code receives what the value function says |
| DaemonRsa.ReceiveExact | daemon/task/rsa.go:34-62 | told by the block with the value of the data to the power e modulo n: each refusal, the payload behind the first zero, and the panic on a block without one |
| DaemonRsa.LeftPad | daemon/task/rsa.go:64-72 | short input is padded with zeros on the left, long input cut |
| DaemonRsa.FirstZero | daemon/task/rsa.go:51-56 | the scan stops at the first zero byte, or at the end |
| Fermat.FermatLittle | server/action/rsa.go:79-80 | a^p is congruent to a modulo every prime p |
| Fermat.ExponentReduction | server/action/rsa.go:79-80 | exponents may be reduced modulo p - 1 unless they become zero |
| Primes.ExtendedGcd | server/action/rsa.go:120-123 | a common divisor with Bezout coefficients, which are bounded by the operands |
| Primes.CongProduct | server/action/rsa.go:90-101 | congruence modulo distinct primes is congruence modulo their product |
| BigEndian.FixedBytes | server/action/rsa.go:30-35 | the bytes of a number, padded to a length, have its value |
| BigEndian.ValueInjective | daemon/task/rsa.go:39-44 | byte strings of one length are determined by their value |
| BigEndian.ByteLenBounds | daemon/task/rsa.go:35-35 | the byte length computed from the bit length is the fewest bytes that hold the modulus |
| MomentValues.DaysInMonthExact | web/static/datetime/moment-with-locales.js:586-588 | the month length is right exactly outside the misjudged February months, and what it is there |
| MomentValues.WithMonthExact | web/static/datetime/moment-with-locales.js:674-689 | setting the month gives the same day or the last of a shorter month, exactly unless a misjudged February meets a day from 29 on |
| MomentValues.WithMonthLands | web/static/datetime/moment-with-locales.js:674-689 | the month index moves exactly as asked, exactly unless the day spills into March; the time of day stays |
| MomentValues.SetUTCDateShifts | web/static/datetime/moment-with-locales.js:1804-1806 | setting the day n further moves the moment by n days |
| MonthDifference.PositiveDifferenceExact | web/static/datetime/moment-with-locales.js:1751-1763 | the months are the most that do not pass the other moment, months and milliseconds lead there exactly, and the milliseconds are negative exactly in the overshooting case |
| MonthDifference.SignedDifferenceExact | web/static/datetime/moment-with-locales.js:1765-1777 | forwards the months and milliseconds lead from base to other, the most months first; backwards both parts are the negated ones that lead from other to base |
| MonthDifference.AddMonthsIncreases | web/static/datetime/moment-with-locales.js:1807-1809 | more months lead to a later moment, for every base and every year |
| MonthDifference.AddMonthsLands | web/static/datetime/moment-with-locales.js:1807-1809 | which month, day and time n months lead to |
| MonthDifference.OvershootExample | web/static/datetime/moment-with-locales.js:1754-1760 | two moments whose difference has negative milliseconds |
| MonthDifference.SignedDifferenceIsOdd | web/static/datetime/moment-with-locales.js:1765-1777 | swapping the moments negates the difference |
| Moments.PositiveMomentsDifference | web/static/datetime/moment-with-locales.js:1751-1763 | with clones changed in place: the most months that do not pass other, and the milliseconds then left |
| Moments.MomentsDifference | web/static/datetime/moment-with-locales.js:1765-1777 | the result leads from base to other when other is later, and negated from other to base when it is not |
| Moments.Moment.SetMonth | web/static/datetime/moment-with-locales.js:674-689 | the moment holds the value with the month set |
| Moments.Moment.AddSubtract | web/static/datetime/moment-with-locales.js:1795-1813 | the moment holds the value with milliseconds and days, then months, added or subtracted |
| Moments.AddedExact | web/static/datetime/moment-with-locales.js:1795-1813 | with the sign 1 every part of the period moves forwards, with -1 backwards, and without months subtracting undoes adding |
| Moments.PeriodScales | web/static/datetime/moment-with-locales.js:1449-1466 | n units are made of n times the milliseconds, days and months of one |
| Moments.AddOneUnit | web/static/datetime/moment-with-locales.js:2042-2048 | one unit more leads from the start of a unit to the start of the next |
| MonthDifference.SubtractUndoesAdd | web/static/datetime/moment-with-locales.js:1807-1809 | subtracting months undoes adding them exactly when the day was kept and no misjudged February comes in between |
| Moments.Moment.StartOf | web/static/datetime/moment-with-locales.js:1999-2040 | for every unit, the moment becomes the start of the unit interval it lies in |
| Moments.Moment.ToWeekday | web/static/datetime/moment-with-locales.js:2315-2318 | back to the first day of the week of the locale |
| Moments.Moment.ToMonday | web/static/datetime/moment-with-locales.js:2320-2325 | back to Monday, six days from a Sunday |
| Moments.Moment.EndOf | web/static/datetime/moment-with-locales.js:2042-2048 | the moment becomes the last millisecond before the next unit |
| Moments.Moment.IsSame | web/static/datetime/moment-with-locales.js:1865-1875 | true exactly when the units of both moments start together |
| Moments.UnitHoldsMoment | web/static/datetime/moment-with-locales.js:1999-2048 | every moment lies between the start of its unit and the next |
| Moments.UnitStartFields | web/static/datetime/moment-with-locales.js:1999-2040 | the fields of the start of each unit: smaller parts cleared, larger ones kept, weeks on their first weekday, quarters in January, April, July or October |
| Moments.UnitIsShared | web/static/datetime/moment-with-locales.js:1999-2048 | all moments of a unit have the same start and end |
| Moments.UnitStartIdempotent | web/static/datetime/moment-with-locales.js:1999-2040 | the start of a unit is its own start |
| Moments.NextStartIsStart | web/static/datetime/moment-with-locales.js:2042-2048 | the instant after the end of a unit starts the next, so units leave no gap |
| Moments.SameUnitIsEquivalence | web/static/datetime/moment-with-locales.js:1865-1875 | being the same at a unit is reflexive, symmetric and transitive |
| Moments.AddMonthsFromFirst | web/static/datetime/moment-with-locales.js:2035-2037 | from the first of a month no month length is misjudged |
| Gregorian.MonthIndexUnique | web/static/datetime/moment-with-locales.js:684-689 | a day lies in exactly one month |
| Gregorian.MonthStartClosedForm | web/static/datetime/moment-with-locales.js:846-855 | counting days month by month from the epoch gives the closed form of the standard, for every month before and after |
| Gregorian.YearStep | web/static/datetime/moment-with-locales.js:884-890 | consecutive years are 365 or 366 days apart, by the leap year rule |
| Weeks.WeekOfMeaning | web/static/datetime/moment-with-locales.js:934-953 | the computed week-year is the one whose days include the day, and the week counts from its first day |
| Weeks.WeekOfUnique | web/static/datetime/moment-with-locales.js:934-953 | each day lies in exactly one week-year, in weeks of seven consecutive days |
| Weeks.WeeksInYearExact | web/static/datetime/moment-with-locales.js:2135-2137 | 52 or 53 weeks, which fill the time up to the next week-year without gap or overlap |
| Weeks.FirstDayNearNewYear | web/static/datetime/moment-with-locales.js:1003-1007 | week 1 starts on dow and holds the first doy of the calendar year |
| Weeks.DayFromWeeksExact | web/static/datetime/moment-with-locales.js:1003-1017 | a week and weekday stand for the day that far from the first day of the week-year, across year ends |
| Weeks.DayFromWeeksYear | web/static/datetime/moment-with-locales.js:1013-1016 | the day is counted in its own calendar year, from 1 up: in the given year when it lies on or after 1 January, otherwise in the year before |
| Weeks.IsoWeekExample | web/static/datetime/moment-with-locales.js:1003-1017 | the first ISO week of 2013 starts on day 366 of 2012 |
| Weeks.CreateUTCDateExact | web/static/datetime/moment-with-locales.js:846-855 | the detour over another century keeps days of January and December |
| Weeks.WeekRoundTrip | web/static/datetime/moment-with-locales.js:1003-1017 | a triple comes back from its date exactly when its week is one of the week-year |
| Weeks.DayRoundTrip | web/static/datetime/moment-with-locales.js:934-953 | every day comes back from its week-year, week and weekday, and from no other valid triple |
| Durations.Duration.Bubble | web/static/datetime/moment-with-locales.js:2856-2901 | the fields are those of the normalised duration |
| Durations.Duration.AddSubtract | web/static/datetime/moment-with-locales.js:2828-2836 | the parts add up and the fields are normalised again |
| Durations.BubbledIsOdd | web/static/datetime/moment-with-locales.js:2856-2901 | negating a duration negates every field |
| Durations.BubbledConserves | web/static/datetime/moment-with-locales.js:2874-2898 | for one sign, fields of that sign and in range that account for every millisecond, day and month |
| Durations.BubbledUpNonNegative | web/static/datetime/moment-with-locales.js:2885-2890 | the months taken out of the days are the most that fit |
| Durations.BubbledMixed | web/static/datetime/moment-with-locales.js:2865-2870 | for mixed signs the fields are in range and account for the milliseconds and for the days of months and days together, rounded away from zero |
| Durations.MonthDaysExact | web/static/datetime/moment-with-locales.js:2903-2912 | 4800 months have the days of any 400 calendar years, other months in proportion, rounded away from zero |
| Durations.BubbledIdempotent | web/static/datetime/moment-with-locales.js:2856-2901 | normalising the fields again changes nothing |
| Statistics.StatisticsTable.ResultStat | server/action/statistics.go:11-53 | the row of each value seen grows by its occurrences, gains the host and takes the new time; no other row changes; only connection records change, losing the port of their remote address |
| Reports.Watcher.PutInfo | server/server.go:51-75 | at the moment a report is queued its records are counted, and they are queued as counting left them; an empty report is ignored |
| CountRuns.RunKeepsInv | server/safecheck/check.go:140-166 | in every interleaving ordinals stay distinct and a scan sees at least the ordinal of its record |
| CountRuns.ScanSeesLaterCounts | server/server.go:65-73 | in every run a scan sees the ordinal of its record and the occurrences of the value counted in between, and ordinals are positions among the occurrences |
| CountRuns.OnTimeExactly | server/server.go:65-73 | a scan sees just the ordinal exactly when no record of the same value was counted in between |
| CountRuns.HostsTrack | server/action/statistics.go:38-49 | in every run the hosts of a row are those it had and those of the reports counted for it since |
| CountClauses.ClauseReadsItsRow | server/safecheck/check.go:140-164 | a count clause on the tracked value reads the row that counting wrote for the record, and matches exactly when it asks for that count |
| CountClauses.MatchIsExact | server/safecheck/check.go:140-164 | in every run a count clause matches a record exactly when it asks for the ordinal and the occurrences counted in between |
| CountClauses.MatchesAreBounded | server/safecheck/check.go:140-164 | in every run the records matched by a "count n" clause of a rule are among the first n counted, and at most n match; without a number none does |
| CountClauses.PromptScanSeesOrdinal | server/server.go:65-73 | scanned at once, a record matches "count n" exactly when it is the n-th |
| CountClauses.LateScansMissTheCount | server/server.go:65-73 | a run with a first record in which no record matches any "count 1" clause |
| Strings.Sort | server/safecheck/check.go:173-174 | a sorted arrangement of the same strings |
| Strings.SortedUnique | server/safecheck/check.go:173-174 | there is only one sorted arrangement |
| Strings.BeforeColon | server/action/statistics.go:35-37 | the text up to the first colon, or all of it |
| Strings.BeforeColonIdempotent | server/safecheck/check.go:147-148 | cutting the port off twice is cutting it off once |
| Strings.AtMostExactly | server/safecheck/check.go:173-174 | the order of sorting: beginnings first, otherwise the first different character decides |
| Checks.EvaluateClause | server/safecheck/check.go:120-167 | one clause lowers the counter and adds its value exactly when it matches |
| Checks.Evaluate | server/safecheck/check.go:120-167 | for every visiting order the counter is the clauses minus the matches, and the values are those matched |
| Checks.SingleClauseWarns | server/safecheck/check.go:120-186 | the one notice that a rule with a single clause raises, and for each kind of clause exactly when |
| Checks.RuleOfClauses | server/safecheck/check.go:168-186 | a rule warns exactly when all of its clauses would alone, or, for an OR rule, one of them |
| Checks.TwoValuesReported | server/safecheck/check.go:168-186 | two matching clauses report both values, the lesser first, with a bar between them |
| Checks.WarningsConcat | server/safecheck/check.go:114-187 | the warnings of a list of rules are those of its parts, in order |
| Checks.DoesNotApply | server/safecheck/check.go:116-118 | no warning from a rule for another type or another system |
| Checks.CounterMeansWarns | server/safecheck/check.go:168-186 | the counter is zero iff every clause matches, and below the clauses iff one does |
| Checks.ReportOfArrangement | server/safecheck/check.go:173-174 | the reported value is the same for every visiting order |
| Checks.Decide | server/safecheck/check.go:113-187 | the decision and the report depend on the rule and the record only |
| Checks.Check.CheckRule | server/safecheck/check.go:113-187 | one warning, with the sorted matches, exactly when the rule warns |
| Checks.Check.Rules | server/safecheck/check.go:113-187 | the warnings are those of the rules that apply and match, in order, and the collection changes by exactly them |
| Checks.ObservationWarnsMore | server/safecheck/check.go:141-145 | what warns outside observation mode warns in it |
| Notices.NoticeCollection.Insert | server/safecheck/check.go:256-257 | inserted exactly when no notice has the key |
| Notices.NoticeCollection.UpdateId | web/models/notice.go:32-48 | changed exactly when the notice exists and its new key is free |
| Notices.NoticeCollection.UpsertLearned | server/safecheck/check.go:245-247 | a notice with status 3 and the same fields gets status 4, without one a notice with status 4 is inserted, either exactly when the new key is free |
| Notices.NoticeCollection.Warning | server/safecheck/check.go:243-264 | outside observation mode an open notice and a message unless ignored or already open; in it nothing visible changes |
| Notices.WarnedExactly | server/safecheck/check.go:248-263 | a notice is opened and a message sent unless one of the same type, address and information is ignored, or open and never handled |
| Notices.KeyFreeExactly | web/controllers/install.go:284-288 | a key is free when no other notice agrees in address, information, type, status and time of handling |
| Notices.WarnedKeepsValid | web/controllers/install.go:284-288 | warnings keep the unique index |
| Notices.NoticeCollection.OpenLearned | web/models/notice.go:110-119 | all learned notices open exactly when none collides, otherwise some of them and no other change |
| Notices.NoticeCollection.DoneDuplicateErr | web/models/notice.go:140-153 | the repair opens nothing; it removes all learned notices or leaves them |
| Notices.NoticeCollection.UpdateByID | web/models/base.go:165-175 | a plain status is set exactly when the notice exists and its new key is free; a nested $set changes no status |
| Notices.NoticeCollection.RemoveLearned | web/models/base.go:178-188 | exactly the learned notices are gone |
| Notices.NoticeCollection.LearnEnding | web/models/notice.go:125-137 | visible notices stay, the key holds, all learned ones open without a collision, and none is left exactly when none collides or the store refuses the repair |
| Notices.CollisionStays | web/models/notice.go:125-137 | one collision rules out opening all of them |
| NoticeRuns.NextKeepsInv | web/controllers/install.go:284-288 | every step of scanners and operators keeps the unique index |
| NoticeRuns.FreshTimeIsAccepted | web/models/notice.go:32-48 | an operator's change of one notice at a new time is always taken |
| NoticeRuns.StatusStepExactly | web/models/notice.go:110-137 | changing a notice along with others, and opening a learned one, is refused exactly when another of its triple already has the status and the same time |
| NoticeRuns.NoRepeatWithoutOperator | server/safecheck/check.go:256-262 | in every run, between two messages about a triple there is a step at which an operator changes the notice that came with the first, which was open until then |
| NoticeRuns.ChangedByOperator | web/models/notice.go:125-152 | when a visible notice is gone or different later in a run, it was an operator that changed it, never scanners, the end of observation mode or the repair, however interleaved |
| NoticeRuns.NotifiedOnlyIfNotIgnored | server/safecheck/check.go:250-253 | a message rests on an earlier check of the same scanner and warning, and that check saw no ignored notice |
| NoticeRuns.NotifiedWhileIgnoredExactly | server/safecheck/check.go:250-262 | in every run a message goes out for an ignored triple exactly when an operator ignored a notice of it between check and insert and none gave that notice another status since |
| NoticeRuns.UninterruptedRespectsIgnored | server/safecheck/check.go:250-262 | when the insert follows its check at once, no message is sent for an ignored triple |
| NoticeRuns.IgnoredTooLate | server/safecheck/check.go:250-262 | a run that sends a message for a triple ignored in between |
| NoticeRuns.CollisionArises | web/models/notice.go:125-152 | a run that leads to a collision at the end of observation mode |
| NoticeRuns.WarningIsTwoSteps | server/safecheck/check.go:248-263 | the two steps in a row are the warning method |
| NoticeRuns.ObservationIsInvisible | server/safecheck/check.go:245-247 | warnings in observation mode change no visible notice |
| Dispatcher.RunKeepsInv | server/action/task.go:35-58 | in every reachable state each entry with an address is in one place, a node has at most 100 senders, and an entry at most one result |
| Dispatcher.FinishedHasOneResult | server/action/task.go:72-126 | a finished entry has exactly one result when the store accepts every write |
| Dispatcher.NextKeepsSlots | server/action/task.go:55-56 | the channel holds one token for each sender of its node |
| Dispatcher.StepLowersRank | server/action/task.go:40-57 | every step but an arrival lowers the work that is left |
| Dispatcher.RunsEnd | server/action/task.go:40-57 | without arrivals every run ends, within the work that was left |
| Dispatcher.NeverStuck | server/action/task.go:40-57 | while work is left some step can be taken |
| Dispatcher.NothingLeftMeansFinished | server/action/task.go:72-126 | when nothing is left every entry with an address is finished |
| SendTasks.Sender.SendTask | server/action/task.go:72-126 | what is stored: an answer under its task id, the first error with its text under the id of the queue entry, also when the answer is refused, and nothing only when the store refuses |
| SendTasks.Sender.SaveError | server/action/task.go:61-69 | an error is stored under the id of the queue entry |
| CText.SplitJoin | agent/monitor/process_linux.go:123-123 | splitting gives back what was joined |
| CText.CStringOf | syscall_hook/syscall_hook.c:562-567 | the length of a buffer is up to its first zero |
| CText.DecimalReads | syscall_hook/syscall_hook.c:586-586 | the printed digits read back as the number, without a leading zero |
| CText.SignedDecimalReads | syscall_hook/syscall_hook.c:586-586 | signed numbers read back too, with a minus sign exactly when negative |
| CText.ContainsExactly | syscall_hook/syscall_hook.c:548-550 | a text contains another exactly when it can be taken apart around it |
| ExecHook.PackArguments | syscall_hook/syscall_hook.c:431-481 | whatever the second pass reads, the buffer holds the strings that fit, each with a space, then zeros |
| ExecHook.UnchangedArgumentsFit | syscall_hook/syscall_hook.c:470-472 | unchanged arguments all fit, so the overflow exit is not taken |
| ExecHook.PackedSplits | syscall_hook/syscall_hook.c:474-480 | splitting the packed strings at the spaces gives them back in order |
| ExecHook.PackEnvironment | syscall_hook/syscall_hook.c:492-559 | whatever the second pass reads, as long as it fits the work buffer, the buffer holds exactly the reported entries among those reached, in order, then zeros |
| ExecHook.UnchangedEnvironmentFits | syscall_hook/syscall_hook.c:492-559 | an unchanged environment is read to its end and fits, so the buffer holds every entry that names PWD, LOGNAME or USER |
| ExecHook.KeptExactly | syscall_hook/syscall_hook.c:548-550 | an entry is reported exactly when it holds PWD, LOGNAME or USER, and entries keep their order |
| ExecHook.ReachedExactly | syscall_hook/syscall_hook.c:538-540 | every entry handled has room behind the reported ones, and the first without room ends the pass |
| ExecHook.ReadEntry | syscall_hook/syscall_hook.c:542-550 | what the work buffer held before makes no difference to the filter |
| ExecHook.RecordFits | syscall_hook/syscall_hook.c:561-586 | a length that is not clamped holds the whole record with its terminator |
| ExecHook.PayloadExact | syscall_hook/syscall_hook.c:568-586 | the message holds the record, or its first 6143 bytes when it is longer |
| ExecHook.Report | syscall_hook/syscall_hook.c:422-586 | the message is the record of the start, cut to the clamped length |
| ProcessMonitor.Receive | agent/monitor/process_linux.go:114-148 | the outcome depends on the datagram only, not on what the reused buffer held |
| ProcessMonitor.FieldsArrive | agent/monitor/process_linux.go:114-148 | any separator-free fields come back: six or more are a process, fewer are skipped, and so is a child of the agent |
| ProcessMonitor.LongDatagramIsCut | agent/monitor/process_linux.go:114-117 | longer datagrams are cut to 255 bytes, an empty one is a panic |
| ProcessMonitor.RecordRoundTrip | agent/monitor/process_linux.go:114-148 | records of at most 255 bytes arrive with all fields exactly when the environment field is not empty and the parent is not the agent |
| ProcessMonitor.NothingKeptIsSkipped | agent/monitor/process_linux.go:123-127 | a record with an empty environment field is skipped |
| ProcessMonitor.SkippedExample | agent/monitor/process_linux.go:123-127 | a start that is never reported because its only environment entry is not kept |
| ProcessMonitor.StartArrives | agent/monitor/process_linux.go:114-148 | from the hook to the agent every field arrives, the two process ids as numbers, the environment without its last space |
| ProcessMonitor.StringsArrive | agent/monitor/process_linux.go:114-148 | the command splits into the path and the arguments after the first, the information into the kept entries, when no string holds a space |
| ProcessMonitor.DropLast | agent/monitor/process_linux.go:123-123 | cutting the last byte shortens the last field or removes its separator |
| TwoFactor.PasswordGuard.Prepare | web/controllers/base.go:50-74 | the history is the last six codes, and the three answers exactly |
| TwoFactor.AtMostSixComparisons | web/controllers/base.go:59-66 | while the code stays the same at most six attempts are compared, and none after the sixth |
| TwoFactor.SixAreAllowed | web/controllers/base.go:59-66 | six are compared when the six before had other codes |
| TwoFactor.ZeroIsBlockedAtFirst | web/settings/settings.go:10-10 | the initial zeros block a zero code |
| IpRanges.IPRoundTrip | web/utils/net.go:25-52 | an address comes back from its number |
| IpRanges.IntRoundTrip | web/utils/net.go:25-52 | a number of 32 bits comes back from its address |
| IpRanges.BetweenIP | web/utils/net.go:65-80 | the range of the two addresses, or the panic on a text that is no IPv4 address |
| IpRanges.OrderOfParts | web/utils/net.go:36-52 | numbers order addresses by their parts, the first one first |
| IpRanges.BetweenIsInterval | web/utils/net.go:72-77 | a range holds exactly the addresses between its ends, ascending and each once, and none when its second end is not above the first |
| TaskHosts.TaskQueue.SaveHosts | web/models/task.go:85-105 | the hosts before the first repetition are expanded into the queue in order |
| TaskHosts.SinglesExpand | web/models/task.go:87-88 | a list without ranges queues its texts, up to the first that repeats |
| TaskHosts.RangeExpands | web/models/task.go:90-97 | a range queues its addresses in order, one entry each |

## Left out

- ServerRsa.Decrypt: draws of the random source are taken from below the modulus, as the library function promises; PEM and X.509 parsing, base64 and JSON are library code.
- DaemonRsa.PubKeyDecrypt: a modulus of zero, which the key parser refuses, is excluded.
- MomentValues.WithMonthExact: month names given as text and moments outside UTC mode are not modelled.
- Moments.Moment.StartOf: local time zones and daylight saving are not modelled.
- Weeks.DayFromWeeksExact: the caller that fills in missing week fields while parsing is not modelled.
- Durations.BubbledConserves: integer inputs and exact rationals; IEEE rounding and negative zero are not modelled.
- CountClauses.MatchesAreBounded: the update of one statistics row is one step, and a row is unique for its type and value.
- Checks.Check.Rules: one record at a time, with regular expressions, lower-casing and number parsing as uninterpreted functions; the black and white lists and the lookup at an outside service around it are easy branching and network calls.
- Notices.NoticeCollection.LearnEnding: the repair follows at once, while the source starts it beside other work; NoticeRuns has its steps interleaved with everything else. The raw copy of the event is not part of a notice here.
- NoticeRuns.NoRepeatWithoutOperator: the notices that the health thread inserts by itself are not among the steps.
- Dispatcher.RunKeepsInv: crashes of a node, which lose what it holds, are not among the steps.
- ExecHook.PackArguments: strings longer than the kernel's limit for one string are not modelled, and buffer sizes are taken to fit a C int.
- ExecHook.PackEnvironment: what happens after an entry that does not fit the work buffer, where the behaviour of the C program is undefined.
- ExecHook.Report: arguments and environment that change between the passes, since a buffer filled to its last byte has no terminator to print up to; the version for kernel 2.6.32, the lookup of the path and failures of allocation or of copies from user space are not modelled.
- ProcessMonitor.Receive: the white list, which reads the record before, is not modelled; the comparison with the agent's own process id is a parameter.
- TwoFactor.PasswordGuard.Prepare: concurrent requests and the computation of the code are not modelled.
- IpRanges.BetweenIP: the parsing of the address text is library code.
- TaskHosts.TaskQueue.SaveHosts: the tags for all, Windows or Linux hosts are expanded before.
- The databases, the transport, TLS, the other agents' collectors, installation, health checks and the remaining controllers and scripts are not part of this model.
