# A model of the panel and its daemon

Game servers run in containers. A panel (`panel/main.py`) keeps users, nodes, servers, port
allocations and schedules in a database and sends requests to a daemon (`daemon/main.go`) on each
node, which talks to Docker. This project models the parts of the two programs that are algorithms
or protocols, and proves what they keep over all inputs, all runs and all interleavings.

| file | what it models |
|---|---|
| `Calendar.dfy` | the Gregorian calendar by day steps, and its closed form |
| `CronSearch.dfy` | matching a minute against a cron pattern, and the capped search for the next match |
| `CronParse.dfy` | the cron parser against a denotation of cron text |
| `CronExecutor.dfy` | schedule rows, one tick over them, and runs of ticks |
| `ScheduleLife.dfy` | the life of a schedule row: creation, ticks and toggles |
| `Demux.dfy` | the two decoders of Docker's multiplexed stream |
| `DemuxLiteral.dfy` | when the incremental decoder as written is right |
| `TtydPorts.dfy` | the ring allocator of console ports, its reserve-then-register gap and the live consoles |
| `ImageCache.dfy` | the single-flight image-list cache and its handlers |
| `InstallRegistry.dfy` | the registry of running installs and the delete that waits on it |
| `AllocationLedger.dfy` | ownership of port allocations across panel requests |
| `LoginThrottle.dfy` | the sliding-window login throttle |
| `InstallPoller.dfy` | the poller that follows an install to its end |
| `Shell.dfy` | shell quoting against a POSIX word reader, and file write and read through the decoder |
| `Prelude.dfy`, `Text.dfy` | optional values; the string operations of the cron parser |

Rows and objects that the programs update in place are classes whose methods are proved against
functions of their old state; concurrent code is a transition system with one step per critical
section and any number of participants; the laws are lemmas about those functions and runs.

## What the proofs say about the code

- **Schedules, exactly once.** With ticks at most 60 s apart every occurrence reached fires exactly
  once and in order, if and only if the first tick comes within five minutes of the armed time and
  before any further occurrence (`ExactlyOnceIff`). A first tick *exactly* 60 s late can therefore
  skip an occurrence (`SkipsAtSixtySeconds`), because the search restarts after the minute of the
  tick. A schedule whose ticks come at most 60 s apart from its creation on never meets this
  (`CreatedExactlyOnce`).
- **Schedules, dead rows.** Toggling does not arm a row again. From a moment on it never fires,
  whatever ticks and toggles follow, if and only if its pattern is rejected or its time is more than
  five minutes (for a one-shot, 120 s) past (`DeadIff`); so a recurring row switched off while its five
  minutes pass is dead (`SwitchedOff`).
- **Schedules, leap years.** A pattern with one date a year finds nothing from the first 24 hours of
  a 366-day gap, since the search stops after 365 days. Exactly then such a schedule cannot be
  created (`YearlyCreateIff`). An executor that has just fired one keeps the old time: it fires again
  at every tick of the five minutes and afterwards never (`YearlyReach`, `YearlyLeapRefires`,
  `YearlyDoubleFireIff`).
- **Cron text.** A step of zero raises instead of being rejected, provided the values before the `/`
  meet the field's range (`CronParse.Raises`). It would end the executor's loop, but it never gets
  there: creating a schedule parses the same text first, so the request fails and no row is stored
  (`NeverCrashes`, `Pass`). The code takes Monday as weekday 0 and requires the day of the month and
  the day of the week both to match; the hint shown in the frontend
  (`frontend/src/app/page.tsx:2271`) says otherwise, and the model follows the code.
- **Stream decoding.** When a read ends inside a payload, the loop of `readDemuxed` keeps the
  unfinished frame twice. On stdout and stderr frames without the bytes 1 and 2 its output is right
  if and only if no read ends 8 or more bytes into an unfinished frame (`OutputExact`), and over all
  fillings of the payloads that condition is exact too (`LiteralIff`). A payload as long as the
  8192-byte buffer cannot meet it (`LongFrameUnsafe`). With the frame kept once the output is right
  for every cutting (`BoundaryIndependence`).
- **Console ports.** Between choosing a port and registering it nothing reserves it, and a second
  start of a console, its stop, or the exit of another process of it takes the entry of a live process
  away (`UnlistedIff`, `ListedIff`). Two consoles come to share a port if and only if the first port
  from the cursor without an entry belongs to one that is pending or has lost its entry (`SharedIff`,
  `DistinctRun`), which takes a whole lap of the cursor (`LappedPort`); both happen (`LapWitness`,
  `LiveWitness`).
- **Image cache.** A handler finishes its refresh twice. The second finish is harmless, whatever
  follows, if and only if no refresh is in flight when it runs (`StrayIff`); otherwise two handlers
  can fetch at once, and there is a run in which they do (`TwoFetchers`). A cached list can also be
  older than the last invalidation, exactly when that fell between Docker's answer and its storing
  (`HitAge`, `StaleHit`).
- **Installs.** A delete that waits is sure to leave no container if and only if, when it looks up
  the registry, no install of its uuid but the registered one is still working (`DeleteCleanIff`).
  Two overlapping installs of one uuid can break this (`OverlapWitness`).
- **Allocations.** Over every run, transfers included, addresses are unique, owners live, and every
  server's primary allocation exists and is its own (`LedgerRun`); the last depends on the database,
  which refuses to delete an allocation that a server names as its primary one. A transfer leaves the
  allocations of a server on the node it was created on (`HomeRun`). Deleting a node therefore removes
  an owned allocation if and only if a server created there still holds one (`DeleteNodeSpares`); such
  a server has no primary allocation, since otherwise the deletion is refused (`DeleteNodeIff`).
  Without transfers it never happens (`TransferFreeRun`); with one it does (`TransferWitness`).
- **Logins.** A login does not interfere with others that share neither username nor address with it,
  directly or through third ones (`CircleOutcome`). In every run the rejected logins of a username or an address in 600 s are the rows stored
  there and those that accepted logins have cleared (`FailuresAccounted`), so at most five more than the
  cleared ones (`FailuresWithin`). Since a success clears every recent row of its address, whoever has
  an account can alternate failures and successes without limit (`FailuresUnbounded`).
- **Files.** Writing a file through the shell stores every backslash twice, and reading drops
  trailing newlines and goes through `readDemuxed`. A text just written is read back if and only if it
  has no backslash, does not end in a newline, and no read of the output ends 8 or more bytes into an
  unfinished frame (`ReadAfterWriteIff`); one character is enough to fail (`ReadAfterWriteFails`), and
  a text sent in a frame of 8192 bytes or more always does (`LongTextLost`). With the corrected
  decoder the first two conditions are exact (`ReadAfterWriteSafe`).

## Model

| member | source | states |
|---|---|---|
| `Calendar.DayNumberOfDate` | panel/main.py:1054-1060 | counting days from 0001-01-01 always gives a valid date, whose closed-form day number is the count |
| `Calendar.DateOfDayNumber` | panel/main.py:1054-1060 | every valid date is reached by that counting, at its closed-form number |
| `Calendar.KnownDays` | panel/main.py:1044-1051 | dates of the real calendar: 1 January 1970 is a Thursday, 29 February 2000 exists and is a Tuesday, 29 February 1900 does not exist |
| `CronSearch.MatchesClock` | panel/main.py:1044-1051 | a minute of a date matches if and only if minute, hour, day, month and weekday counted from Monday are each in their field |
| `CronSearch.ClockOf` | panel/main.py:1044-1051 | every minute is one of some date, so that the law above covers all |
| `CronSearch.NextCron` | panel/main.py:1054-1060 | the search finds the least matching minute strictly after the start minute, and nothing exactly when none of the next 525600 minutes matches |
| `CronSearch.WeeklyReach` | panel/main.py:1044-1060 | with all days of the month and all months the next match is at most 10080 minutes away, for every start |
| `CronSearch.WeeklyMatches` | panel/main.py:1044-1051 | a pattern of one weekday, hour and minute matches exactly that minute of every week |
| `CronSearch.WeeklyNext` | panel/main.py:1044-1060 | its next match is within one week of any minute, and from an occurrence exactly one week later |
| `CronSearch.TwoMonthsReach` | panel/main.py:1044-1060 | with all weekdays, a day up to 28 and two months, there is always a match in the window |
| `CronSearch.YearlyReach` | panel/main.py:1044-1060 | for one date and time a year, the search finds nothing if and only if the gap has 366 days and the start is in its first 24 hours; otherwise it finds the later occurrence |
| `CronParse.CronRange` | panel/main.py:1029-1041 | the values of a number or range token within the field, none if a bound is not a number |
| `CronParse.TokenValues` | panel/main.py:1000-1022 | the values a token denotes in its field; it raises exactly when a zero step meets a non-empty base |
| `CronParse.ParseField` | panel/main.py:994-1022 | the loop over tokens computes the union of their meanings, or raises exactly when some token does |
| `CronParse.ParseCron` | panel/main.py:988-1026 | the parser equals the denotation, errors included |
| `CronParse.ParsedIff` | panel/main.py:988-1026 | without zero steps a pattern parses if and only if it has five fields, each with a token denoting a value in range, and the result is five non-empty sets in range |
| `CronParse.TokenOrderIrrelevant` | panel/main.py:996-1023 | only which tokens a field has matters, not their order or repetition |
| `CronParse.PrintParse` | panel/main.py:988-1041 | printing any five non-empty in-range sets as comma lists and parsing the text gives the sets back |
| `CronParse.ZeroStepFirst` | panel/main.py:994-1025 | a zero step raises even if another field would reject the pattern |
| `CronParse.StarMeaning` | panel/main.py:978-985 | `*` stands for minutes 0-59, hours 0-23, days 1-31, months 1-12, weekdays 0-6 |
| `CronParse.NumeralMeaning` | panel/main.py:1017-1022 | a numeral stands for its value, if the field has it |
| `CronParse.RangeMeaning` | panel/main.py:1010-1015 | `a-b` stands for the field's values from a to b, both included |
| `CronParse.StepMeaning` | panel/main.py:1002-1009 | `*/s` stands for the field's multiples of s, counted from 0 |
| `CronParse.RangeStepMeaning` | panel/main.py:1002-1009 | `a-b/s` stands for the multiples of s among the values from a to b |
| `CronParse.ZeroStepRaises` | panel/main.py:1002-1009 | `a-b/s` raises if and only if s is 0 and the range meets the field |
| `CronParse.ListMeaning` | panel/main.py:996-1023 | a list stands for everything one of its tokens stands for |
| `CronParse.NotANumber` | panel/main.py:1016-1022 | a token that is not a number stands for nothing |
| `Text.Separators` | panel/main.py:989 | blanks, tabs and line ends separate fields, and no visible character does |
| `Text.ParseForms` | panel/main.py:1005-1018 | signs and single underscores are read in numbers, stray ones are not |
| `CronExecutor.ServerSchedule.Fire` | panel/main.py:1124-1133 | re-arming: the next occurrence after the tick if there is one, else the time stays; a one-shot becomes inactive; nothing else changes |
| `CronExecutor.ServerSchedule.Visit` | panel/main.py:1079-1102 | one row of one tick: its new state, whether it fires, and whether its pattern raises |
| `CronExecutor.RunDueSchedules` | panel/main.py:1077-1102 | one pass serves every row, each by its own tick; a pattern with a zero step stops it, with the rows before served and the others untouched |
| `CronExecutor.RowRun` | panel/main.py:1078-1102 | the run of an active recurring row is that of its parsed pattern and armed time, and nothing else of the row changes |
| `CronExecutor.UnarmedArms` | panel/main.py:1088-1091 | a tick on a row without a time arms it for the next occurrence and fires nothing |
| `CronExecutor.OccurrencesListed` | panel/main.py:1044-1051 | the occurrence list used below holds exactly the matching minutes of an interval, in strictly increasing order |
| `CronExecutor.FireStep` | panel/main.py:1095-1096 | a fire at `now` re-arms for the first occurrence after the minute of `now` and accounts for exactly the occurrences before that |
| `CronExecutor.FireLaw` | panel/main.py:1084-1096 | for any spacing of ticks, the occurrences up to the one finally armed are, in order and each once, those fired and those a late fire skipped |
| `CronExecutor.FiresAdvance` | panel/main.py:1092-1096 | no occurrence fires twice: each fire lies within five minutes of its time and before the next armed time |
| `CronExecutor.UnservedIff` | panel/main.py:1092-1096 | an armed time never fires if and only if no tick falls in the five minutes after it, and then it stays armed |
| `CronExecutor.Expired` | panel/main.py:1092-1096 | once a tick comes more than five minutes late, the schedule never fires and is never re-armed |
| `CronExecutor.ExactlyOnce` | panel/main.py:1084-1096 | ticks at most 60 s apart, the first less than 60 s after the armed time: every occurrence reached fires exactly once, in order |
| `CronExecutor.ExactlyOnceIff` | panel/main.py:1084-1096 | for ticks at most 60 s apart, exactly once holds if and only if the first tick is within the five minutes and no occurrence lies between the armed time and it |
| `CronExecutor.SkipsAtSixtySeconds` | panel/main.py:1084-1096 | a first tick exactly 60 s late, with an occurrence in the next minute, fires the armed one and skips that one |
| `CronExecutor.ExactlyOnceRow` | panel/main.py:1078-1102 | the same for whole schedule rows whose pattern always has a next occurrence |
| `CronExecutor.ExactlyOnceFromCreation` | panel/main.py:2021-2033 | armed by the search at some moment, and with ticks at most 60 s apart from then on, a pattern fires every occurrence after the minute of that moment exactly once, in order |
| `CronExecutor.AlwaysRearms` | panel/main.py:1054-1060 | two families of patterns that always have a next occurrence in the window |
| `CronExecutor.RefireLaw` | panel/main.py:1127-1129 | when the search finds nothing, every tick within the five minutes fires again and the time stays armed |
| `CronExecutor.YearlyLeapRefires` | panel/main.py:1124-1130 | a yearly schedule before a leap day fires at every tick of its five minutes and then never |
| `CronExecutor.YearlyDoubleFireIff` | panel/main.py:1124-1130 | two ticks in the five minutes of a yearly occurrence fire twice if a leap day follows, and once otherwise |
| `CronExecutor.OneShotLaw` | panel/main.py:1097-1102 | a one-shot fires at most once, exactly when a tick falls in its 120 s, and is then inactive |
| `CronExecutor.OneShotServed` | panel/main.py:1097-1102 | ticks at most 120 s apart that reach its time fire it exactly once |
| `CronExecutor.ToggledTwice` | panel/main.py:2056-2068 | toggling turns the switch and nothing else, and twice is not at all |
| `ScheduleLife.CreateSchedule` | panel/main.py:2018-2037 | a repeating row is armed by the search when its pattern parses; a parser error, a missing time or a pattern too long for its column aborts the request |
| `ScheduleLife.FitIff` | panel/models.py:151 | a pattern fits its column if and only if nothing but blanks comes after its 50th character |
| `ScheduleLife.FitOutcome` | panel/models.py:151 | the pattern stored, with blanks past the width cut off, means what the pattern sent means |
| `ScheduleLife.LifeSound` | panel/main.py:2018-2037 | after creation and any ticks and toggles a row has a time, its pattern does not raise, and if it parses the time is that of an occurrence |
| `ScheduleLife.NeverCrashes` | panel/main.py:2022-2026 | no row that was ever created can end the executor's loop |
| `ScheduleLife.Pass` | panel/main.py:1077-1102 | a pass over such rows serves every one of them and keeps what all rows keep |
| `ScheduleLife.YearlyCreateIff` | panel/main.py:2022-2035 | between two occurrences of a yearly pattern creation fails if and only if a leap day lies in the gap and less than 24 hours of it have passed |
| `ScheduleLife.CreatedExactlyOnce` | panel/main.py:2018-2037 | a created row whose pattern parses fires, with ticks at most 60 s apart from then on, every later occurrence exactly once, in order |
| `ScheduleLife.CreatedOneShot` | panel/main.py:2018-2037 | a created one-shot keeps the time asked for and, with ticks at most 120 s apart that reach it, fires exactly once, within the 120 s after it |
| `ScheduleLife.RejectedStored` | panel/main.py:2022-2033 | a repeating row whose pattern does not parse is stored with the time asked for and never fires |
| `ScheduleLife.DeadIff` | panel/main.py:2056-2068 | a row never fires again, whatever ticks and toggles come, if and only if its pattern is rejected or its time is past by more than its grace |
| `ScheduleLife.UnservedDies` | panel/main.py:2056-2068 | a row that has not fired when its grace is over is dead, however it was toggled meanwhile |
| `ScheduleLife.SwitchedOff` | panel/main.py:2056-2068 | in particular one that is switched off all that while |
| `Demux.ReadDemuxed` | daemon/main.go:1722-1753 | the loop as written computes the decoding that carries an unfinished frame twice |
| `Demux.ReadDemuxedOnce` | daemon/main.go:1722-1753 | the loop keeping it once outputs the decoding of all bytes joined |
| `Demux.ConsumeFrames` | daemon/main.go:1733-1744 | the inner loop shows the whole frames, leaves the rest, and has already copied the rest if a header is complete |
| `Demux.DecodeAppend` | daemon/main.go:1728-1747 | decoding more bytes goes on from the undecoded rest |
| `Demux.DecodeFrames` | daemon/main.go:1720-1753 | encoding any frames and decoding them gives the stdout and stderr payloads in order and leaves nothing |
| `Demux.PayloadsAppend` | daemon/main.go:1740-1742 | each stdout or stderr frame adds its payload to what is shown, and no other frame adds anything |
| `Demux.BoundaryIndependence` | daemon/main.go:1720-1753 | with the rest kept once, the output is the payloads, whatever the frames and however the bytes are cut into reads |
| `DemuxLiteral.DecodePrefix` | daemon/main.go:1733-1747 | what a prefix of a frame sequence leaves undecoded is the start of the frame it is cut in |
| `DemuxLiteral.SafeReads` | daemon/main.go:1722-1753 | the loop as written is right whenever no read ends 8 or more bytes into an unfinished frame, whatever the stream types |
| `DemuxLiteral.UnsafeReads` | daemon/main.go:1722-1753 | when a read does, first in a frame that is shown, a byte of a header appears in the output |
| `DemuxLiteral.OutputExact` | daemon/main.go:1722-1753 | on every stream of stdout and stderr frames whose payloads hold no byte 1 or 2 the loop as written is right if and only if no read ends 8 or more bytes into an unfinished frame |
| `DemuxLiteral.LiteralExact` | daemon/main.go:1722-1753 | the same for streams with other types too, if the first unsafe read lies in a frame that is shown |
| `DemuxLiteral.LiteralIff` | daemon/main.go:1722-1753 | the condition is exact over contents: the loop is right for all fillings of the payloads if and only if it holds |
| `DemuxLiteral.LiteralFails` | daemon/main.go:1736-1747 | a frame of one byte read as its header and then that byte shows its stream type in place of the byte |
| `DemuxLiteral.LongFrameUnsafe` | daemon/main.go:1725-1732 | with the buffer of 8192 bytes a payload that long makes every way of reading unsafe |
| `DemuxLiteral.UnshownHarmless` | daemon/main.go:1736-1747 | in a frame that is not shown an unsafe read may leave the output right |
| `DemuxLiteral.UnshownHarmfulExists` | daemon/main.go:1736-1747 | or may spoil it: a concrete stream on which it does |
| `Demux.StripStreamHeaders` | daemon/main.go:1617-1635 | the loop computes the one-shot decoding |
| `Demux.StripVersusDecode` | daemon/main.go:1617-1635 | on every input the one-shot decoder is the incremental one plus what there is of a cut payload, or the raw tail when nothing else was shown |
| `Demux.StripComplete` | daemon/main.go:1617-1635 | on complete frames both decoders give the payloads |
| `Demux.StripCut` | daemon/main.go:1617-1635 | on a last frame cut at any byte, exactly what each decoder gives |
| `TtydPorts.Allocator.InUse` | daemon/main.go:84-91 | whether some registered console has the port |
| `TtydPorts.Allocator.FindAvailablePort` | daemon/main.go:69-96 | the first unused port from the cursor, which is left just past it; 0 with the cursor unmoved when the search comes round |
| `TtydPorts.FailsIff` | daemon/main.go:69-96 | the search fails if and only if every port but the cursor's predecessor on the ring is in use |
| `TtydPorts.TwoFreeSuffice` | daemon/main.go:69-96 | two free ports always suffice |
| `TtydPorts.Step` | daemon/main.go:69-161 | every step of every handler and process keeps the ports tied to the cursor positions at which they were handed out, each position once, in increasing order |
| `TtydPorts.SamePortApart` | daemon/main.go:69-132 | over every interleaving the same port is handed out twice if and only if the cursor advanced a positive multiple of 101 in between; below 101 all are distinct |
| `TtydPorts.SharedIff` | daemon/main.go:107-146 | pending consoles and live processes come to share a port exactly when the first port from the cursor without an entry is that of one pending or without an entry |
| `TtydPorts.DistinctRun` | daemon/main.go:99-161 | over every run no two of them ever share a port if and only if no search ends so |
| `TtydPorts.LappedPort` | daemon/main.go:69-96 | the port found is a holder's exactly when the cursor is a multiple of 101 past the place where that port was handed out |
| `TtydPorts.UnlistedIff` | daemon/main.go:126-161 | a process that stays alive loses its entry exactly when its console is registered again, another process of it is reaped, or it is stopped, and never gets it back |
| `TtydPorts.ListedIff` | daemon/main.go:126-161 | over every run a process registered and alive ever since has its entry if and only if no such step has come |
| `TtydPorts.OwnedRun` | daemon/main.go:126-161 | over every run each entry is that of a process that lives or has ended and is about to be reaped |
| `TtydPorts.ExitFrees` | daemon/main.go:137-143 | a process that ends gives up its port at once and its entry when it is reaped |
| `TtydPorts.ListedNotStarted` | daemon/main.go:100-105 | while a console is listed no other start of it gets past the lookup |
| `TtydPorts.FirstRoundDistinct` | daemon/main.go:99-161 | in particular until the cursor has gone once around |
| `TtydPorts.LapWitness` | daemon/main.go:107-132 | a run that hands one port to two consoles, neither yet registered |
| `TtydPorts.LiveWitness` | daemon/main.go:99-146 | a run with two live, registered processes of different consoles on one port |
| `ImageCache.ImageListCache.BeginRefresh` | daemon/main.go:238-250 | a fresh cache sends the caller to look again, a refresh in flight gives its channel, else one is opened |
| `ImageCache.ImageListCache.FinishRefresh` | daemon/main.go:252-260 | closes the current channel if a refresh is in flight, never a closed one |
| `ImageCache.RunInv` | daemon/main.go:238-260 | over every interleaving, doubled finishes included: in flight if and only if the channel is open, none closed twice, every waiter's channel is closed or the current open one |
| `ImageCache.BeginOutcome` | daemon/main.go:238-250 | over every run a begin that finds a fresh list leads to the second lookup, one that finds a refresh in flight to waiting on its open channel, and any other to fetching with a new channel |
| `ImageCache.WaitEnds` | daemon/main.go:796-798 | a waiting request goes on only once its channel is closed |
| `ImageCache.LookedAgainAfter` | daemon/main.go:791-803 | a second lookup was preceded by a wake on a closed channel or by a begin that found a fresh list |
| `ImageCache.MissBegins` | daemon/main.go:787-803 | a lookup that misses goes on to the begin |
| `ImageCache.LeavesAnswered` | daemon/main.go:787-832 | a request ends only with a fresh list, with an error, or after storing its own |
| `ImageCache.SingleFlightRun` | daemon/main.go:787-832 | at most one handler is fetching in every run whose deferred finishes find no refresh in flight |
| `ImageCache.StrayIff` | daemon/main.go:804-831 | from every single-flight state the deferred finish is harmless, in all continuations without a later stray one, if and only if no refresh is in flight when it runs |
| `ImageCache.TwoFetchers` | daemon/main.go:787-832 | a run from the start in which a second finish ends another handler's refresh and two handlers are fetching |
| `ImageCache.HitIff` | daemon/main.go:212-233 | over every run a lookup returns a value if and only if it is the latest stored, less than the ttl ago, with no invalidation since |
| `ImageCache.HitAge` | daemon/main.go:212-233 | the list of a hit came from Docker at one step and was stored by the same handler at a later one; it predates an invalidation if and only if one fell between |
| `ImageCache.StaleHit` | daemon/main.go:810-830 | a run that serves a list older than the last invalidation |
| `InstallRegistry.Registry.Register` | daemon/main.go:273-278 | a new open channel under the uuid, whatever was there |
| `InstallRegistry.Handle.Finish` | daemon/main.go:279-288 | the first call closes the channel once and takes out at most its own entry; later calls do nothing |
| `InstallRegistry.RegisteredOpen` | daemon/main.go:264-304 | in every run every registered channel is open and no channel is closed twice |
| `InstallRegistry.FinishKeepsOthers` | daemon/main.go:281-286 | in every run a finishing install takes out its own entry and no other, in particular not a newer install's |
| `InstallRegistry.ContainerIff` | daemon/main.go:1005-1477 | over every run a container is there if and only if an install created it and no install and no delete of its uuid has removed it since |
| `InstallRegistry.DeleteLeavesNothing` | daemon/main.go:1464-1477 | a delete that does not time out, had at most the registered install working, and meets no new install, ends with no container of its uuid |
| `InstallRegistry.DeleteCleanIff` | daemon/main.go:1464-1477 | that condition at the lookup is exact over all continuations |
| `InstallRegistry.OverlapWitness` | daemon/main.go:273-304 | overlapping installs of one uuid leave a delete that does not wait although one still works |
| `AllocationLedger.ClaimIff` | panel/main.py:789-803 | the loop over requested allocations succeeds if and only if all are free ones of the node and none repeats, and then exactly those change owner |
| `AllocationLedger.ClaimErrors` | panel/main.py:789-803 | why it fails: an allocation not of the node, or one taken or repeated |
| `AllocationLedger.Panel.CreateAllocations` | panel/main.py:661-681 | the new rows for the ports not yet there, or 404 and no change |
| `AllocationLedger.Panel.DeleteAllocation` | panel/main.py:690-698 | removes a free allocation; an owned one, or a primary one, is refused |
| `AllocationLedger.Panel.CreateServer` | panel/main.py:738-806 | succeeds if and only if the request is acceptable, with the state the run laws speak of; a failure changes nothing and says why |
| `AllocationLedger.Panel.CloneServer` | panel/main.py:1904-1974 | takes the first free allocation in id order whose port the daemon does not report busy; a failure changes nothing |
| `AllocationLedger.CloneChoiceLeast` | panel/main.py:1914-1949 | cloning has one choice: the free allocation with the least id whose port is not busy |
| `AllocationLedger.Panel.DeleteServer` | panel/main.py:1495-1514 | removes the server and releases exactly its allocations |
| `AllocationLedger.Panel.DeleteNode` | panel/main.py:630-638 | refused with servers on the node, or with a primary allocation on it; otherwise its allocations go with it |
| `AllocationLedger.AddPortsKeeps` | panel/main.py:666-678 | creating allocations keeps every row and adds only unowned ones of the range, no address twice |
| `AllocationLedger.AddPortsCovers` | panel/main.py:666-678 | afterwards every port of the range exists |
| `AllocationLedger.LedgerRun` | panel/main.py:629-1974 | over every run of requests, transfers included: (node, ip, port) is unique, every owner is a live server, and every server's primary allocation exists and is owned by it |
| `AllocationLedger.FreeNotPrimary` | panel/main.py:690-698 | over every run a free allocation is nobody's primary one, so that deleting it succeeds |
| `AllocationLedger.NodesLiveRun` | panel/main.py:630-638 | over every run every allocation and every server is on a node that exists |
| `AllocationLedger.AcceptedCreation` | panel/main.py:738-803 | a creation is accepted if and only if the image has a visible character, the node exists, and the allocations named are free ones of it, each named once |
| `AllocationLedger.RowsAfter` | panel/main.py:629-1974 | which allocations a request removes and whose each one is afterwards, row by row |
| `AllocationLedger.OwnedStays` | panel/main.py:629-698 | only deleting its node removes an owned allocation |
| `AllocationLedger.ServersAfter` | panel/main.py:737-1974 | which servers there are after a request, and where, row by row |
| `AllocationLedger.NodesAfter` | panel/main.py:604-638 | which nodes there are after a request |
| `AllocationLedger.TransferFreeRun` | panel/main.py:629-1974 | over every run without transfers a server's allocations also lie on its own node |
| `AllocationLedger.DropNodePrimaries` | panel/models.py:73 | dropping a node would lose a primary allocation exactly when one lies on it, which is when the database refuses |
| `AllocationLedger.SameNodeIff` | panel/main.py:1361-1364 | a server and its allocations part exactly when one that holds some is transferred |
| `AllocationLedger.HomeRun` | panel/main.py:629-1974 | over every run, transfers included, a server's allocations lie on the node it was created on |
| `AllocationLedger.DeleteNodeIff` | panel/main.py:630-638 | over every run a node without servers can be deleted if and only if no live server with a primary allocation was created on it |
| `AllocationLedger.DeleteNodeSpares` | panel/main.py:630-638 | over every run, deleting a node removes an owned allocation if and only if a server created there still holds one; it was moved away and has no primary allocation |
| `AllocationLedger.TransferWitness` | panel/main.py:1361-1364 | a run from the empty tables in which a server without a primary allocation is moved and deleting its old node removes its allocation |
| `AllocationLedger.CreateThenDelete` | panel/main.py:1511-1513 | deleting a server just created restores the tables |
| `AllocationLedger.AddressesKept` | panel/main.py:737-806 | no request changes an allocation's address, and only those that say so add or remove rows |
| `LoginThrottle.Throttle.HandleLogin` | panel/main.py:518-528 | one login: throttled, rejected with a row added, or accepted with the recent rows of its username and address removed |
| `LoginThrottle.Throttle.Check` | panel/main.py:482-500 | passes if and only if both the username and the address have fewer than five rows in the last 600 s |
| `LoginThrottle.LoginBounded` | panel/main.py:495-505 | one login keeps every closed 600 s window at five rows per username and per address |
| `LoginThrottle.RunBounded` | panel/main.py:478-528 | so over every run of serial logins |
| `LoginThrottle.FailuresAccounted` | panel/main.py:478-528 | in every run the rejected logins of a window are its stored rows and those that accepted logins cleared |
| `LoginThrottle.FailuresWithin` | panel/main.py:478-528 | so at most five more than the cleared ones, and more than five exactly when what is cleared exceeds the room the stored rows leave |
| `LoginThrottle.ClearingsNone` | panel/main.py:508-515 | none is cleared if and only if no accepted login matches an earlier failure of the window |
| `LoginThrottle.FailuresStored` | panel/main.py:478-528 | unless an accepted login clears one, the stored rows of a window are all the rejected logins of it |
| `LoginThrottle.FailuresBounded` | panel/main.py:478-528 | and then at most five logins per username and per address are rejected in any 600 s |
| `LoginThrottle.FailuresUnbounded` | panel/main.py:508-515 | otherwise there is no bound: four failures and one success from the same address, repeated |
| `LoginThrottle.SuccessClears` | panel/main.py:508-515 | after a successful login nothing counts against its username or address |
| `LoginThrottle.SuccessLeaves` | panel/main.py:508-515 | a success leaves exactly the rows that share neither its username nor its address, and those older than 600 s |
| `LoginThrottle.CircleRows` | panel/main.py:478-528 | when every request has both its username and its address in a circle or neither, the circle's rows are those of the run of its requests alone |
| `LoginThrottle.CircleOutcome` | panel/main.py:478-528 | and every login of the circle ends as it would without the others |
| `LoginThrottle.LockoutLifts` | panel/main.py:482-500 | with every attempt more than 600 s old a login is not throttled |
| `InstallPoller.ServerRow.Poll` | panel/main.py:839-897 | the loop ends at the first decisive answer or missing row, with the state each end leaves |
| `InstallPoller.InstallingWaits` | panel/main.py:852-856 | while the answers say the install is going on, or fail, nothing is settled |
| `InstallPoller.StartingWaits` | panel/main.py:865-880 | nor while the container is there but neither runs nor has ended |
| `InstallPoller.FinishedEnds` | panel/main.py:865-878 | a container that runs, has exited or died ends the poll at that answer |
| `InstallPoller.MissingEnds` | panel/main.py:857-864 | a missing one ends it from the seventh attempt on |
| `InstallPoller.PollSettles` | panel/main.py:839-897 | while the rows survive: at most 90 attempts, installed, not "installing", the status of the first decisive answer, and a missing container declared failed at the seventh attempt at the earliest |
| `Shell.QuoteRoundTrip` | daemon/main.go:457-460 | a POSIX shell reads the quoted form of any string back as that string, in any context that ends the word |
| `Shell.QuoteIsOneWord` | daemon/main.go:457-460 | alone it is exactly one word |
| `Shell.WriteTokens` | daemon/main.go:1846-1851 | the shell sees the write command as printf with the doubled content, redirected to the path |
| `Shell.ReadTokens` | daemon/main.go:1825-1828 | the shell sees the read command as cat on the path, or else an empty echo |
| `Shell.WriteStores` | daemon/main.go:1835-1853 | writing stores the content with every backslash doubled, in the file the path names and no other |
| `Shell.DoubledIs` | daemon/main.go:1846 | each backslash becomes two and nothing else changes |
| `Shell.UnderData` | daemon/main.go:1824-1836 | every file read or written lies under /data unless its path goes up |
| `Shell.ResolveLaws` | daemon/main.go:1824-1836 | which spellings of a path name the same file |
| `Shell.ReadFileViaDocker` | daemon/main.go:1823-1833 | the text read is the output of the loop as written, without its trailing newlines |
| `Shell.ReadReturns` | daemon/main.go:1823-1833 | it is the file without its trailing newlines, or nothing, when the reads are safe; with the corrected loop always |
| `Shell.TextArrivesIff` | daemon/main.go:1684-1688 | for texts without the characters 1 and 2: an output with doubled backslashes arrives as the original if and only if that has no backslash, no newline at its end, and the reads are safe |
| `Shell.ReadAfterWriteSafe` | daemon/main.go:1823-1853 | then, and with the corrected loop always, what was written is read back if and only if it has no backslash and no newline at its end |
| `Shell.ReadAfterWriteIff` | daemon/main.go:1823-1853 | for texts without the characters 1 and 2 the code reads back what was written if and only if it has no backslash, no newline at its end, and the reads are safe |
| `Shell.LongTextLost` | daemon/main.go:1684-1688 | a text sent in a frame as long as the buffer is never read back |
| `Shell.ReadAfterWriteFails` | daemon/main.go:1684-1688 | a content of one character, with neither backslash nor newline, that is not read back |
| `Shell.ReadElsewhere` | daemon/main.go:1823-1853 | after a write every spelling of the path prints the new content and every other file prints as before |

## Left out

- Docker, HTTP, WebSockets, console processes and the clock: their answers, reads and times are parameters.
- Dispatching a schedule's action and the server status it sets (panel/main.py:1110-1123), the lock between panel processes, and database errors.
- `int()` of Python: ASCII digits, a sign and single underscores are read; other digits and the limit on the number of digits are not modelled. Cron fields are split at whitespace as Python does.
- The year limit of `datetime`: the calendar goes on for ever.
- `DemuxLiteral.LiteralIff`: assumes that the first unsafe read, if any, ends in a stdout or stderr frame, as it must on the streams of commands, which hold no others. In a frame that is not shown the damage depends on what its payload looks like as a header; both outcomes occur (`DemuxLiteral.UnshownHarmless`, `DemuxLiteral.UnshownHarmfulExists`).
- `DemuxLiteral.LiteralExact`: assumes the same, and payloads without the bytes 1 and 2.
- `Shell.ReadAfterWriteIff`: assumes a text without the characters 1 and 2, which could hide a header shown by mistake; for other contents `Shell.ReadAfterWriteSafe` gives the condition when the reads are safe.
- Sizes in the decoders are mathematical integers, as on a 64-bit daemon, where a header cannot exceed an `int`.
- `InstallRegistry.DeleteLeavesNothing`: says nothing about a delete that times out after 30 seconds, or about an install that starts after the lookup; both can leave a container.
- Fairness: that every handler, install or waiting request eventually runs is not modelled, only what holds whenever they do.
- Panel requests are atomic; interleavings at their `await` points, such as two clones choosing one allocation, are not modelled.
- Row ids are chosen by the caller of the model: unused for servers, increasing for allocations.
- `AllocationLedger.Panel.CloneServer`: no allocation has id 0, as in the database, where ids start at 1.
- Access checks and failed commits. The database is PostgreSQL, without which the panel does not start (panel/main.py:101); of its constraints the model has the key from a server to its primary allocation, the required time and the width of a schedule's pattern, and unique identifiers. Widths of other texts are not modelled.
- A transfer changes only the server's node, since that is what breaks the same-node property.
- `LoginThrottle.Throttle.HandleLogin`: requests are serial; concurrent logins could pass the check together.
- `InstallPoller.ServerRow.Poll`: no one else writes the row while it runs.
- NUL characters in database texts, which the database refuses.
- Shell expansions, double quotes and NUL characters, and the `mkdir -p` that precedes a write; commands are taken to succeed.
- Paths are resolved by their text: `.`, `..` and repeated slashes count, symbolic links and missing directories do not. A character of a file or command is a byte of the Go string.
- Deleting a schedule, which only ends the life of its row.
- Sessions, tokens and password hashing, path checks of the file manager, transfers of files, backups, statistics, the frontend and the installer.
