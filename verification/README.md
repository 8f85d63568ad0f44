# FenGarde evaluation lane: a verified model

This project models, in Dafny, the arithmetic and state machines the evaluation lane of the
repository relies on, and proves what that code claims to be exact, minimal, one-directional or
meaning-preserving. Every file is a module of the same name; `dafny verify dfyconfig.toml` checks
all of them.

## What is modelled

**The window predictor and the attacker's schedules** (`Detector`, `WindowLaws`, `SubjectLaws`,
`Schedule`, `Uniform`, `Jitter`, `JitterSearch`, `Radix`, `KeySpread`, `SpreadSearch`, `Frontier`;
source `eval/adversarial/evasion_axes.py`). `Detector.Fires` is the declarative reading of the window
predictor, and the method `Detector.PredictRule` is its one-pass, list-per-group, early-return
form; `SubjectLaws` says, on the events' own fields, which of them count together. The schedules,
the key assignment and the searches are modelled in their own loops, and each main theorem ties one
of them to the detector: the greedy schedule evades and no evading schedule is sooner; the uniform
gap is the largest that fires plus one; a key assignment fires iff its heaviest key carries the
threshold; the search answer is a closed form.

**The streaming DNS window** (`DnsWindow`, `DnsAnalyzer`, `DnsSweep`, `DnsCounts`, `DnsSample`,
`WindowAgreement`; source `tools/dns_cardinality_report.py`). `DnsAnalyzer.Parent` and
`DnsAnalyzer.Analyzer` are classes whose methods update the deque, the counts, the marks and the
parents in place; each method's `ensures` ties the new value of `View()` to a step function of the
old one, and the step function is proved, over every record order, to compute a declarative window.
`DnsCounts` and `DnsSample` read the counters, the peak and the sample off the log alone. The window
is then compared with the predictor, a second implementation of the same rule.

**The floor ratchet, its gate and its guard** (`Ratchet`, `RatchetLaws`, `FloorCheck`, `FloorGuard`;
source `eval/adversarial/evasion_cost.py`, `tools/check_floor_lowering.py`). The update is a chain of
methods over a persistent record; its specification says what every field, frontier, log and
fingerprint becomes, and `RatchetLaws` what that means for the recorded values. Whole histories of
commits are judged by the guard, and one update by the gate.

**Four kernels.** The Sigma importer's names, groups and condition rewriting down to characters,
against the engine's tokenizer and parser (`SigmaText`, `SigmaCondition`, `SigmaImport`), and what
every written condition means before and after (`SigmaMeaning`); the call-reachability worklist
(`Reachability`); the anchor, settle and evaluate polling machine (`Polling`); the balanced-bracket
scanner (`Brackets`).

## Where the code and its own words differ

The model follows the code. Each difference below is a lemma.

- The greedy schedule is said to evade every rule-set. A constraint with a threshold below 2 is
  skipped, so it does iff the burst is empty or every threshold is at least 2
  (`Schedule.EvadesIffThresholdsAtLeastTwo`). The uniform schedule skips it too, and there a
  periodicity rule is still harmless when it never gets three events to measure
  (`Uniform.RegularEvadesIff`).
- The schedule one millisecond faster "must be detected". It is iff some rule can hold its
  threshold of events at the minimal gap within one window (`Schedule.BoundaryDetectedIff`), and the
  rule of the smallest threshold trips iff it can itself (`Schedule.SmallestThresholdFiresIff`). The
  uniform control also needs a periodicity rule to see three events that are not simultaneous
  (`Uniform.RegularControlDetectedIff`).
- The spread search keeps a linear scan for answers that are not monotone. The scan can never run
  (`SpreadSearch.SolveIsBisection`). The answer is the fewest keys iff one key per event evades too
  and the bisection meets no detected count at or above the fewest on its way there
  (`SpreadSearch.SolveIsLeastIff`). Both halves fail on real rules. A companion that counts distinct
  keys, as a spray rule does, fires at one key per event, and the search then answers immune although
  fewer keys evade (`SpreadSearch.SolveCanMissEvasion`; exactly when, `SpreadSearch.FalselyImmuneIff`).
  Eight events that cycle through three names evade a distinct rule on three keys, and the search
  answers eight (`SpreadSearch.SolveCanMissTheLeast`). More keys of one kind can make a silent cell
  fire again (`SpreadSearch.MoreKeysMayFireAgain`).
- The jitter search promises the smallest jitter that evades. It finds it whenever every window
  holds the whole burst (`JitterSearch.JitterSearchIsExact`), and in general iff that is 0, or the
  largest jitter evades too and no probe on the way fires again
  (`JitterSearch.SolveJitterIsLeastIff`). A window that cuts the burst can let a rule fire at 48 and
  50 permille but not at 49, and the search answers 51 (`JitterSearch.JitterSearchCanMissTheLeast`);
  a companion that catches short gaps fires again from 600 permille, and the search answers that
  nothing evades although 53 to 599 do (`JitterSearch.JitterSearchCanMissEvasion`).
- The periodic sweep frees windows that "nothing in range can still reach". That holds in time
  order. In general a sweep leaves no trace iff no line reaches back into a window that could have
  been freed, a condition on the log alone (`DnsSweep.SweepUnseenIff`); otherwise the peak can depend
  on the sweep interval (`DnsSweep.SweepShowsOutOfOrder`).
- The analyzer and the predictor implement one rule but keep different windows out of order. They
  agree after every record iff no evicted record comes back within reach
  (`WindowAgreement.WindowsAgreeIff`, with `WindowAgreement.ComebackSplitsThem`).
- A floor update that refuses nothing is not always clean for the gate that follows: a recorded
  frontier that was not measured again, or a waived rule-set kept by the update, fails it
  (`FloorCheck.UpdateThenCheckIff`).
- The guard can flag a history the ratchet accepted: a rule-set removed with a reason and measured
  afresh has lost its log (`FloorGuard.RemovalEscapesTheLog`). Only removed rule-sets can be flagged,
  and the guard is clean iff each one recorded again has a longer log or moved nothing
  (`FloorGuard.ViolationMeansRemoved`, `FloorGuard.GuardCleanIff`).
- The importer numbers a local name that is taken, but the numbered name can be taken too, and
  then one selection overwrites another (`SigmaImport.NumberingCanClash`). Every item keeps its
  fields iff none meets that on its turn (`SigmaImport.ImportKeepsIff`), and no item does when the
  sanitized and numbered names are distinct (`SigmaImport.DistinctNamesKeep`).
- A clean verdict of the live companion does not mean the anchor is in the final alert set
  (`Polling.AnchorMayVanish`). It is there iff any one poll of the settled run shows it, as long as
  one alert id never stands for two rules (`Polling.AnchorKeptIff`, `Polling.AnchorVanishedIff`).

## Model

| member | source | states |
|---|---|---|
| `Common.CeilDiv` | eval/adversarial/evasion_axes.py:505 | the exact integer ceiling: the one multiple count `c` with `(c-1)*b < a <= c*b`, also for negative numerators |
| `Detector.PredictRule` | eval/adversarial/evasion_axes.py:370-401 | the one-pass predictor returns true iff some event raises an alarm in the declarative reading, for every arrival order, grouping, distinct field and periodicity bound |
| `Detector.PredictSet` | eval/adversarial/evasion_axes.py:404-405 | true iff some rule of the set fires |
| `SubjectLaws.SubjectsApart` | eval/adversarial/evasion_axes.py:343-401 | in any order a rule of any kind fires on an arrival iff it fires on the events about some one name: names never share a count, events without the grouping or the distinct field are passed over, and only the two account fields are compared folded |
| `SubjectLaws.SubjectFiresIff` | eval/adversarial/evasion_axes.py:363-401 | on a time-ordered arrival a plain rule fires iff some T consecutive events about one name fit the window |
| `SubjectLaws.AnyOrderFiresIff` | eval/adversarial/evasion_axes.py:370-401 | in any order a plain or distinct rule fires iff some event about a name has T events of it, or T different values, no more than a window older |
| `SubjectLaws.SpellingsDecide` | eval/adversarial/evasion_axes.py:363-388 | two spellings of one name within the window fire a threshold of two iff the rule groups by one of the two account fields |
| `SubjectLaws.TimesAreSorted` | eval/adversarial/evasion_axes.py:395-396 | the live times enter the variation in ascending order, whatever order they came in |
| `WindowLaws.GroupWindowSmaller` | eval/adversarial/evasion_axes.py:389-392 | whatever keys the events carry, a group's live window holds no more entries than the burst has events that recent |
| `WindowLaws.SpacedIsSilent` | eval/adversarial/evasion_axes.py:370-401 | if no T consecutive events fit in one window, edges included, the rule is silent for every choice of keys, distinct values and periodicity |
| `WindowLaws.WindowAt` | eval/adversarial/evasion_axes.py:390-400 | on a time-ordered, singly keyed burst with distinct values the live window at event k is a tail of the burst, and the alarm there is its length reaching T (and the regularity of those times) |
| `WindowLaws.PlainFiresIff` | eval/adversarial/evasion_axes.py:370-401 | on such a burst a plain or distinct rule fires iff some T consecutive events span at most the window |
| `Schedule.OptimalSlowOffsets` | eval/adversarial/evasion_axes.py:479-496 | the result meets every constraint, never starts before 0, keeps the minimal gap, and is pointwise at most every other schedule that does |
| `Schedule.EarliestIsTight` | eval/adversarial/evasion_axes.py:491-494 | the next offset is above every bound and equal to one of them |
| `Schedule.GreedyFeasible` | eval/adversarial/evasion_axes.py:489-496 | the greedy schedule meets every constraint, for any minimal gap and slack, negative ones included |
| `Schedule.GreedyLeast` | eval/adversarial/evasion_axes.py:483-485 | the pointwise-minimal schedule: no admissible schedule delivers any event sooner |
| `Schedule.KeepingEvades` | eval/adversarial/evasion_axes.py:479-488 | every schedule that keeps the strict constraints evades the whole rule-set, whatever the burst carries |
| `Schedule.GreedyEvades` | eval/adversarial/evasion_axes.py:479-496 | with slack 1 and thresholds of at least 2 the predictor is silent on the greedy schedule for every burst content |
| `Schedule.NoEvasionIsSooner` | eval/adversarial/evasion_axes.py:480-485 | optimality against the detector itself: any spaced schedule on which a set of plain rules stays silent is pointwise at or after the greedy one |
| `Schedule.EvadesIffThresholdsAtLeastTwo` | eval/adversarial/evasion_axes.py:492-494 | the promise of evasion holds for every burst content iff the burst is empty or every threshold is at least 2 |
| `Schedule.LoneEventFires` | eval/adversarial/evasion_axes.py:391-400 | a plain rule with a threshold below 2 fires on the first event it counts |
| `Schedule.SomeConstraintBinds` | eval/adversarial/evasion_axes.py:489-496 | if some rule's T events at the minimal gap fit its window, some constraint is met with equality on the slack-0 schedule |
| `Schedule.FiringIsReachable` | eval/adversarial/evasion_axes.py:487-488 | a rule that fires on a spaced burst has n >= T and a window of at least (T-1) minimal gaps |
| `Schedule.BoundaryDetectedIff` | eval/adversarial/evasion_axes.py:487-488 | the slack-0 control on one key is detected iff some rule is reachable at the minimal gap |
| `Schedule.SmallestIsTight` | eval/adversarial/evasion_axes.py:489-496 | nothing binds before position T-1 of the smallest threshold, widest window among ties, and there its constraint is met with equality |
| `Schedule.SmallestThresholdFiresIff` | eval/adversarial/evasion_axes.py:487-488 | the plain rule of the smallest threshold, widest window among ties, fires on the slack-0 schedule iff n >= T and its window spans T-1 minimal gaps |
| `Uniform.GapIsMaximum` | eval/adversarial/evasion_axes.py:504-510 | the gap is the maximum over the constraints that count and is attained; there is none (the source's error on an empty maximum) iff no threshold is at least 2 |
| `Uniform.StrictGapIsOneMore` | eval/adversarial/evasion_axes.py:504-510 | for every constraint set the slack-1 gap is the slack-0 gap plus one |
| `Uniform.EvenTimesDoNotVary` | eval/adversarial/evasion_axes.py:352-361 | three or more equally spaced times have coefficient of variation zero |
| `Uniform.UniformFiresIff` | eval/adversarial/evasion_axes.py:370-401 | on an evenly spaced burst a plain, distinct or periodicity rule fires iff enough events come and its window spans the gaps it needs (at least two, and not of zero length, for a periodicity rule) |
| `Uniform.UniformGapIsTight` | eval/adversarial/evasion_axes.py:499-511 | once n reaches every threshold a uniform gap is detected iff it is below the strict gap, iff it is at most the slack-0 gap |
| `Uniform.RegularControlDetectedIff` | eval/adversarial/evasion_axes.py:506-511 | the slack-0 uniform control, a gap of zero included, is detected iff some rule comes to see the gaps it needs within its window, which for a periodicity rule must not be zero |
| `Uniform.RegularEvades` | eval/adversarial/evasion_axes.py:499-511 | the strict uniform schedule evades every set, periodicity rules included, whatever the burst carries |
| `Uniform.RegularEvadesIff` | eval/adversarial/evasion_axes.py:504-510 | thresholds below 2 included, the strict uniform schedule evades for every burst content iff the burst is empty or each such rule is a periodicity rule with too few events, too short a window or a negative bound |
| `Uniform.GreedyBeatsUniform` | eval/adversarial/evasion_axes.py:483-485 | the greedy schedule delivers every event no later than the strict uniform one |
| `Jitter.JitterOffsets` | eval/adversarial/evasion_axes.py:514-522 | offsets start at 0 and successive gaps alternate long, short in floored milliseconds; even an empty burst yields one offset |
| `Jitter.CvFromSums` | eval/adversarial/evasion_axes.py:352-361 | squared variation of m gaps is (m Q - S^2) / S^2 in their integer sum S and sum of squares Q |
| `Jitter.JitterClosedForm` | eval/adversarial/evasion_axes.py:514-522 | for every period the squared variation of m successive gaps is exactly e o (a-b)^2 / (e a + o b)^2, where a, b are the two floored gaps and e, o how often each occurs |
| `Jitter.WholeSecondForm` | eval/adversarial/evasion_axes.py:514-522 | for a period in whole seconds that is (J/1000)^2 for even m and J^2 (m^2-1) / (1000 m + J)^2 or (1000 m - J)^2 for odd m, as the run starts long or short |
| `Jitter.JitterAlarmIff` | eval/adversarial/evasion_axes.py:395-398 | for every period and threshold a periodicity rule on a jittered burst alarms at an event iff its window holds T events, at least three, and the closed form of that window is within the bound; never when the period is zero |
| `JitterSearch.VariationGrows` | eval/adversarial/evasion_axes.py:514-522 | for every period, run length and starting gap a run varies more the larger the jitter, flooring included |
| `JitterSearch.PeriodicFiresIff` | eval/adversarial/evasion_axes.py:662-663 | inside one window a periodicity rule fires on the jittered burst iff some run from the first event is long enough and its closed form within the bound |
| `JitterSearch.SolveJitterIsLeast` | eval/adversarial/evasion_axes.py:665-668 | for any verdict that more jitter never brings back, the answer is the least jitter that evades, and none iff none up to 999 does |
| `JitterSearch.JitterSearchIsExact` | eval/adversarial/evasion_axes.py:655-674 | the predicted search answers the least evading jitter for every period and every rule-set whose windows hold the whole burst |
| `JitterSearch.SolveJitterIsLeastIff` | eval/adversarial/evasion_axes.py:665-668 | the least silent jitter is the answer iff it is 0, or the largest jitter is silent and no value the bisection probes at or above it on its way fires |
| `JitterSearch.CutFiresIff` | eval/adversarial/evasion_axes.py:395-398 | five events around twenty seconds of period under a window of 59: the rule fires up to 48 permille and at 50 |
| `JitterSearch.JitterSearchCanMissTheLeast` | eval/adversarial/evasion_axes.py:655-657 | there 49 evades and the search answers 51 |
| `JitterSearch.CutBurst` | eval/adversarial/evasion_axes.py:655-663 | such a burst exists for every jitter |
| `JitterSearch.PairFiresIffOutside` | eval/adversarial/evasion_axes.py:404-405 | five events around twenty seconds, a periodicity rule that sees them all and a plain rule for two within eight seconds: the pair fires up to 52 permille and from 600 |
| `JitterSearch.JitterSearchCanMissEvasion` | eval/adversarial/evasion_axes.py:655-668 | there 53 to 599 evade and the search answers that none does |
| `JitterSearch.PairedBurst` | eval/adversarial/evasion_axes.py:655-663 | such rules and bursts exist for every jitter |
| `KeySpread.AssignKeys` | eval/adversarial/evasion_axes.py:429-441 | the in-place pass over kinds with a running stride writes into every event the mixed-radix digit of its rank for each kind, and leaves a kind of one key alone |
| `Radix.SameComboIff` | eval/adversarial/evasion_axes.py:430-432 | two ranks get the same key combination iff they agree modulo the product of the key counts |
| `Radix.BlockHitsOnce` | eval/adversarial/evasion_axes.py:430-432 | any block of that many consecutive ranks hits every combination exactly once |
| `Radix.BalancedLoad` | eval/adversarial/evasion_axes.py:430-432 | over n events each combination carries the floor or the ceiling of n over the product, the early combinations taking the remainder |
| `KeySpread.DigitIsCombo` | eval/adversarial/evasion_axes.py:430-440 | the digit the assignment writes for a kind is the combination's |
| `KeySpread.SameKeysIff` | eval/adversarial/evasion_axes.py:429-441 | two assigned events carry the same key of every kind iff their ranks have the same combination |
| `KeySpread.BlockHoldsEachOnce` | eval/adversarial/evasion_axes.py:429-441 | any block of as many consecutive assigned events as there are combinations holds every event's keys exactly once |
| `KeySpread.KeysBalanced` | eval/adversarial/evasion_axes.py:429-441 | each combination of keys is carried by floor(n/p) events, one more for those of the first n modulo p |
| `Radix.HeaviestDigit` | eval/adversarial/evasion_axes.py:438-440 | key 0 of a kind is the heaviest on its own, with an exact closed form in n, stride and key count |
| `KeySpread.FiresIffLoaded` | eval/adversarial/evasion_axes.py:386-400 | inside one window a plain or distinct rule fires iff some key carries its threshold |
| `KeySpread.AssignedKeys` | eval/adversarial/evasion_axes.py:429-441 | after the assignment two events share the rule's group iff they carry the same digit of its kind |
| `KeySpread.JointFiresIff` | eval/adversarial/evasion_axes.py:598-601 | after a joint assignment over any number of kinds a rule keyed on one of them fires iff the heaviest load on that kind reaches its threshold |
| `KeySpread.UntouchedFires` | eval/adversarial/evasion_axes.py:554-556 | a rule keyed on something else gives the verdict it gave on the burst |
| `SpreadSearch.FirstTrue` | eval/adversarial/evasion_search.py:202-211 | the loop computes the recursive bisection |
| `SpreadSearch.BisectIsEdge` | eval/adversarial/evasion_search.py:202-211 | for any predicate at all the result is in range, true if the top is true, and its predecessor is false |
| `SpreadSearch.BisectIsLeastIff` | eval/adversarial/evasion_search.py:202-211 | without monotonicity the least true value is found iff the predicate holds at every midpoint probed at or above it on the way there |
| `SpreadSearch.SolveSpread` | eval/adversarial/evasion_axes.py:569-577 | the search with its confirmation and fallback scan computes the specification function below |
| `SpreadSearch.SolveIsBisection` | eval/adversarial/evasion_axes.py:569-577 | the answer is immune iff n < 2 or n keys are still detected; otherwise it is the bisection's, an edge of the dark set, and the least dark count when darkness is monotone; the fallback scan never runs |
| `SpreadSearch.SolveIsLeastIff` | eval/adversarial/evasion_axes.py:569-577 | the answer is the fewest keys iff one key per event evades and the bisection meets no detected count at or above the fewest on its way there |
| `SpreadSearch.CyclesDarkIff` | eval/adversarial/evasion_axes.py:553-567 | eight events cycling through three names under a distinct rule that wants two: k keys are dark iff no key receives two names |
| `SpreadSearch.SolveCanMissTheLeast` | eval/adversarial/evasion_axes.py:553-577 | on every such burst three keys evade, two do not, and the search answers eight |
| `SpreadSearch.CyclingBurst` | eval/adversarial/evasion_axes.py:553-577 | such a burst, rule and setter exist |
| `SpreadSearch.OnKindFiresIff` | eval/adversarial/evasion_axes.py:553-567 | spread over k keys, a rule on that kind fires iff ceil(n/k) >= T, iff k < ceil(n/(T-1)) |
| `SpreadSearch.CountingFiresIff` | eval/adversarial/evasion_axes.py:391-400 | spread over k keys, a companion that counts them fires iff the smaller of k and n reaches its threshold |
| `SpreadSearch.SpreadDarkIff` | eval/adversarial/evasion_axes.py:566-567 | the set is dark at k iff no companion on another key fires, no companion counts that many keys, and k >= ceil(n/(T-1)) |
| `SpreadSearch.SpreadAnswer` | eval/adversarial/evasion_axes.py:553-583 | the whole search in closed form: immune iff a companion on another key fires or one that counts keys fires at one key per event, otherwise max(2, ceil(n/(T-1))) |
| `SpreadSearch.FalselyImmuneIff` | eval/adversarial/evasion_axes.py:554-556 | "immune" hides an evading count iff no companion on another key fires and one that counts keys fires at one key per event but not at max(2, ceil(n/(T-1))) |
| `SpreadSearch.SolveCanMissEvasion` | eval/adversarial/evasion_axes.py:553-571 | four events under a per-source rule for three and a spray companion for four sources: two and three sources evade, and the search answers immune |
| `SpreadSearch.SprayingBurst` | contracts/rules/common_password_spray.yml:34-37 | such rules, burst and setter exist, the companion grouping by account and counting sources |
| `SpreadSearch.JointCellDarkIff` | eval/adversarial/evasion_axes.py:586-604 | a grid cell is dark iff the heaviest key of every rule's kind stays below its threshold |
| `SpreadSearch.MoreKeysMayFireAgain` | eval/adversarial/evasion_axes.py:606-609 | for every burst of six and rule of threshold four on the second kind, cell (1,2) is silent and cell (2,2) fires |
| `Frontier.FrontierReached` | eval/adversarial/evasion_axes.py:606-609 | every dark cell dominates some point of the frontier |
| `Frontier.FrontierIsLeast` | eval/adversarial/evasion_axes.py:606-609 | the frontier is an antichain and is contained in every set of dark cells that all dark cells dominate a point of |
| `Frontier.NoRegressionIff` | eval/adversarial/evasion_cost.py:238-242 | comparing frontiers compares dark sets: nothing regressed iff every measured dark cell dominates a floor point |
| `Frontier.RegressedTransitive` | eval/adversarial/evasion_cost.py:238-242 | not regressing is transitive |
| `Frontier.ConcededShrinks` | eval/adversarial/evasion_cost.py:507-519 | nothing regressed iff every cell the new frontier concedes was conceded by the old one |
| `Frontier.RegressedPointwise` | eval/adversarial/evasion_cost.py:238-242 | a measured point regresses iff against every floor point it needs fewer keys of some kind |
| `DnsAnalyzer.InsertionIndex` | tools/dns_cardinality_report.py:500-502 | the bisection loop of the sorted insertion; inserting there keeps a time-sorted deque time-sorted |
| `DnsWindow.BisectKeepsTimes` | tools/dns_cardinality_report.py:499-502 | although ties are not sorted by name, so the bisection's own precondition fails, the place it finds keeps times sorted |
| `DnsWindow.EnqueueSorted` | tools/dns_cardinality_report.py:499-504 | the deque gains exactly the new record and stays sorted by time |
| `DnsWindow.EvictFilters` | tools/dns_cardinality_report.py:511-518 | the eviction loop drops exactly the records before the horizon, and the counts stay the multiset of the names held |
| `DnsWindow.StepIsWindow` | tools/dns_cardinality_report.py:487-525 | one record takes the window of a record list to the window of the longer list |
| `DnsWindow.RunIsWindow` | tools/dns_cardinality_report.py:487-525 | for every record order the deque holds exactly the records never passed by more than the window, sorted by time, the counts are their names, and the peak, its mark and the high-water mark are those of all prefixes |
| `DnsWindow.MaxDistinctIsMaximum` | tools/dns_cardinality_report.py:521-525 | the reported peak bounds the distinct count of every prefix and is attained by one |
| `DnsWindow.Newest` | tools/dns_cardinality_report.py:506-507 | the high-water mark is a time seen and at least every time seen |
| `DnsAnalyzer.Parent.Enqueue` | tools/dns_cardinality_report.py:499-504 | the field update is the sorted insertion |
| `DnsAnalyzer.Parent.CountName` | tools/dns_cardinality_report.py:505 | the counter gains one of the name, at the end of the key order when new |
| `DnsAnalyzer.Parent.EvictBefore` | tools/dns_cardinality_report.py:511-518 | the in-place loop is the eviction function and never looks up a missing name |
| `DnsAnalyzer.Parent.Accept` | tools/dns_cardinality_report.py:487-525 | one record through a parent's fields is one step of its window, all marks included |
| `DnsAnalyzer.Parent.FreeIfExpired` | tools/dns_cardinality_report.py:534-536 | a parent a window behind loses its deque and counts and keeps its marks |
| `DnsAnalyzer.Analyzer.Touch` | tools/dns_cardinality_report.py:457-459 | a parent is created on first sight and no other parent changes |
| `DnsAnalyzer.Analyzer.WindowAdd` | tools/dns_cardinality_report.py:487-525 | only this parent's window steps; the late counter and the largest deque move exactly as read |
| `DnsAnalyzer.Analyzer.SweepExpired` | tools/dns_cardinality_report.py:527-536 | every expired parent is freed and every other one is untouched |
| `DnsAnalyzer.Analyzer.NoteTime` | tools/dns_cardinality_report.py:475-480 | the timed counter and the global mark move, and no window does |
| `DnsAnalyzer.Analyzer.EnterTimed` | tools/dns_cardinality_report.py:474-482 | a timed record updates the global mark, the counters and one parent, and nothing else |
| `DnsAnalyzer.Analyzer.Add` | tools/dns_cardinality_report.py:448-485 | the whole new state of the analyzer after one record, the missing-parent and missing-time paths and the sweep included |
| `DnsAnalyzer.Analyzer.constructor` | tools/dns_cardinality_report.py:433-446 | a fresh analyzer holds no parent; the window is in milliseconds and the sweep interval at least one |
| `DnsSweep.Replay` | tools/dns_cardinality_report.py:752-781 | feeding a list of records to a fresh analyzer gives the run of the step function |
| `DnsSweep.UnsweptRun` | tools/dns_cardinality_report.py:448-485 | while fewer timed records than the interval have come, each parent's window is that parent's own run, however parents interleave |
| `DnsSweep.SweptRunSimulates` | tools/dns_cardinality_report.py:482-485 | when no line reaches back, a sweeping run and one that never sweeps stay related line by line: equal counters, and windows equal or freed a full window ago |
| `DnsSweep.SweepInvisible` | tools/dns_cardinality_report.py:527-536 | then for any two sweep intervals and any interleaving every parent's peak, peak time and sample and the largest deque are equal |
| `DnsSweep.OrderedHasNoLateReturn` | tools/dns_cardinality_report.py:528-529 | no line of a time-ordered log reaches back |
| `DnsSweep.SweepUnseenIff` | tools/dns_cardinality_report.py:527-536 | over whole logs in any order: no line reaches back (its parent's newest time a window behind the log's, yet within a window of the line) iff for every interval each line leaves its parent's window as if nothing had been swept |
| `DnsCounts.CountersAre` | tools/dns_cardinality_report.py:448-497 | after any log, for any interval: the lines, those without a parent, without a time, counted, and the late ones, which are exactly those more than a window behind a counted line no later in the log; and the parents seen |
| `DnsCounts.LargestIs` | tools/dns_cardinality_report.py:519-520 | the largest deque is the largest number of records any parent held at one time, for every interval when no line reaches back |
| `DnsSweep.SweepNeverOverstates` | tools/dns_cardinality_report.py:527-536 | in any order and for every interval a sweeping run holds no more than one that never sweeps, and no parent's peak is higher |
| `DnsSample.RunSamples` | tools/dns_cardinality_report.py:522-525 | the reported peak time and sample are those of the first record at which the distinct count reached its maximum: the newest time by then, and the at most three names held longest, in the order in which they came in |
| `DnsSweep.FreeingHarmlessIff` | tools/dns_cardinality_report.py:528-536 | freeing a window changes what the next record leaves iff that record is within a window of the parent's newest time |
| `DnsSweep.SweepShowsOutOfOrder` | tools/dns_cardinality_report.py:528-536 | a log of three lines under a ten-second window, out of order, whose peak depends on the sweep interval |
| `WindowAgreement.WindowsAgreeIff` | tools/dns_cardinality_report.py:508-518 | the streaming window and the predictor's window agree after every record iff nothing evicted comes back within reach |
| `WindowAgreement.PeakAgainstVerdict` | eval/adversarial/evasion_axes.py:370-401 | on any record order a peak at or above the threshold means the predictor fires; with no comeback also conversely |
| `WindowAgreement.ReportAgainstVerdict` | tools/dns_cardinality_report.py:448-525 | the same for the analyzer's reported peaks over a whole log of interleaved parents, until the first sweep |
| `WindowAgreement.ReportIsDetection` | tools/dns_cardinality_report.py:448-536 | on any log, in any order and for every sweep interval, a reported peak at or above the threshold means the predictor fires |
| `WindowAgreement.SweptLogsAgree` | tools/dns_cardinality_report.py:448-536 | for every sweep interval the analyzer reaches the threshold iff the predictor fires, on any log where nothing evicted comes back and no line reaches back |
| `WindowAgreement.OrderedLogsAgree` | tools/dns_cardinality_report.py:448-536 | on a time-ordered log the analyzer reaches the threshold iff the predictor fires, for every sweep interval |
| `WindowAgreement.ComebackSplitsThem` | tools/dns_cardinality_report.py:508-518 | three records under a ten-second window on which the analyzer holds two and the predictor sees three |
| `Ratchet.UpdateFields` | eval/adversarial/evasion_cost.py:483-499 | every measured field becomes the measurement unless that is worse and lowering is not allowed; exactly the worsened ones are logged or refused, in any order of fields |
| `Ratchet.DropLost` | eval/adversarial/evasion_cost.py:500-506 | fields no longer measured are logged and deleted, or refused and kept |
| `Ratchet.UpdateSet` | eval/adversarial/evasion_cost.py:477-523 | one rule-set's record afterwards: fields, frontier, log, and a fingerprint that moves only when nothing about this rule-set was refused |
| `Ratchet.UpdateMeasured` | eval/adversarial/evasion_cost.py:477-523 | every measured rule-set is updated on its own, and no other is touched |
| `Ratchet.SettleGone` | eval/adversarial/evasion_cost.py:524-532 | a floor whose rule-set is gone is removed and recorded, or refused and kept; a stateful one is kept silently |
| `Ratchet.UpdateFloor` | eval/adversarial/evasion_cost.py:462-533 | the whole new floor, the exact set of refusals, and: nothing is refused iff lowering is allowed with a reason or nothing would be lowered |
| `Ratchet.RefusalsMeanRefused` | eval/adversarial/evasion_cost.py:492-532 | the refusal list is empty iff the update is an accepted one |
| `RatchetLaws.WorsenedIff` | eval/adversarial/evasion_cost.py:94-100 | a recorded field counts as worsened iff the measured value is below it where more is better, above it where less is: unlimited is above every number and flag, numbers compare by size, false is below true |
| `RatchetLaws.MeasuresAre` | eval/adversarial/evasion_cost.py:222-235 | which value of the row each field name stands for, and which way it is better |
| `RatchetLaws.StrictFieldLaw` | eval/adversarial/evasion_cost.py:485-499 | under a strict update a recorded field keeps its value and is refused iff the measurement gives ground; otherwise it takes the measurement |
| `RatchetLaws.ImmunityHolds` | eval/adversarial/evasion_cost.py:94-100 | under a strict update an immune key floor is kept and refused for every number and flag measured, and a numeric one becomes immune |
| `RatchetLaws.ForgeryHolds` | eval/adversarial/evasion_cost.py:262-267 | under a strict update a forgery floor that is false is kept, and refused when forgery is measured to evade |
| `RatchetLaws.OpenFindingLaw` | eval/adversarial/evasion_cost.py:483-499 | unless it was refused, a measured field carries the open finding of its rule-set iff it is one of the three table fields |
| `RatchetLaws.LogTells` | eval/adversarial/evasion_cost.py:491-519 | after an update allowed to lower, the new log entries tell every move toward the attacker once and nothing else, with old value, new value, date and reason |
| `RatchetLaws.RemovalsTell` | eval/adversarial/evasion_cost.py:524-532 | every rule-set an update removes is recorded once, with the date and the reason, and only such rule-sets are |
| `Ratchet.Commit` | eval/adversarial/evasion_cost.py:648-662 | lowering without a reason, or any refusal, leaves the file as it was; otherwise it becomes the updated floor |
| `FloorGuard.Violations` | tools/check_floor_lowering.py:28-46 | the guard's list is exactly the moves toward the attacker common to both floors on rule-sets whose log has not grown |
| `FloorGuard.GuardFlagsIff` | tools/check_floor_lowering.py:28-41 | a field is flagged iff both floors record it, its new value gives ground in the recorded direction, and the log of its rule-set is no longer |
| `FloorGuard.GuardFlagsFrontierIff` | tools/check_floor_lowering.py:42-45 | a frontier is flagged iff both floors record a non-empty one, some new point undercuts every old one in some kind, and the log is no longer |
| `FloorGuard.UpdateGuards` | eval/adversarial/evasion_cost.py:483-519 | after an accepted update of one rule-set the log has grown or nothing was lost or got worse, in the direction its name settles |
| `FloorGuard.HistoryGuards` | eval/adversarial/evasion_cost.py:462-533 | the same between the first and last floor of any history of commits |
| `FloorGuard.ViolationMeansRemoved` | tools/check_floor_lowering.py:28-46 | ratchet and guard agree rule-set by rule-set: whatever the guard flags after any history was removed on the way |
| `FloorGuard.GuardCleanIff` | tools/check_floor_lowering.py:28-46 | the guard is clean after a history iff every rule-set removed on the way and recorded at both ends has a longer log or moved nothing |
| `FloorGuard.HistoryPassesGuard` | tools/check_floor_lowering.py:28-46 | in particular it finds nothing after a history that removes no rule-set |
| `FloorGuard.StrictHistoryNeverWorse` | eval/adversarial/evasion_cost.py:464-465 | without permission to lower no rule-set or field is ever forgotten and none is ever worse, over any history |
| `FloorGuard.RemovalEscapesTheLog` | tools/check_floor_lowering.py:35-41 | a history of accepted commits that the guard flags, by removing a rule-set and measuring it afresh |
| `FloorCheck.CheckFields` | eval/adversarial/evasion_cost.py:426-445 | the gate's field failures and warnings, exactly: lost axes, worse values, tolerated findings, unratified rows |
| `FloorCheck.CheckRow` | eval/adversarial/evasion_cost.py:409-455 | one measured rule-set's failures, exactly, with the no-floor and no-fields paths |
| `FloorCheck.CheckFloors` | eval/adversarial/evasion_cost.py:398-456 | the floor section's failure list, exactly |
| `FloorCheck.GateOnField` | eval/adversarial/evasion_cost.py:426-445 | for each field name: lost, cheaper, warned or tolerated, decided by the values, the ratification and the open findings alone |
| `FloorCheck.GateMatchesWorsened` | eval/adversarial/evasion_cost.py:426-445 | every field the ratchet would call worsened is a failure, a warning or tolerated, and no other is |
| `FloorCheck.GateAgreesWithRatchet` | eval/adversarial/evasion_cost.py:409-455 | two judges agree: a strict update would lower nothing on a row iff the gate fails it for nothing but its fingerprint or an unmeasured frontier, warns of nothing and tolerates nothing |
| `FloorCheck.GateOnRest` | eval/adversarial/evasion_cost.py:412-455 | when a row fails for a missing floor, an empty one, a changed fingerprint or its frontier |
| `FloorCheck.GateSeesGone` | eval/adversarial/evasion_cost.py:399-408 | on a whole run the rule-sets an update would drop are those the gate reports as no longer measured, stateful ones aside, which it reports iff they are waived |
| `FloorCheck.UpdatedRowIsClean` | eval/adversarial/evasion_cost.py:409-455 | re-checking what was just recorded fails on nothing but a frontier that was not measured |
| `FloorCheck.UpdateThenCheckIff` | eval/adversarial/evasion_cost.py:398-456 | after an accepted update the floor section is clean iff every recorded frontier was measured again and no unmeasured rule-set the update keeps is waived (or the run is partial) |
| `SigmaCondition.RewritePreservesMeaning` | services/ws4-detection/engine.py:1129-1163 | for every token list, malformed ones included, the rewritten condition parses iff the original does, and evaluates as the original with each list selection read as the OR of its items |
| `SigmaCondition.GroupParses` | services/ws4-detection/engine.py:1129-1134 | a chain of names joined by `or` before a closing parenthesis parses to their disjunction |
| `SigmaMeaning.WrittenMeans` | services/ws4-detection/engine.py:1129-1163 | every and/or/not expression, written with as few parentheses as precedence allows, evaluates to its meaning |
| `SigmaText.SubstituteTokens` | tools/import_sigma_rules.py:183-205 | tokenizing the substituted text with the engine's pattern gives the substituted source tokens: nothing is split, merged or substituted twice |
| `SigmaText.JoinTokens` | tools/import_sigma_rules.py:339 | the written group of local names tokenizes to those names joined by `or` |
| `SigmaMeaning.EngineTextMeans` | services/ws4-detection/engine.py:146-146 | the same from characters: an expression over local names, written as text, means to the engine what it says |
| `SigmaMeaning.SourceReadsText` | tools/import_sigma_rules.py:202-205 | the words an author wrote are read back from the text, whatever characters their names hold |
| `SigmaMeaning.RunIsToken` | services/ws4-detection/engine.py:146-146 | a run of letters, digits, underscores and dots is one token unless a keyword and a dot begin it |
| `SigmaMeaning.DottedRun` | services/ws4-detection/engine.py:146-146 | a keyword ends at a dot and the rest of the run is read again |
| `SigmaImport.SanitizedIsLocal` | tools/import_sigma_rules.py:24-32 | every name the importer makes, numbered or not, is one the engine's tokenizer keeps whole, unless it is a keyword |
| `SigmaImport.CollapseJoins` | tools/import_sigma_rules.py:24-31 | plain characters stay, lower-cased, and each run of others becomes one underscore |
| `SigmaImport.StripUnwraps` | tools/import_sigma_rules.py:31-32 | underscores at both ends are dropped, inner ones stay |
| `SigmaImport.DecimalReadsBack` | tools/import_sigma_rules.py:327-332 | the number appended to a name reads back as the number |
| `SigmaImport.StoreAll` | tools/import_sigma_rules.py:327-332 | the inner loop stores one selection's items, numbering taken names, and returns the names they got |
| `SigmaImport.ImportSelections` | tools/import_sigma_rules.py:303-344 | the loop refuses iff a name is reserved or nothing was stored, and otherwise returns the built dictionary and groups |
| `SigmaImport.ItemsAreStored` | tools/import_sigma_rules.py:327-341 | when the numbered names are distinct, a mapping is stored under its sanitized name with its fields, and each item of a list under that name and its own number with its own fields |
| `SigmaImport.StoreStepKeeps` | tools/import_sigma_rules.py:328-332 | storing one item keeps every item's fields iff they were kept before and it does not find both its own name and the numbered one taken, by other fields |
| `SigmaImport.ImportKeepsIff` | tools/import_sigma_rules.py:308-341 | the import keeps every item's fields iff no item meets that on its turn |
| `SigmaImport.DistinctNamesKeep` | tools/import_sigma_rules.py:328-332 | pairwise distinct sanitized and numbered names are stored as they are, and none overwrites another |
| `SigmaImport.NumberingCanClash` | tools/import_sigma_rules.py:329-331 | three selections on which the numbered name overwrites an earlier one |
| `SigmaImport.BuildLocal` | tools/import_sigma_rules.py:308-341 | every stored name and group member is a plain token and no keyword has a group |
| `SigmaImport.GroupMatches` | tools/import_sigma_rules.py:335-341 | a source name's group matches an event iff one of that selection's items does |
| `SigmaImport.ImportPreservesMeaning` | tools/import_sigma_rules.py:303-358 | end to end, from characters to verdict, for every event: the engine evaluates the imported text as the source condition over the groups, and unless an item overwrites another each group matches iff its selection does |
| `SigmaMeaning.ImportedMeans` | tools/import_sigma_rules.py:303-358 | for every expression over the selections and every event, the imported text evaluates to what the expression says of the source selections themselves, lists as the OR of their items |
| `Reachability.Worklist` | tools/generate_scorecard.py:298-306 | terminates for every pop order with exactly the names reachable from the entry block, a set closed under function bodies |
| `Reachability.ReachesIsLeast` | tools/generate_scorecard.py:282-285 | that set is contained in every closed set |
| `Reachability.ReachesIffChain` | tools/generate_scorecard.py:293-306 | a name is reached iff a chain of mentions leads to it from some entry block; every name of every entry block is |
| `Reachability.CalledFromEntry` | tools/generate_scorecard.py:281-316 | the result is the reachable names, plus the test methods iff a reachable scope runs `unittest.main` |
| `Polling.WaitForAnchor` | tools/live_companion_e2e.py:134-150 | found iff a poll in time shows the anchor, at the first such poll; otherwise time ran out; it terminates |
| `Polling.RunMeansStable` | tools/live_companion_e2e.py:170-177 | the run counter is at least n iff the last n polls were all successful, non-empty and of one signature |
| `Polling.AgreesIffSame` | tools/live_companion_e2e.py:129-131 | two non-empty polls agree iff their alert ids are the same, as often and in any order, when all alerts carry one; iff their rule ids are when none does |
| `Polling.SignatureCounts` | tools/live_companion_e2e.py:129-131 | in mixed polls the signature counts, for each id, the alerts that show it as their own or, without one, as their rule |
| `Polling.StableIffSameIds` | tools/live_companion_e2e.py:170-177 | a run is stable iff its last n polls all show the same alert ids, and some |
| `Polling.LatestIs` | tools/live_companion_e2e.py:165-180 | what is kept when time runs out is the newest successful poll, or nothing |
| `Polling.Settle` | tools/live_companion_e2e.py:153-180 | settled iff such a run of the wanted length ends at the last poll, which is the first such poll; otherwise time ran out; the alerts are the newest non-empty ones |
| `Polling.PollCount` | tools/live_companion_e2e.py:178-180 | all polls but the last fit in the limit, so their number is bounded |
| `Polling.LimitPasses` | tools/live_companion_e2e.py:148-150 | with a clock that sleeping advances, the limit passes after finitely many polls |
| `Polling.Evaluate` | tools/live_companion_e2e.py:183-209 | no failure is added iff the anchor was seen in time, the alerts then settled in time, and no forbidden rule is in the settled set; once settled, the alerts returned are those of the settling poll, and not empty |
| `Polling.AnchorKeptIff` | tools/live_companion_e2e.py:129-131 | two polls of a settled run both show the anchor or neither does, when one alert id never stands for two rules |
| `Polling.AnchorVanishedIff` | tools/live_companion_e2e.py:153-175 | the final set lacks the anchor iff no poll of the settled run shows it |
| `Polling.AnchorMayVanish` | tools/live_companion_e2e.py:160-163 | a clean run whose final alert set no longer holds the anchor |
| `Brackets.CloseOf` | eval/adversarial/adversary_c.py:94-106 | where the bracket first closes, or that it never does |
| `Brackets.DepthCounts` | eval/adversarial/adversary_c.py:94-102 | the depth is the number of opening brackets less the number of closing ones |
| `Brackets.BalancedSpans` | eval/adversarial/adversary_c.py:90-108 | spans are balanced with positive depth on proper prefixes, disjoint and increasing, no opening bracket before the stop is outside them, and the scan stops at the end or at the first top-level bracket that never closes |

## Left out

- The process, network and container drivers, and the engine's own window counter, bus and correlator.
- Log readers, timestamp patterns, YAML, JSON and TOML parsing, rendering, argument parsing, hashing; fingerprints are opaque values.
- The measured halves of the searches (the real pipeline), and the loss, clock, respelling and forgery searches.
- Jitter.JitterAlarmIff: bursts that are not in time order, which would give a negative period, are outside.
- Coverage waivers, the findings register and the documentation block of the gate; informational lines.
- Floating point: quotients under a ceiling are exact, the coefficient of variation is compared squared over exact reals, and times, clocks and limits are exact.
- Account folding (`strip` and `casefold`) is a parameter; group keys and distinct values are strings, so the text form of other values is outside.
- Events are flat maps from dotted paths; the walk through nested dictionaries is not modelled. Events are taken to carry a time.
- The key setters are parameters over values, with what the theorems need of them stated as `Moves` and `Ignores`; copying payloads and writing through references are not modelled.
- Per-parent totals over the whole file (names, clients, first and last times and their caps); name normalisation and the parent-domain rule are inputs, as is the rounding of a timestamp to milliseconds.
- The frontier is a set of points: its sorted order is not modelled, and a floor point with fewer kinds than the measured one, an index error in the source, counts as not dominating.
- Loops over sorted keys are modelled over an arbitrary order; failure and refusal lists are specified as sets of entries, not their order or wording.
- Floor records edited by hand: entries without a value or a direction, which the guard skips or defaults.
- Sigma value translation (modifiers, suffixes, dropped fields), the refusal of a selection with no fields, the default condition when none is given, the unknown-reference check, and the rest of the imported rule.
- SigmaImport.ImportPreservesMeaning: asks that every word of the condition is a keyword, an imported selection or a plain local name; an unmapped word with other characters is split differently by the two tokenizers.
- Characters outside ASCII: letters, case folding and white space are the ASCII ones.
- A condition nested so deeply that the engine's recursion limit makes it fail closed.
- The syntax tree walk of the scorecard: the names in each function and scope are inputs.
- Polling signatures are multisets of identities instead of sorted tuples; identities are strings, and the printed elapsed times are outside.
