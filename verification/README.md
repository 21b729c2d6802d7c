# AMSEL core in Dafny

AMSEL emulates the observable behaviour of a compromised host. A continuous-time
Markov chain (CTMC) moves between phases. Each phase switches state
behaviours on and off, and modulates the timing of traffic generators. The
generators draw addresses, packet sizes and directions from small configurable
samplers. Host-symptom injectors walk directories and XOR files, or run shell
commands.

This project models that core as pure functions over immutable datatypes:

- **Configuration.** The line rule of `Util.readConfigFile`, the
  required/optional key checks, comma splitting and octet parsing (`Config`).
  The Java library behaviour these rely on lives in `JavaText`: `parseInt`,
  `parseByte`, `trim`, `parseBoolean`, the `split` regexes, 32-bit
  wrap-around and `(int)` casts.
- **Chain derivation and sampling.** The derivation of the embedded jump chain
  and the intensities from rates or from explicit probabilities (`Ctmc`), and
  cumulative-sum inversion (`Sampling`).
- **Phase scheduler.** `MarkovModulatedBehaviour` as a step function that emits
  an event trace of `Stop i`, `Behave i j` and `Start j` (`PhaseScheduler`).
- **Modulated timing source.** The loop step and the clamp of
  `MarkovModulatedProcess` (`TimingSource`).
- **Samplers.** The address pickers (`PickAddress`, `UniformPick`, `RandomIp`,
  `Dga`), the bounded packet-size draw (`PacketSize`) and the IN/OUT draw
  (`Direction`).
- **Host-symptom injectors.**
  - The ransomware work queue over an abstract file tree, and its XOR block
    transform (`Ransomware`).
  - Command selection and argv construction (`Commands`).

Everything random, timed or external is a parameter:

| Source of input | Parameter |
|---|---|
| uniform draws | `u` |
| the logarithm `log(1 - u)` | `logDraw` |
| `nextInt` results | `draw`, taken modulo the bound |
| random bytes | `rand` |
| the clock | `now`, `nowSeed`, `nowCheck` |
| DNS answers | `resolves` |
| class loading | `loads` |
| configuration files | `files` |
| command-line flags | `flags` |
| the file tree | `fs` |
| the path matcher | `matches` |
| the `os.name` property | `osName` |

A failure is `Fatal` when the activity that meets it ends there. Configuration
failures end the program: the code calls `System.exit(-1)`, or an exception
reaches the top level. So does a negative sleep in the chain threads. A sampler
that throws ends only the traffic generator's thread that asked it for a
sample, because the generators catch only `IOException`
(`TCPTrafficGenerator.run`, `UDPTrafficGenerator.run`). This applies to
`PacketSize.GetSample` (a non-positive limit), `Dga.GetSample` (`nextInt(0)`),
`PickAddress.RandomAddress` (`nextInt(0)`), `PickAddress.Attempts` (a dotted
address that does not parse) and `UniformPick.GetSample` (an empty table). A sampler that calls `System.exit`, such as the
unresolvable fallback in `PickAddress.Fallback`, still ends the program.
Doubles are modelled as reals.

Where the description of the system and the code differ, the model follows the
code. In rate mode, the CTMC's diagonal is minus the full row sum, which
includes a configured `rate_i,i`, not just the off-diagonal rates. Dga1Address
compares `requiredFlag` untrimmed, unlike the other classes.

## Model

| member | source | states |
|---|---|---|
| Sampling.DiscreteRandom | src/org/hpe/labs/AmselRelease/Util.java:92-106 | the result is the inversion index: the first i below len−1 whose prefix sum reaches u, else len−1; it is always below the length of a non-empty vector |
| Sampling.DiscreteRandomLoop | src/org/hpe/labs/AmselRelease/Util.java:92-106 | the while loop with its break computes that same inversion index |
| Sampling.InversionIndexUnique | src/org/hpe/labs/AmselRelease/Util.java:92-106 | the inversion index is unique, so the result is a function of u and the vector alone |
| Sampling.DrawFallsInBucket | src/org/hpe/labs/AmselRelease/Util.java:97-103 | for 0 < u, the prefix sum before the chosen index is below u, and the sum up to and including it reaches u |
| Sampling.ChosenHasPositiveProbability | src/org/hpe/labs/AmselRelease/Util.java:92-106 | for a stochastic vector and 0 < u < 1, the chosen index has positive probability |
| Sampling.CertainFirstState | src/org/hpe/labs/AmselRelease/Util.java:92-106 | a vector starting with 1 yields index 0 for every u < 1 |
| Sampling.ExponentialRandom | src/org/hpe/labs/AmselRelease/Util.java:108-110 | a sojourn drawn with a non-positive intensity (as the chain stores them) is never negative, one with a positive intensity never positive, and a draw with log(1−u) = 0 gives 0 |
| Config.ClassifyLine | src/org/hpe/labs/AmselRelease/Util.java:67-72 | a line is skipped iff it is blank or starts with `#`; it is malformed iff neither and it has no `=`; a key never contains `=` |
| Config.EntrySplitsAtFirstEquals | src/org/hpe/labs/AmselRelease/Util.java:71-72 | an entry splits at the first `=`, with whitespace around it removed, and the value keeps any later `=` |
| Config.Readable | src/org/hpe/labs/AmselRelease/Util.java:65-84 | the lines read before the first malformed line, which ends reading |
| Config.LoadSnoc | src/org/hpe/labs/AmselRelease/Util.java:65-74 | reading one more line applies it to the table, or changes nothing if it is malformed |
| Config.LoadStopsAtMalformed | src/org/hpe/labs/AmselRelease/Util.java:71-84 | the table is that of the lines before the first malformed line |
| Config.LoadLastValue | src/org/hpe/labs/AmselRelease/Util.java:65-74 | a key holds the value of its last entry, or its earlier value when no line sets it |
| Config.ReadConfigLastWins | src/org/hpe/labs/AmselRelease/Util.java:58-86 | readConfigFile maps a key to the value of its last entry among the readable lines, and to nothing if there is none |
| Config.SkippedLineHasNoEffect | src/org/hpe/labs/AmselRelease/Util.java:67-69 | inserting a blank or comment line anywhere leaves the table unchanged |
| Config.CheckConfigRequired | src/org/hpe/labs/AmselRelease/Util.java:114-125 | true iff every listed name is a key |
| Config.CheckConfigOptional | src/org/hpe/labs/AmselRelease/Util.java:135-148 | the present-set holds exactly the listed names that are keys |
| Config.ParseEach | src/org/hpe/labs/AmselRelease/Util.java:154-172 | parseIntArray/parseDoubleArray succeed iff every piece parses, and give one value per piece, in order |
| Config.ReadOctets | src/org/hpe/labs/AmselRelease/Util.java:184-192 | one byte per dot-separated field, congruent mod 256 to the parsed integer; it fails iff some field does not parse |
| Config.ReadOctetsOfDottedDecimal | src/org/hpe/labs/AmselRelease/Util.java:184-192 | reading the dotted-decimal text of any non-empty byte sequence gives that sequence back |
| Config.NameOrNull | src/org/hpe/labs/AmselRelease/MarkovModulatedBehaviour.java:92 | a missing key contributes the text "null" to a file name |
| JavaText.SplitCommaListOfJoin | src/org/hpe/labs/AmselRelease/Util.java:150-152 | splitting fields joined by ", " on commas with surrounding whitespace gives the fields back |
| JavaText.SplitCharJoin | src/org/hpe/labs/AmselRelease/Util.java:185 | splitting on a separator undoes joining with it when no field contains it |
| JavaText.ParseIntOfIntToString | src/org/hpe/labs/AmselRelease/UniformRandomPacketSize.java:84 | Integer.parseInt reads back the decimal text of every 32-bit int |
| JavaText.Wrap32 | src/org/hpe/labs/AmselRelease/UniformRandomPacketSize.java:67 | the 32-bit result is congruent to the exact value mod 2^32, and equal to it when it fits |
| JavaText.LowByte | src/org/hpe/labs/AmselRelease/Util.java:188 | the (byte) cast keeps the value mod 256 |
| JavaText.TruncateToInt32 | src/org/hpe/labs/AmselRelease/MarkovModulatedProcess.java:113 | the (int) cast rounds toward zero, within one of the value inside the int range, saturating outside it; it is negative exactly when the value is −1 or less |
| JavaText.TruncateToInt64 | src/org/hpe/labs/AmselRelease/MarkovModulatedBehaviour.java:74 | the (long) cast rounds toward zero, saturating at the long range; it is negative, so that sleep throws, exactly when the value is −1 or less |
| JavaText.Find | src/org/hpe/labs/AmselRelease/Util.java:71 | the position of the first occurrence of a character, or the length when there is none |
| Ctmc.ReadMatrix | src/org/hpe/labs/AmselRelease/CTMC.java:121-130 | an n×n matrix read from 1-indexed keys, each entry the parsed value or 0 when the key is missing |
| Ctmc.MatrixEntry | src/org/hpe/labs/AmselRelease/CTMC.java:123-128 | a missing `rate_i,j` (or `p_i,j`) is 0 |
| Ctmc.RateRow | src/org/hpe/labs/AmselRelease/CTMC.java:135-155 | a row's derivation fails iff its full sum l is 0, and then produces one embedded row and an intensity |
| Ctmc.FromRates | src/org/hpe/labs/AmselRelease/CTMC.java:132-156 | rate mode succeeds iff no row sums to 0; row i of the result is the derivation of rate row i |
| Ctmc.GeneratorRowSum | src/org/hpe/labs/AmselRelease/CTMC.java:140-143 | with the diagonal replaced by −l, the row sums to minus the given self-rate: to 0 iff no self-rate is given |
| Ctmc.RateRowEntries | src/org/hpe/labs/AmselRelease/CTMC.java:146-155 | the embedded row has a zero diagonal and off-diagonal entries rate_ij / l; the intensity is −1000 / l |
| Ctmc.RateRowSum | src/org/hpe/labs/AmselRelease/CTMC.java:146-152 | the embedded row sums to (l − rate_ii) / l |
| Ctmc.RateRowStochastic | src/org/hpe/labs/AmselRelease/CTMC.java:146-155 | with non-negative rates, no self-rate and l > 0, the embedded row lies in [0,1], sums to 1, and the intensity is negative |
| Ctmc.RateRowExample | src/org/hpe/labs/AmselRelease/CTMC.java:146-155 | with rates [0, 2] row 0 becomes [0, 1] with intensity −500 |
| Ctmc.FromProbabilities | src/org/hpe/labs/AmselRelease/CTMC.java:169-205 | explicit mode succeeds exactly when `intensities` is present with n pieces that all parse as doubles and every `p_i,j` that is present parses and lies in [0,1]; a missing `intensities` or a length other than n is fatal; the matrix is the `p_i,j` entries as read; intensities are −seconds×1000 |
| Ctmc.SecondsToIntensities | src/org/hpe/labs/AmselRelease/CTMC.java:183-185 | each intensity is minus the parsed value times 1000 |
| Ctmc.Configure | src/org/hpe/labs/AmselRelease/CTMC.java:49-75 | `numberOfStates` and `initialVector` are required; with both present and a non-negative count, configuring succeeds iff the initial vector and the jump matrix read; the first n values form the initial vector; explicit mode iff the format is exactly `ExplicitDTMC`, rate mode otherwise |
| Ctmc.InitialVector | src/org/hpe/labs/AmselRelease/CTMC.java:59-64 | succeeds exactly when there are at least n comma-separated pieces and the first n parse as doubles, so fewer pieces is fatal; entry i is piece i parsed |
| Ctmc.ConfigureRates | src/org/hpe/labs/AmselRelease/CTMC.java:121-156 | in rate mode the configured jump chain has a zero diagonal and entries rate_ij over the row sum |
| Ctmc.ConfigureExplicit | src/org/hpe/labs/AmselRelease/CTMC.java:176-202 | in explicit mode each probability is in [0,1] and 0 when missing, and the diagonal is kept as given |
| Ctmc.ProbabilityEntry | src/org/hpe/labs/AmselRelease/CTMC.java:176-202 | for the matrix and intensities explicit mode reads: each probability is in [0,1] and 0 when its key is missing, and intensity i is −1000 times the i-th mean sojourn time |
| Ctmc.Init | src/org/hpe/labs/AmselRelease/CTMC.java:90-93 | the initial state is the inversion index over the initial vector, with a sojourn drawn from its intensity |
| Ctmc.NextState | src/org/hpe/labs/AmselRelease/CTMC.java:85-88 | the next state is the inversion index over the current row, below n, with a sojourn drawn from its intensity |
| Ctmc.RateModeLeavesState | src/org/hpe/labs/AmselRelease/CTMC.java:146-152 | in rate mode, with no self-rate, a jump always leaves the current state |
| Ctmc.SetInitialVector | src/org/hpe/labs/AmselRelease/CTMC.java:207-213 | setting the initial vector and reading it back gives the same values; nothing else changes |
| Ctmc.InitAfterSetInitialVector | src/org/hpe/labs/AmselRelease/CTMC.java:90-93 | after setInitialVector(v), init picks the inversion index over v |
| Ctmc.InitCertainFirstState | src/org/hpe/labs/AmselRelease/CTMC.java:90-93 | an initial vector starting with 1 starts in state 0 |
| PhaseScheduler.TransitionSlot | src/org/hpe/labs/AmselRelease/MarkovModulatedBehaviour.java:121-131 | a transition slot is filled iff i ≠ j and its 1-indexed key is present |
| PhaseScheduler.Configure | src/org/hpe/labs/AmselRelease/MarkovModulatedBehaviour.java:87-152 | the chain comes from the file named by `ctmc`; `StateBehaviourConfig0` is fatal |
| PhaseScheduler.Behaviours | src/org/hpe/labs/AmselRelease/MarkovModulatedBehaviour.java:94-148 | succeeds exactly when `StateBehaviourConfig0` is absent, every `StateBehaviour<k>` for k in 1..n loads, and every transition slot that is filled loads; slot k−1 holds `StateBehaviour<k>`, and the transition slots are as above |
| PhaseScheduler.StartBehaviour | src/org/hpe/labs/AmselRelease/MarkovModulatedBehaviour.java:154-167 | fails exactly when the chain has no states; otherwise init gives the state, the trace is a single `Start(s0)` with no stop before it, and the program exits (after that start) exactly when the first sojourn is −1 ms or less |
| PhaseScheduler.Step | src/org/hpe/labs/AmselRelease/MarkovModulatedBehaviour.java:58-72 | one pass first stops the running state i and last starts the chain's next state j, a state of the chain; a `Behave(i, j)` sits between them iff the (i, j) slot is filled (StepIsBracketed shows the trace keeps one behaviour running) |
| PhaseScheduler.SelfJumpHasNoBehave | src/org/hpe/labs/AmselRelease/MarkovModulatedBehaviour.java:121-131 | a self-jump emits exactly `Stop(i), Start(i)` |
| PhaseScheduler.EmptySlotHasNoBehave | src/org/hpe/labs/AmselRelease/MarkovModulatedBehaviour.java:61-71 | a jump into an empty slot of the configured table (a self-jump, or a pair with no transition key) emits only the stop of the old state and the start of the new one, no behave event |
| PhaseScheduler.Run | src/org/hpe/labs/AmselRelease/MarkovModulatedBehaviour.java:57-84 | the state after the passes is a state of the chain; a run that exits the program ends on a pass whose sojourn is −1 ms or less, right after that pass started the new state; a run that ends normally after a pass ends on a sojourn above −1 ms |
| PhaseScheduler.ReplayAppend | src/org/hpe/labs/AmselRelease/MarkovModulatedBehaviour.java:57-84 | replaying a trace in two parts is the same as replaying it whole |
| PhaseScheduler.StepIsBracketed | src/org/hpe/labs/AmselRelease/MarkovModulatedBehaviour.java:59-72 | each step stops exactly the running state and leaves the new one running |
| PhaseScheduler.RunIsBracketed | src/org/hpe/labs/AmselRelease/MarkovModulatedBehaviour.java:57-84 | over any number of passes, every stop is of the state most recently started |
| PhaseScheduler.StartThenRunIsBracketed | src/org/hpe/labs/AmselRelease/MarkovModulatedBehaviour.java:154-167 | from startBehaviour on, the whole trace is well bracketed |
| PhaseScheduler.FirstExit | src/org/hpe/labs/AmselRelease/MarkovModulatedBehaviour.java:58 | the first pass at which exit is requested |
| PhaseScheduler.CountStopsAppend | src/org/hpe/labs/AmselRelease/MarkovModulatedBehaviour.java:57-84 | stops add up over concatenated traces |
| PhaseScheduler.Trajectory | src/org/hpe/labs/AmselRelease/MarkovModulatedBehaviour.java:58-80 | one cursor per pass before the first exit request; the first jumps from the start cursor and each later one from the cursor before it, by nextState |
| PhaseScheduler.FirstNegative | src/org/hpe/labs/AmselRelease/MarkovModulatedBehaviour.java:73-80 | the first pass whose sojourn is −1 ms or less; every pass before it is above −1 ms |
| PhaseScheduler.RunFollowsTrajectory | src/org/hpe/labs/AmselRelease/MarkovModulatedBehaviour.java:57-84 | the loop exits the program exactly when some pass before the first exit request draws a sojourn of −1 ms or less, and then at the first such pass; otherwise it ends on the last cursor of the chain's path |
| PhaseScheduler.RunStopsAtExit | src/org/hpe/labs/AmselRelease/MarkovModulatedBehaviour.java:58-83 | the run performs one pass per tick before the first exit request, exactly that many unless a negative sleep exits the program first, and ignores every later tick |
| PhaseScheduler.NonPositiveIntensitiesNeverExit | src/org/hpe/labs/AmselRelease/MarkovModulatedBehaviour.java:73-80 | a chain with no positive intensity never hands sleep a negative time: startBehaviour succeeds on a chain with states, and the loop never exits the program |
| PhaseScheduler.StopBehaviour | src/org/hpe/labs/AmselRelease/MarkovModulatedBehaviour.java:169-176 | stops every state behaviour, in index order 0..n−1, whichever state is running |
| TimingSource.Configure | src/org/hpe/labs/AmselRelease/MarkovModulatedProcess.java:50-85 | succeeds exactly when the `ctmc` file configures a chain and the sub-processes are then read and the chain initialised, and in that case it is the result of reading them; a missing `process<i>`/`config<i>` pair for i in 0..n−1 is fatal |
| TimingSource.SubProcesses | src/org/hpe/labs/AmselRelease/MarkovModulatedProcess.java:56-80 | succeeds exactly when the chain initialises and, for every i in 0..n−1, `process<i>` and `config<i>` are present and `process<i>` loads; sub-process i is the class named by `process<i>`, 0-indexed |
| TimingSource.RunBegin | src/org/hpe/labs/AmselRelease/MarkovModulatedProcess.java:89-102 | run starts by moving the sampler to the chain's state, changing nothing else; it fails (sleep throws, the program exits) iff the initial sample is −1 ms or less |
| TimingSource.LoopStep | src/org/hpe/labs/AmselRelease/MarkovModulatedProcess.java:106-132 | one pass advances the chain once, follows it with `state`, and sets endsleep = now + (int) sample; it fails (sleep throws, the program exits) iff that sample is −1 ms or less |
| TimingSource.LoopStepSleepBounds | src/org/hpe/labs/AmselRelease/MarkovModulatedProcess.java:111-122 | for a non-negative sojourn the pass goes on, and endsleep lies between now and now + sample |
| TimingSource.Clamp | src/org/hpe/labs/AmselRelease/MarkovModulatedProcess.java:150-155 | a draw that fits before endsleep is returned as is; otherwise max(0, endsleep − now) |
| TimingSource.ClampBounds | src/org/hpe/labs/AmselRelease/MarkovModulatedProcess.java:150-155 | a non-negative draw comes back neither negative nor longer than the draw, and it ends before endsleep or is 0 |
| TimingSource.ClampWithMovingClock | src/org/hpe/labs/AmselRelease/MarkovModulatedProcess.java:150-155 | the bounds hold when the clock moves on between its two readings |
| TimingSource.ClampIdempotent | src/org/hpe/labs/AmselRelease/MarkovModulatedProcess.java:150-155 | clamping twice at the same time is clamping once |
| TimingSource.GetSample | src/org/hpe/labs/AmselRelease/MarkovModulatedProcess.java:140-158 | the sample is the current state's sub-process draw when it fits before endsleep, else the time left (0 if none); a non-negative draw comes back neither negative nor longer than the draw |
| TimingSource.InitialSojournClampsToZero | src/org/hpe/labs/AmselRelease/MarkovModulatedProcess.java:87-102 | before the first loop step endsleep is 0, so every positive draw comes back as 0, also once run has begun |
| TimingSource.SampleWithinSojourn | src/org/hpe/labs/AmselRelease/MarkovModulatedProcess.java:108-155 | right after a step, a sample never outlasts the new state's sojourn |
| NetAddress.GetByName | src/org/hpe/labs/AmselRelease/PickAddress.java:238 | a name is found iff it resolves; otherwise null, never an escaping exception |
| NetAddress.GetByAddress | src/org/hpe/labs/AmselRelease/RandomIPAddress.java:110 | bytes form an address iff there are 4 or 16 of them |
| NetAddress.GetByDottedText | src/org/hpe/labs/AmselRelease/PickAddress.java:240 | dotted text that does not parse throws past the UnknownHostException handler |
| PickAddress.ReadTable | src/org/hpe/labs/AmselRelease/PickAddress.java:92-109 | succeeds iff every `address<i>`/`port<i>` below numAddresses is present and every port, the fallback's included, is an integer; then numAddresses+1 slots with the fallback in the last |
| PickAddress.ReadRequired | src/org/hpe/labs/AmselRelease/PickAddress.java:89-123 | the required keys; with them present, succeeds iff numAddresses is an integer in [0, 2^31 − 1), the table reads and maxAttempts is an integer; then the table, `random`, `maxAttempts` and `dryRun` as parsed; allIP stays false |
| PickAddress.ConfigureWith | src/org/hpe/labs/AmselRelease/PickAddress.java:116-128 | allIP iff `noReverseLookup` is in the present-set and true; dryRun iff `dryRun` is true or `requiredFlag` is present and missing from the flags |
| PickAddress.Configure | src/org/hpe/labs/AmselRelease/PickAddress.java:87-135 | as written, configure is the required-keys reading: allIP stays false and dryRun is the `dryRun` key alone, whatever the flags |
| PickAddress.ConfigureIntended | src/org/hpe/labs/AmselRelease/PickAddress.java:116-128 | as intended, it succeeds iff the required-keys reading does; allIP iff `noReverseLookup` is present and true; dryRun iff the `dryRun` key or a present `requiredFlag`, trimmed, missing from the flags |
| PickAddress.RequiredFlagIgnored | src/org/hpe/labs/AmselRelease/PickAddress.java:65-68 | as written, configure always equals the required-keys reading: `noReverseLookup` and `requiredFlag` never take effect |
| PickAddress.RequiredFlagCounterexample | src/org/hpe/labs/AmselRelease/PickAddress.java:116-128 | a configuration with a missing required flag is no dry run as written, and a dry run as intended |
| PickAddress.RequiredFlagHonoured | src/org/hpe/labs/AmselRelease/PickAddress.java:123-128 | as intended, a missing required flag forces a dry run; a present one leaves `dryRun` as configured |
| PickAddress.GetAddress | src/org/hpe/labs/AmselRelease/PickAddress.java:230-245 | nothing on a dry run when checked; otherwise a name lookup, or, when allIP is set, a dotted-address lookup that throws iff the text does not parse |
| PickAddress.Fallback | src/org/hpe/labs/AmselRelease/PickAddress.java:208-215 | the fallback is looked up without the dry-run check, with fallbackPort; an unresolved fallback is fatal |
| PickAddress.Misses | src/org/hpe/labs/AmselRelease/PickAddress.java:194-206 | the number of leading attempts that found nothing |
| PickAddress.Attempts | src/org/hpe/labs/AmselRelease/PickAddress.java:194-215 | the first found entry, with its own port; the fallback after all misses; fatal on an escaping exception |
| PickAddress.AttemptsPicksEntry | src/org/hpe/labs/AmselRelease/PickAddress.java:154-219 | whatever the order of tries, an address the attempt loop returns is a table entry that resolves, with its own port |
| PickAddress.SequentialIndex | src/org/hpe/labs/AmselRelease/PickAddress.java:191-204 | the index of pass i, stepping by one and wrapping at numAddresses |
| PickAddress.SequentialIndexIsModulo | src/org/hpe/labs/AmselRelease/PickAddress.java:204 | pass i tries index i mod numAddresses |
| PickAddress.SequentialOrder | src/org/hpe/labs/AmselRelease/PickAddress.java:194-206 | maxAttempts indices, starting at 0 on every call |
| PickAddress.SequentialAddress | src/org/hpe/labs/AmselRelease/PickAddress.java:190-219 | the attempts in round-robin order, then the fallback; a dry run or no attempts gives the fallback; an address returned is always a table entry that resolves, with its own port |
| PickAddress.RandomAddress | src/org/hpe/labs/AmselRelease/PickAddress.java:154-182 | random attempts; with no addresses and an attempt to make, nextInt(0) is fatal; otherwise a dry run or no attempts gives the fallback; an address returned is a table entry that resolves, with its own port |
| PickAddress.RandomOrder | src/org/hpe/labs/AmselRelease/PickAddress.java:158-160 | every attempted index lies in [0, numAddresses) |
| PickAddress.GetSample | src/org/hpe/labs/AmselRelease/PickAddress.java:138-146 | random mode when `random` is set, sequential otherwise; any address returned is a resolving table entry with its port; a dry run or no attempts gives the fallback, except that random mode with no addresses fails |
| PickAddress.SequentialOrderRoundRobin | src/org/hpe/labs/AmselRelease/PickAddress.java:194-206 | attempt i uses index i mod numAddresses |
| PickAddress.SequentialPicksFirstResolvable | src/org/hpe/labs/AmselRelease/PickAddress.java:190-219 | sequential mode returns the first resolvable entry in round-robin order, with its port, or the fallback when none resolves within maxAttempts |
| PickAddress.DryRunGivesFallback | src/org/hpe/labs/AmselRelease/PickAddress.java:230-234 | on a dry run every sample is the fallback |
| PickAddress.NoAttemptsGivesFallback | src/org/hpe/labs/AmselRelease/PickAddress.java:158-178 | maxAttempts ≤ 0 gives the fallback |
| PickAddress.UnresolvableFallbackIsFatal | src/org/hpe/labs/AmselRelease/PickAddress.java:209-215 | a fallback name that does not resolve is fatal |
| UniformPick.ResolveEntry | src/org/hpe/labs/AmselRelease/UniformRandomPickAddress.java:54-65 | an entry resolves iff its name resolves and its port parses |
| UniformPick.ResolveFrom | src/org/hpe/labs/AmselRelease/UniformRandomPickAddress.java:51-71 | the table is built iff every entry resolves; entry i is the resolution of the i-th keys |
| UniformPick.Configure | src/org/hpe/labs/AmselRelease/UniformRandomPickAddress.java:44-77 | succeeds exactly when `numAddresses` is a non-negative integer and, below it, every `address<i>` resolves and every `port<i>` is an integer; a missing `numAddresses`, `address<i>` or `port<i>` is fatal; the table is resolved at configure time |
| UniformPick.GetSample | src/org/hpe/labs/AmselRelease/UniformRandomPickAddress.java:80-84 | a sample is an entry of the table at an index below its length; an empty table throws |
| UniformPick.EveryEntryReachable | src/org/hpe/labs/AmselRelease/UniformRandomPickAddress.java:51-84 | every configured entry is drawn by some draw, and it is the resolved name with its port |
| UniformPick.ConfiguredEntry | src/org/hpe/labs/AmselRelease/UniformRandomPickAddress.java:51-65 | each entry of a configured table is the resolution of its keys |
| UniformPick.EntryMeaning | src/org/hpe/labs/AmselRelease/UniformRandomPickAddress.java:54-60 | a resolved entry is the name, which resolves, with the parsed port |
| RandomIp.AndOctets | src/org/hpe/labs/AmselRelease/RandomIPAddress.java:132-138 | byte-wise AND, as long as the first operand; it fails when the second is shorter |
| RandomIp.OrOctets | src/org/hpe/labs/AmselRelease/RandomIPAddress.java:140-146 | byte-wise OR, as long as the first operand |
| RandomIp.NegOctets | src/org/hpe/labs/AmselRelease/RandomIPAddress.java:148-154 | every bit flipped |
| RandomIp.NegOctetsInvolution | src/org/hpe/labs/AmselRelease/RandomIPAddress.java:148-154 | negating twice gives the mask back |
| RandomIp.Configure | src/org/hpe/labs/AmselRelease/RandomIPAddress.java:66-95 | succeeds exactly when the required keys are present, mask and address are dotted byte lists with the address no longer than the mask, the port is an integer and the fallback is a 4- or 16-byte dotted address; the base is address AND mask, and the negated mask is kept; port and dryRun are as parsed; the fallback carries the configured port; a mask shorter than the address is fatal |
| RandomIp.GetSample | src/org/hpe/labs/AmselRelease/RandomIPAddress.java:98-128 | the combined bytes with the port; the fallback on a dry run, or when the length is not 4 or 16 |
| RandomIp.CombineSelects | src/org/hpe/labs/AmselRelease/RandomIPAddress.java:101-106 | a sample byte takes the base's bits outside the negated mask and the random bits inside it |
| RandomIp.MaskedBitsFromAddress | src/org/hpe/labs/AmselRelease/RandomIPAddress.java:71-106 | where the configured mask has a 1 bit, the sample agrees with the configured address |
| RandomIp.OtherBitsFromDraw | src/org/hpe/labs/AmselRelease/RandomIPAddress.java:71-106 | where the configured mask has a 0 bit, the sample agrees with the random byte |
| RandomIp.GeneratorByte | src/org/hpe/labs/AmselRelease/RandomIPAddress.java:74-75 | the stored bytes are the negated mask and address AND mask |
| RandomIp.EveryMatchingAddressReachable | src/org/hpe/labs/AmselRelease/RandomIPAddress.java:101-106 | every address that agrees with the base under the mask is drawn by some random bytes |
| RandomIp.FullMaskGivesAddress | src/org/hpe/labs/AmselRelease/RandomIPAddress.java:101-106 | with mask 255.255.255.255 every sample is the address itself |
| RandomIp.MaskedAddressInsideMask | src/org/hpe/labs/AmselRelease/RandomIPAddress.java:74-75 | address AND mask has no bit outside the mask |
| Dga.CacheMillis | src/org/hpe/labs/AmselRelease/Dga1Address.java:84 | as written, the cache time is seconds×1000 in 32-bit arithmetic: equal to the product when it fits, wrapped otherwise |
| Dga.CacheMillisIntended | src/org/hpe/labs/AmselRelease/Dga1Address.java:84 | as intended, the cache time in milliseconds is never negative for a non-negative number of seconds, and it converts back to those seconds |
| Dga.ConfigureWith | src/org/hpe/labs/AmselRelease/Dga1Address.java:65-95 | succeeds exactly when the required keys and `port` are present, `port`, `length` and `maxAttempts` are integers, the fallback resolves, and `cacheTime`, when present, is an integer; dryRun iff `dryRun` is true or `requiredFlag` (untrimmed) is missing from the flags; cacheTime defaults to −1 |
| Dga.Configure | src/org/hpe/labs/AmselRelease/Dga1Address.java:65-95 | configure as written: the cache time is a 32-bit int congruent to seconds × 1000 modulo 2^32 |
| Dga.ConfigureIntended | src/org/hpe/labs/AmselRelease/Dga1Address.java:83-85 | succeeds on the same configurations as configure and differs only in the cache time, which is exactly seconds × 1000, never negative for non-negative seconds |
| Dga.CacheTimeWraps | src/org/hpe/labs/AmselRelease/Dga1Address.java:84 | a cacheTime of 2147484 seconds becomes −2147483296 ms, so the first call and every call after a stored sample fall outside the cache window, draw again and store their own time |
| Dga.Resolved | src/org/hpe/labs/AmselRelease/Dga1Address.java:123-127 | a candidate becomes an address with the configured port iff it resolves |
| Dga.Candidate | src/org/hpe/labs/AmselRelease/Dga1Address.java:115-121 | `length` characters from `characters`, followed directly by one of the suffixes |
| Dga.FirstHit | src/org/hpe/labs/AmselRelease/Dga1Address.java:113-134 | the first of at most maxAttempts candidates that resolves, without a dry run |
| Dga.SearchLoop | src/org/hpe/labs/AmselRelease/Dga1Address.java:111-134 | the while loop with its break finds that same first hit |
| Dga.GetSample | src/org/hpe/labs/AmselRelease/Dga1Address.java:98-145 | within the cache window, the previous sample; otherwise the first hit or the fallback, recorded with the time as the new cache entry |
| Dga.SameSecondSameAddress | src/org/hpe/labs/AmselRelease/Dga1Address.java:100-109 | two uncached calls in the same second give the same address |
| Dga.DryRunGivesFallback | src/org/hpe/labs/AmselRelease/Dga1Address.java:124-138 | a dry run returns the fallback |
| Dga.CacheServesRecentSample | src/org/hpe/labs/AmselRelease/Dga1Address.java:102-105 | with the exact cache time, a call within cacheTime seconds of an uncached one returns the same sample |
| PacketSize.SetLimits | src/org/hpe/labs/AmselRelease/UniformRandomPacketSize.java:58-71 | a > b is fatal; limit = b − a + 1 when that fits in an int, and is not positive otherwise |
| PacketSize.Configure | src/org/hpe/labs/AmselRelease/UniformRandomPacketSize.java:44-56 | succeeds iff both limits are present, both are integers and lower ≤ upper; the sizes then hold the parsed limits |
| PacketSize.GetSample | src/org/hpe/labs/AmselRelease/UniformRandomPacketSize.java:74-80 | a + nextInt(limit) in 32-bit arithmetic; a limit that is not positive throws |
| PacketSize.SampleInRange | src/org/hpe/labs/AmselRelease/UniformRandomPacketSize.java:58-80 | every sample lies in [a, b] |
| PacketSize.EveryValueDrawn | src/org/hpe/labs/AmselRelease/UniformRandomPacketSize.java:58-80 | every value in [a, b] is drawn by some draw |
| PacketSize.WideRangeFails | src/org/hpe/labs/AmselRelease/UniformRandomPacketSize.java:67-75 | a range too wide for an int configures, but every sample throws |
| PacketSize.ToString | src/org/hpe/labs/AmselRelease/UniformRandomPacketSize.java:83-85 | the text starts with `UniformRandomPacketSize [` and ends with `]` |
| PacketSize.ToStringReadsBack | src/org/hpe/labs/AmselRelease/UniformRandomPacketSize.java:83-85 | both limits can be read back from the text |
| Direction.Configure | src/org/hpe/labs/AmselRelease/DirectionTypeProcess.java:45-66 | both probabilities are required; it succeeds iff neither is negative and they sum to 1; stored as [send, recv] |
| Direction.Checked | src/org/hpe/labs/AmselRelease/DirectionTypeProcess.java:52-60 | the validity test, and a stochastic vector when it passes |
| Direction.GetSample | src/org/hpe/labs/AmselRelease/DirectionTypeProcess.java:69-73 | the direction is "OUT" or "IN"; for valid probabilities and u ≥ 0 it is "OUT" exactly when u ≤ send |
| Direction.OutExactlyBelowSend | src/org/hpe/labs/AmselRelease/DirectionTypeProcess.java:69-73 | OUT iff u ≤ send, IN iff u > send: send = 1 always gives OUT, recv = 1 gives IN for u > 0 and OUT for u = 0 |
| Ransomware.Step | src/org/hpe/labs/AmselRelease/RansomwareSymptomInjector.java:175-194 | an empty queue is left alone; otherwise the head goes, a directory's children join the tail in listing order, and a file is encrypted iff it matches; the node count drops by one and no other file is lost |
| Ransomware.RunPass | src/org/hpe/labs/AmselRelease/RansomwareSymptomInjector.java:147-171 | a loop pass steps only while symptoms are generated |
| Ransomware.EmptiesAfterOneStepPerNode | src/org/hpe/labs/AmselRelease/RansomwareSymptomInjector.java:175-194 | on a finite tree the queue is empty after exactly one step per node, and not before |
| Ransomware.Drain | src/org/hpe/labs/AmselRelease/RansomwareSymptomInjector.java:175-194 | draining takes one step per node and considers every file exactly once, encrypting exactly the matching ones |
| Ransomware.SizeAllAppend | src/org/hpe/labs/AmselRelease/RansomwareSymptomInjector.java:182-184 | appending children to the tail adds their nodes and files to the queue |
| Ransomware.Transform | src/org/hpe/labs/AmselRelease/RansomwareSymptomInjector.java:216-220 | with encryption, each byte XOR key; without, a copy; the length is kept |
| Ransomware.TransformInvolution | src/org/hpe/labs/AmselRelease/RansomwareSymptomInjector.java:216-220 | transforming twice restores the input |
| Ransomware.TransformAppend | src/org/hpe/labs/AmselRelease/RansomwareSymptomInjector.java:212-224 | transforming block by block is transforming the whole |
| Ransomware.CopyBlocks | src/org/hpe/labs/AmselRelease/RansomwareSymptomInjector.java:211-231 | the read/transform/write loop writes the whole input, transformed, for every positive block size |
| Ransomware.EncryptFile | src/org/hpe/labs/AmselRelease/RansomwareSymptomInjector.java:196-245 | a negative block size leaves the file unchanged, 0 never ends, and a positive one rewrites it transformed |
| Ransomware.InitialQueue | src/org/hpe/labs/AmselRelease/RansomwareSymptomInjector.java:106-112 | the queue starts as the configured directories, in order |
| Ransomware.Configure | src/org/hpe/labs/AmselRelease/RansomwareSymptomInjector.java:94-145 | with the required keys present, succeeds iff the block process loads, block size and delay parse, the pattern syntax is accepted and the key reads when encryption is asked for; `encrypt=true` without `key` is fatal; encrypt ends up on iff asked for and not vetoed by a missing required flag |
| Ransomware.BlockConfigIgnored | src/org/hpe/labs/AmselRelease/RansomwareSymptomInjector.java:94-99 | as written, changing the value of the required `BlockAccessInterarrivalProcessConfig` changes neither whether configure succeeds nor the injector it builds |
| Ransomware.SameReads | src/org/hpe/labs/AmselRelease/RansomwareSymptomInjector.java:94-145 | configurations that agree on the keys configure reads get the same required check, encryption request, encryption switch and key |
| Ransomware.ConfigureIntended | src/org/hpe/labs/AmselRelease/RansomwareSymptomInjector.java:94-99 | as intended: succeeds iff configure does and the block-access process accepts the table read from the file `BlockAccessInterarrivalProcessConfig` names; the injector is configure's |
| Ransomware.BlockConfigHonoured | src/org/hpe/labs/AmselRelease/RansomwareSymptomInjector.java:94-99 | with the correction, pointing the key at another accepted file configures the block-access process with that file's table and leaves the injector unchanged |
| Ransomware.ReadKey | src/org/hpe/labs/AmselRelease/RansomwareSymptomInjector.java:116-124 | the key is read only when encryption is asked for: it must then be present and a byte |
| Ransomware.NoEncryptCopies | src/org/hpe/labs/AmselRelease/RansomwareSymptomInjector.java:126-133 | with encryption off, every file is rewritten unchanged |
| Commands.Configure | src/org/hpe/labs/AmselRelease/CommandSymptomInjector.java:96-156 | succeeds exactly when the required keys are present, `numberOfCommands` is a non-negative integer with every `command<k>` up to it present, the timeout class loads and accepts its configuration; slot k−1 holds `command<k>` and an optional `directory<k>`; the timeout sub-process is configured from the file `TimeoutProcessConfig` names, or "null" without it; the flags and the Windows test are as configured |
| Commands.ReadCommands | src/org/hpe/labs/AmselRelease/CommandSymptomInjector.java:102-120 | succeeds exactly when `numberOfCommands` is a non-negative integer and every `command<k>` up to it is present; the count gives the table size; slot k−1 is `command<k>` with `directory<k>` when present |
| Commands.CapitalisedWindowsRecognised | src/org/hpe/labs/AmselRelease/CommandSymptomInjector.java:138-142 | an os.name containing "Windows" is recognised: the test ignores case |
| Commands.ArgvDeterminesCommand | src/org/hpe/labs/AmselRelease/CommandSymptomInjector.java:194-198 | the command line determines both the shell and the command |
| Commands.Chosen | src/org/hpe/labs/AmselRelease/CommandSymptomInjector.java:188-190 | the index is a draw below N in random mode, and the stored index otherwise |
| Commands.RunNext | src/org/hpe/labs/AmselRelease/CommandSymptomInjector.java:186-221 | launches the chosen command through the host's shell in its directory; no commands throws; the index moves to (i+1) mod N sequentially, and stays at the drawn index in random mode |
| Commands.RunNextIntended | src/org/hpe/labs/AmselRelease/CommandSymptomInjector.java:125-132 | as intended, a launch happens iff executeCommands holds; the index moves as written |
| Commands.ExecuteFlagIgnored | src/org/hpe/labs/AmselRelease/CommandSymptomInjector.java:186-221 | as written, executeCommands makes no difference to what is launched |
| Commands.MissingFlagStillLaunches | src/org/hpe/labs/AmselRelease/CommandSymptomInjector.java:125-132 | as written, a required flag missing from the command line still lets a configured command run |
| Commands.MissingFlagLaunchesNothing | src/org/hpe/labs/AmselRelease/CommandSymptomInjector.java:125-132 | as intended, a missing required flag launches nothing |
| Commands.SequentialRoundRobin | src/org/hpe/labs/AmselRelease/CommandSymptomInjector.java:216-219 | in sequential mode run k uses the command k places on, modulo N |
| Commands.IntendedAdvances | src/org/hpe/labs/AmselRelease/CommandSymptomInjector.java:215-218 | whatever the draw, a sequential run moves the index one place on, back to 0 after the last command, and changes nothing else |
| Commands.AfterIndex | src/org/hpe/labs/AmselRelease/CommandSymptomInjector.java:215-218 | after k sequential runs the index has moved k places, modulo the number of commands |
| Commands.ConfiguredRunsInOrder | src/org/hpe/labs/AmselRelease/CommandSymptomInjector.java:186-221 | from configure, sequential run k executes `command<k mod N + 1>` |
| Commands.RandomReachesEvery | src/org/hpe/labs/AmselRelease/CommandSymptomInjector.java:188-200 | in random mode every command, with its directory, can come next |

## Left out

- Threads, the duration of `sleep`, `yield`, `interrupt`, `synchronized` and `Util.exitAllThreads`. The loops are modelled one pass at a time, with an explicit exit request per pass. In PhaseScheduler and TimingSource the argument of `sleep` is kept: a negative one exits the program.
- The `sleep((int) delay)` between actions in the run loops of CommandSymptomInjector and RansomwareSymptomInjector is left out; Ransomware.RunPass and Commands.RunNext model the action alone. There a negative delay throws IllegalArgumentException, which the `catch (InterruptedException)` around the sleep does not catch, so only that injector's thread ends, not the program.
- PhaseScheduler.Behaviours, TimingSource.SubProcesses: the per-state configuration files (`StateBehaviourConfig<k>`, `TransitionBehaviourConfig<i>,<j>`, `config<i>`) are not passed to `loads`, which judges the class name alone. So which file configures which behaviour is not modelled.
- Sampling.ExponentialRandom: the logarithm `log(1 − u)` is the parameter `logDraw`, because the model has no floating-point logarithm. PoissonProcess is not part of this model.
- Ctmc.FromRates: a state whose rate row sums to 0 is `Fatal`. The Java code divides by zero there and carries on with NaN or −∞.
- Doubles are reals. NaN, infinities and rounding are not modelled, so DirectionTypeProcess's exact `!= 1` test is exact here.
- `Double.parseDouble` accepts a decimal subset: sign, digits, fraction, exponent and an `f`/`d` suffix. NaN, Infinity and hexadecimal forms are not modelled.
- `Integer.parseInt` and `String.toLowerCase` are modelled on ASCII only.
- `Random.nextInt(bound)` is `draw % bound` for a free draw; `Random`'s own generator is not modelled.
- `split` is modelled for the regexes the core uses: commas with surrounding whitespace, dots, whitespace runs, and the first `=` with surrounding whitespace.
- `Util.loadModule`, and the sub-modules' own configure, are the parameters `loads` and `timeoutConfigures`. A sub-module that exits while configuring becomes `Fatal`.
- Opening files in `readConfigFile` is left out; only its line rule is modelled. `files` maps a name to the table its readable lines give.
- Ransomware.MatcherAccepts checks only the `syntax:pattern` form. Glob and regex semantics are the parameter `matches`, and a malformed glob or regex body is not modelled.
- Ransomware.EncryptFile: temporary files, `Files.move`, `busyWait`, the per-block sleep and I/O errors are left out. Only the failure of `new byte[blockSize]` is modelled.
- Ransomware: a directory whose listing fails (`listFiles` returning null) is not modelled. The tree given by `fs` is always listable.
- `processDelay * 10e09` is checked only for parsing; the delay itself is not modelled.
- Commands.RunNext: starting the process and the ProcessHandler that enforces the timeout are left out. A failed start is caught in the source, so its outcome is not a parameter and the index advances either way.
- Commands.RunNext: with no commands the exception ends only the injector's thread, not the program. The model reports it as `Fatal`.
- PickAddress.ReadRequired: a numAddresses for which `numAddresses + 1` is negative in 32-bit arithmetic is `Fatal`, as `new String[...]` throws.
- Dga.Candidate: `Random(seed).nextInt` is the parameter `stream(seed)`. The seed is the clock in whole seconds.
- Network generators, servers, AmselMain, ProcessHandler and the thin state-behaviour wrappers are not part of this model.

## Findings

| source | as written | input that shows it | evidently intended | confidence | as-written member | corrected member |
|---|---|---|---|---|---|---|
| src/org/hpe/labs/AmselRelease/PickAddress.java:116-128 | the present-set is built from `allIP` and `requireDoRiskyStuff`, but the code then asks it for `noReverseLookup` and `requiredFlag` | `requiredFlag = risky` with no command-line flags: dryRun stays false | a required flag missing from the command line forces a dry run, and `noReverseLookup` sets allIP | not executed | PickAddress.RequiredFlagCounterexample | PickAddress.RequiredFlagHonoured |
| src/org/hpe/labs/AmselRelease/Dga1Address.java:84 | `Integer.parseInt(cacheTime) * 1000` is computed in 32-bit `int` | `cacheTime = 2147484` gives −2147483296 ms, so the cache never serves | the cache time in milliseconds, never negative | not executed | Dga.CacheTimeWraps | Dga.CacheServesRecentSample |
| src/org/hpe/labs/AmselRelease/CommandSymptomInjector.java:125-132 | a missing required flag clears `executeCommands`, which runNextCommand never reads | `requiredFlag = x`, no command-line flags, `numberOfCommands = 1`: the command still runs | no command is run while the required flag is missing | not executed | Commands.MissingFlagStillLaunches | Commands.MissingFlagLaunchesNothing |
| src/org/hpe/labs/AmselRelease/RansomwareSymptomInjector.java:94-99 | `BlockAccessInterarrivalProcessConfig` is a required key, but configure only loads `BlockAccessInterarrivalProcess` and never configures it | two configurations differing only in `BlockAccessInterarrivalProcessConfig` configure identically | the block-access process is configured with the table read from the named file, as CommandSymptomInjector does for its timeout process | not executed | Ransomware.BlockConfigIgnored | Ransomware.ConfigureIntended |
