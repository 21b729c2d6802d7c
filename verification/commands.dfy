/** CommandSymptomInjector: a thread that runs one configured shell command
    per interarrival, either in turn or picked at random, each under a
    timeout drawn from a sub-process.

    Starting the process, the ProcessHandler that enforces the timeout and
    the sleeps of the run loop are left out; the model yields what would be
    launched. The host's os.name, the timeout sample and the draw behind
    Random.nextInt are parameters, as are loading and configuring the
    timeout sub-process.
 */
module Commands {
  import opened Outcomes
  import opened JavaText
  import opened Config

  /** The configured commands and their working directories (None for the
      inherited one), the timeout sub-process, the three switches, and the
      index of the next command in sequential mode. */
  datatype Injector = Injector(
    commands: seq<string>, directories: seq<Option<string>>, timeoutProcess: string,
    randomise: bool, windows: bool, executeCommands: bool, index: nat)

  /** What ProcessBuilder.start is asked to run. */
  datatype Launch = Launch(argv: seq<string>, directory: Option<string>, timeout: int)

  predicate Valid(inj: Injector) {
    |inj.directories| == |inj.commands| && (inj.index < |inj.commands| || inj.index == 0)
  }

  const Required: seq<string> := ["TimeoutProcess", "numberOfCommands"]

  function CommandKey(i: nat): string {
    "command" + NatToString(i)
  }

  function DirectoryKey(i: nat): string {
    "directory" + NatToString(i)
  }

  /** The table the timeout sub-process is configured with: the file named
      by `TimeoutProcessConfig`, or, when that key is missing, the file
      "null" that readConfigFile is then handed. */
  function TimeoutConfig(config: ConfigMap, files: string -> ConfigMap): (table: ConfigMap)
    ensures "TimeoutProcessConfig" in config ==> table == files(config["TimeoutProcessConfig"])
    ensures "TimeoutProcessConfig" !in config ==> table == files("null")
  {
    files(NameOrNull(config, "TimeoutProcessConfig"))
  }

  /** Whether the commands are meant to be executed: not when a required
      flag, trimmed, is missing from the command line. */
  predicate ExecuteOn(config: ConfigMap, flags: set<string>) {
    !("requiredFlag" in config && Trim(config["requiredFlag"]) !in flags)
  }

  /** CommandSymptomInjector.configure. `osName` is the os.name property;
      `timeoutConfigures` says whether the sub-process's configure accepts
      its table. */
  function Configure(config: ConfigMap, flags: set<string>, loads: string -> bool, files: string -> ConfigMap,
                     timeoutConfigures: ConfigMap -> bool, osName: string): (r: Result<Injector>)
    ensures !CheckConfigRequired(config, Required) ==> r.Fatal?
    ensures r.Ok? <==>
      && CheckConfigRequired(config, Required)
      && ParseInt(config["numberOfCommands"]).Some? && 0 <= ParseInt(config["numberOfCommands"]).value
      && (forall i | 1 <= i <= ParseInt(config["numberOfCommands"]).value :: CommandKey(i) in config)
      && loads(config["TimeoutProcess"]) && timeoutConfigures(TimeoutConfig(config, files))
    ensures r.Ok? ==> Valid(r.value) && r.value.index == 0
    ensures r.Ok? ==> CheckConfigRequired(config, Required) && ParseInt(config["numberOfCommands"]) == Some(|r.value.commands|)
    ensures r.Ok? ==> forall k | 0 <= k < |r.value.commands| ::
      && CommandKey(k + 1) in config && r.value.commands[k] == config[CommandKey(k + 1)]
      && r.value.directories[k] == Get(config, DirectoryKey(k + 1))
    ensures (CheckConfigRequired(config, Required) && ParseInt(config["numberOfCommands"]).Some?
             && exists i | 1 <= i <= ParseInt(config["numberOfCommands"]).value :: CommandKey(i) !in config) ==> r.Fatal?
    ensures (CheckConfigRequired(config, Required) && ParseInt(config["numberOfCommands"]).Some?
             && ParseInt(config["numberOfCommands"]).value < 0) ==> r.Fatal?
    ensures r.Ok? ==> (r.value.timeoutProcess == config["TimeoutProcess"] && loads(r.value.timeoutProcess)
                       && timeoutConfigures(TimeoutConfig(config, files)))
    ensures r.Ok? ==> (r.value.executeCommands <==> ExecuteOn(config, flags))
    ensures r.Ok? ==> (r.value.randomise <==> "randomise" in config && ParseBoolean(config["randomise"]))
    ensures r.Ok? ==> (r.value.windows <==> ContainsSubstring(AsciiLower(osName), "windows"))
  {
    if !CheckConfigRequired(config, Required) then Fatal("Incomplete configuration.") else
    var table :- ReadCommands(config);
    :- Need(loads(config["TimeoutProcess"]), "ClassNotFoundException");
    :- Need(timeoutConfigures(TimeoutConfig(config, files)), "the timeout process rejects its configuration");
    var randomise := "randomise" in config && ParseBoolean(config["randomise"]);
    var windows := ContainsSubstring(AsciiLower(osName), "windows");
    Ok(Injector(table.0, table.1, config["TimeoutProcess"], randomise, windows, ExecuteOn(config, flags), 0))
  }

  /** The commands and their directories: `numberOfCommands` must be a
      non-negative integer and every `command<k>` up to it present. */
  function ReadCommands(config: ConfigMap): (r: Result<(seq<string>, seq<Option<string>>)>)
    requires "numberOfCommands" in config
    ensures r.Ok? <==>
      && ParseInt(config["numberOfCommands"]).Some? && 0 <= ParseInt(config["numberOfCommands"]).value
      && forall i | 1 <= i <= ParseInt(config["numberOfCommands"]).value :: CommandKey(i) in config
    ensures r.Ok? ==> ParseInt(config["numberOfCommands"]) == Some(|r.value.0|) && |r.value.1| == |r.value.0|
    ensures r.Ok? ==> forall k | 0 <= k < |r.value.0| ::
      && CommandKey(k + 1) in config && r.value.0[k] == config[CommandKey(k + 1)]
      && r.value.1[k] == Get(config, DirectoryKey(k + 1))
    ensures (ParseInt(config["numberOfCommands"]).Some?
             && exists i | 1 <= i <= ParseInt(config["numberOfCommands"]).value :: CommandKey(i) !in config) ==> r.Fatal?
    ensures (ParseInt(config["numberOfCommands"]).Some? && ParseInt(config["numberOfCommands"]).value < 0) ==> r.Fatal?
  {
    var n :- FromOption(ParseInt(config["numberOfCommands"]), "NumberFormatException");
    :- Need(0 <= n, "NegativeArraySizeException");
    :- Need(forall i | 1 <= i <= n :: CommandKey(i) in config, "Parameter `command' missing.");
    Ok(CommandTable(config, n))
  }

  /** The commands `command<k>` and directories `directory<k>`, 1-indexed
      in the table and 0-indexed in the result. */
  function CommandTable(config: ConfigMap, n: nat): (r: (seq<string>, seq<Option<string>>))
    requires forall i | 1 <= i <= n :: CommandKey(i) in config
    ensures |r.0| == n && |r.1| == n
    ensures forall k | 0 <= k < n :: r.0[k] == config[CommandKey(k + 1)] && r.1[k] == Get(config, DirectoryKey(k + 1))
  {
    (seq(n, k requires 0 <= k < n => config[CommandKey(k + 1)]),
     seq(n, k requires 0 <= k < n => Get(config, DirectoryKey(k + 1))))
  }

  /** An os.name spelt with a capital W, as Java reports "Windows 10", is
      recognised. */
  lemma CapitalisedWindowsRecognised(osName: string, i: nat)
    requires i + 7 <= |osName| && osName[i..i + 7] == "Windows"
    ensures ContainsSubstring(AsciiLower(osName), "windows")
  {
    var low := AsciiLower(osName);
    assert low[i..i + 7] == "windows" by {
      forall k | 0 <= k < 7 ensures low[i..i + 7][k] == "windows"[k] {
        assert osName[i + k] == "Windows"[k];
      }
    }
    assert OccursAt(low, "windows", i);
  }

  /** The command line handed to ProcessBuilder: the command goes to the
      shell of the host. */
  function Argv(windows: bool, command: string): seq<string> {
    if windows then ["cmd.exe", "/C", command] else ["/bin/sh", "-c", command]
  }

  /** The command line determines both the shell and the command. */
  lemma ArgvDeterminesCommand(w1: bool, c1: string, w2: bool, c2: string)
    requires Argv(w1, c1) == Argv(w2, c2)
    ensures w1 == w2 && c1 == c2
  {
    assert Argv(w1, c1)[0][0] == Argv(w2, c2)[0][0];
    assert Argv(w1, c1)[2] == Argv(w2, c2)[2];
  }

  /** The index runNextCommand uses: a fresh draw below the number of
      commands in random mode, the stored index otherwise. */
  function Chosen(inj: Injector, draw: nat): (i: nat)
    requires Valid(inj) && 0 < |inj.commands|
    ensures i < |inj.commands|
    ensures inj.randomise ==> i == draw % |inj.commands|
    ensures !inj.randomise ==> i == inj.index
  {
    if inj.randomise then draw % |inj.commands| else inj.index
  }

  /** runNextCommand, as written: the chosen command is launched whether or
      not executeCommands holds. With no commands, Random.nextInt(0) or
      ArrayList.get(0) throws. A failed start is caught and reported, so
      the index moves on either way. */
  function RunNext(inj: Injector, draw: nat, sample: real): (r: Result<(Launch, Injector)>)
    requires Valid(inj)
    ensures r.Ok? <==> 0 < |inj.commands|
    ensures r.Ok? ==> Valid(r.value.1) && r.value.1 == inj.(index := r.value.1.index)
    ensures r.Ok? ==> r.value.0 == Launch(Argv(inj.windows, inj.commands[Chosen(inj, draw)]),
                                          inj.directories[Chosen(inj, draw)], TruncateToInt32(sample))
    ensures r.Ok? && inj.randomise ==> r.value.1.index == draw % |inj.commands|
    ensures r.Ok? && !inj.randomise ==> r.value.1.index == (inj.index + 1) % |inj.commands|
  {
    var n := |inj.commands|;
    :- Need(0 < n, "IllegalArgumentException");
    var i := Chosen(inj, draw);
    var launch := Launch(Argv(inj.windows, inj.commands[i]), inj.directories[i], TruncateToInt32(sample));
    if inj.randomise then Ok((launch, inj.(index := i)))
    else
      var next := if i + 1 < n then i + 1 else 0;
      NextIsSuccessorModulo(i, n);
      Ok((launch, inj.(index := next)))
  }

  lemma NextIsSuccessorModulo(i: nat, n: nat)
    requires i < n
    ensures (if i + 1 < n then i + 1 else 0) == (i + 1) % n
  {
    if i + 1 < n {
      ModUnique(i + 1, n, 0, i + 1);
    } else {
      ModUnique(i + 1, n, 1, 0);
    }
  }

  /** The launch runNextCommand evidently means: nothing when
      executeCommands is off, the as-written launch otherwise; the index
      moves exactly as before. */
  function RunNextIntended(inj: Injector, draw: nat, sample: real): (r: Result<(Option<Launch>, Injector)>)
    requires Valid(inj)
    ensures r.Ok? <==> RunNext(inj, draw, sample).Ok?
    ensures r.Ok? ==> r.value.1 == RunNext(inj, draw, sample).value.1
    ensures r.Ok? ==> (r.value.0.Some? <==> inj.executeCommands)
    ensures r.Ok? && r.value.0.Some? ==> r.value.0.value == RunNext(inj, draw, sample).value.0
  {
    var (launch, next) :- RunNext(inj, draw, sample);
    Ok((if inj.executeCommands then Some(launch) else None, next))
  }

  /** As written, executeCommands makes no difference to what is run. */
  lemma ExecuteFlagIgnored(inj: Injector, draw: nat, sample: real, execute: bool)
    requires Valid(inj)
    ensures RunNext(inj.(executeCommands := execute), draw, sample).Ok? == RunNext(inj, draw, sample).Ok?
    ensures RunNext(inj, draw, sample).Ok? ==>
      RunNext(inj.(executeCommands := execute), draw, sample).value.0 == RunNext(inj, draw, sample).value.0
  {
  }

  /** So a required flag missing from the command line still lets every
      command run: configure clears executeCommands, and the next run
      launches a command all the same. */
  lemma MissingFlagStillLaunches(config: ConfigMap, flags: set<string>, loads: string -> bool, files: string -> ConfigMap,
                                 timeoutConfigures: ConfigMap -> bool, osName: string, inj: Injector, draw: nat, sample: real)
    requires Configure(config, flags, loads, files, timeoutConfigures, osName) == Ok(inj)
    requires "requiredFlag" in config && Trim(config["requiredFlag"]) !in flags
    requires ParseInt(config["numberOfCommands"]) != Some(0)
    ensures !inj.executeCommands
    ensures RunNext(inj, draw, sample).Ok?
    ensures RunNext(inj, draw, sample).value.0.argv[2] in inj.commands
  {
  }

  /** With the correction, a missing required flag launches nothing, on
      every run. */
  lemma MissingFlagLaunchesNothing(config: ConfigMap, flags: set<string>, loads: string -> bool, files: string -> ConfigMap,
                                   timeoutConfigures: ConfigMap -> bool, osName: string, inj: Injector, draw: nat, sample: real)
    requires Configure(config, flags, loads, files, timeoutConfigures, osName) == Ok(inj)
    requires "requiredFlag" in config && Trim(config["requiredFlag"]) !in flags
    ensures RunNextIntended(inj, draw, sample).Ok? ==> RunNextIntended(inj, draw, sample).value.0 == None
  {
  }

  /** What one sequential run leaves behind: the index one place on, wrapping
      at the number of commands (IntendedAdvances: whatever the draw). */
  function Advance(inj: Injector): (r: Injector)
    requires Valid(inj) && 0 < |inj.commands|
    ensures Valid(r)
  {
    inj.(index := (inj.index + 1) % |inj.commands|)
  }

  /** The injector after k sequential runs. */
  function After(inj: Injector, k: nat): (r: Injector)
    requires Valid(inj) && 0 < |inj.commands| && !inj.randomise
    ensures Valid(r) && r.commands == inj.commands && !r.randomise
  {
    if k == 0 then inj else Advance(After(inj, k - 1))
  }

  /** In sequential mode the commands are run round-robin: run k (from 0)
      uses the command k places after the start, modulo their number,
      launched or not alike. */
  lemma SequentialRoundRobin(inj: Injector, k: nat, draw: nat, sample: real)
    requires Valid(inj) && 0 < |inj.commands| && !inj.randomise
    ensures After(inj, k).index == (inj.index + k) % |inj.commands|
    ensures RunNext(After(inj, k), draw, sample).value.0.argv == Argv(inj.windows, inj.commands[(inj.index + k) % |inj.commands|])
  {
    AfterIndex(inj, k);
    AfterKeepsSettings(inj, k);
    var a := After(inj, k);
    assert Chosen(a, draw) == a.index;
  }

  /** One sequential run of the corrected injector moves the index on by
      one place and changes nothing else. */
  lemma IntendedAdvances(inj: Injector, draw: nat, sample: real)
    requires Valid(inj) && 0 < |inj.commands| && !inj.randomise
    ensures RunNextIntended(inj, draw, sample).Ok?
    ensures RunNextIntended(inj, draw, sample).value.1 == Advance(inj)
  {
    var next := RunNext(inj, draw, sample).value.1;
    assert next == inj.(index := next.index);
  }

  /** The index after k sequential runs has moved k places, modulo the
      number of commands. */
  lemma {:induction false} AfterIndex(inj: Injector, k: nat)
    requires Valid(inj) && 0 < |inj.commands| && !inj.randomise
    ensures After(inj, k).index == (inj.index + k) % |inj.commands|
  {
    var n := |inj.commands|;
    if k == 0 {
      ModUnique(inj.index, n, 0, inj.index);
    } else {
      AfterIndex(inj, k - 1);
      assert After(inj, k).index == (After(inj, k - 1).index + 1) % n;
      NextResidue(After(inj, k - 1).index, inj.index, k, n);
    }
  }

  lemma NextResidue(x: int, i: nat, k: nat, n: nat)
    requires 0 < n && 0 < k && x == (i + (k - 1)) % n
    ensures (x + 1) % n == (i + k) % n
  {
    ModAddOne(i + (k - 1), n);
    assert i + (k - 1) + 1 == i + k;
  }

  /** Sequential runs change nothing but the index. */
  lemma {:induction false} AfterKeepsSettings(inj: Injector, k: nat)
    requires Valid(inj) && 0 < |inj.commands| && !inj.randomise
    ensures After(inj, k) == inj.(index := After(inj, k).index)
  {
    if k > 0 {
      AfterKeepsSettings(inj, k - 1);
    }
  }

  /** From configure, sequential run k uses command<k mod n + 1>. */
  lemma ConfiguredRunsInOrder(config: ConfigMap, flags: set<string>, loads: string -> bool, files: string -> ConfigMap,
                              timeoutConfigures: ConfigMap -> bool, osName: string, inj: Injector, k: nat, draw: nat, sample: real)
    requires Configure(config, flags, loads, files, timeoutConfigures, osName) == Ok(inj)
    requires 0 < |inj.commands| && !inj.randomise
    ensures RunNext(After(inj, k), draw, sample).value.0.argv[2] == config[CommandKey(k % |inj.commands| + 1)]
  {
    var m := k % |inj.commands|;
    assert 0 <= m < |inj.commands|;
    assert inj.index == 0 && CommandKey(m + 1) in config && inj.commands[m] == config[CommandKey(m + 1)];
    RunsFromStart(inj, k, draw, sample);
  }

  /** From index 0, sequential run k runs command k mod n. */
  lemma RunsFromStart(inj: Injector, k: nat, draw: nat, sample: real)
    requires Valid(inj) && 0 < |inj.commands| && !inj.randomise && inj.index == 0
    ensures RunNext(After(inj, k), draw, sample).value.0.argv[2] == inj.commands[k % |inj.commands|]
  {
    var n := |inj.commands|;
    assert inj.index + k == k;
    assert (inj.index + k) % n == k % n;
    SequentialRoundRobin(inj, k, draw, sample);
    ArgvCommand(inj.windows, inj.commands[k % n]);
  }

  lemma ArgvCommand(windows: bool, command: string)
    ensures |Argv(windows, command)| == 3 && Argv(windows, command)[2] == command
  {
  }

  /** In random mode every command can come next: a draw of j picks
      command j. */
  lemma RandomReachesEvery(inj: Injector, j: nat, sample: real)
    requires Valid(inj) && inj.randomise && j < |inj.commands|
    ensures RunNext(inj, j, sample).value.0.argv == Argv(inj.windows, inj.commands[j])
    ensures RunNext(inj, j, sample).value.0.directory == inj.directories[j]
  {
    ModUnique(j, |inj.commands|, 0, j);
  }
}
