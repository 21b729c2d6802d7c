/** MarkovModulatedProcess: an interarrival process whose samples come from
    one of several sub-processes, the one belonging to the current state of
    a CTMC that runs in its own thread. A sample is cut short so that it
    does not outlast the time left in the current state.

    The clock is a parameter (`now`, in milliseconds), as are the chain's
    draws and the sample the current sub-process returns; reading files and
    loading classes are the `files` and `loads` parameters. The length of
    the thread's sleeps is left out: a loop step is applied when the loop
    comes round. Their argument is kept: a sample that the (int) cast makes
    negative makes sleep throw, and the handler exits the program.
 */
module TimingSource {
  import opened Outcomes
  import opened JavaText
  import opened Config
  import opened Sampling
  import opened Ctmc

  /** The chain and its cursor, the class name of each state's sub-process,
      the state the sampler reads, and endsleep: the time at which the
      current state is left. */
  datatype Source = Source(chain: Chain, cursor: Cursor, processes: seq<string>, state: nat, endsleep: int)

  predicate Valid(s: Source) {
    WellFormed(s.chain) && s.cursor.state < s.chain.n && |s.processes| == s.chain.n && s.state < s.chain.n
  }

  function ProcessKey(i: nat): string {
    "process" + NatToString(i)
  }

  function ConfigKey(i: nat): string {
    "config" + NatToString(i)
  }

  /** MarkovModulatedProcess.configure: the chain from the file named by
      `ctmc`, initialised at once; then, for every state i from 0, both
      `process<i>` and `config<i>` are required and the class must load.
      `state` and `endsleep` keep their initial value 0. */
  function Configure(config: ConfigMap, files: string -> ConfigMap, loads: string -> bool, u: real, logDraw: real): (r: Result<Source>)
    requires logDraw <= 0.0
    ensures r.Ok? <==>
      && Ctmc.Configure(files(NameOrNull(config, "ctmc"))).Ok?
      && SubProcesses(config, loads, Ctmc.Configure(files(NameOrNull(config, "ctmc"))).value, u, logDraw).Ok?
    ensures Ctmc.Configure(files(NameOrNull(config, "ctmc"))).Ok? ==>
      r == SubProcesses(config, loads, Ctmc.Configure(files(NameOrNull(config, "ctmc"))).value, u, logDraw)
    ensures r.Ok? ==> Valid(r.value) && r.value.state == 0 && r.value.endsleep == 0
    ensures r.Ok? ==> Ctmc.Configure(files(NameOrNull(config, "ctmc"))) == Ok(r.value.chain)
    ensures r.Ok? ==> Init(r.value.chain, u, logDraw) == Ok(r.value.cursor)
    ensures r.Ok? ==> forall i | 0 <= i < r.value.chain.n ::
      ProcessKey(i) in config && ConfigKey(i) in config && r.value.processes[i] == config[ProcessKey(i)] && loads(r.value.processes[i])
    ensures Ctmc.Configure(files(NameOrNull(config, "ctmc"))).Ok? &&
      (exists i | 0 <= i < Ctmc.Configure(files(NameOrNull(config, "ctmc"))).value.n :: ProcessKey(i) !in config || ConfigKey(i) !in config)
      ==> r.Fatal?
  {
    var chain :- Ctmc.Configure(files(NameOrNull(config, "ctmc")));
    SubProcesses(config, loads, chain, u, logDraw)
  }

  /** The part of configure after the chain is read. */
  function SubProcesses(config: ConfigMap, loads: string -> bool, chain: Chain, u: real, logDraw: real): (r: Result<Source>)
    requires WellFormed(chain) && logDraw <= 0.0
    ensures r.Ok? <==>
      && Init(chain, u, logDraw).Ok?
      && forall i | 0 <= i < chain.n :: ProcessKey(i) in config && ConfigKey(i) in config && loads(config[ProcessKey(i)])
    ensures r.Ok? ==> Valid(r.value) && r.value.chain == chain && r.value.state == 0 && r.value.endsleep == 0
    ensures r.Ok? ==> Init(chain, u, logDraw) == Ok(r.value.cursor)
    ensures r.Ok? ==> forall i | 0 <= i < chain.n ::
      ProcessKey(i) in config && ConfigKey(i) in config && r.value.processes[i] == config[ProcessKey(i)] && loads(r.value.processes[i])
    ensures (exists i | 0 <= i < chain.n :: ProcessKey(i) !in config || ConfigKey(i) !in config) ==> r.Fatal?
  {
    var cursor :- Init(chain, u, logDraw);
    var n := chain.n;
    :- Need(forall i | 0 <= i < n :: ProcessKey(i) in config && ConfigKey(i) in config, "Incomplete configuration.");
    var processes := seq(n, i requires 0 <= i < n => config[ProcessKey(i)]);
    :- Need(forall i | 0 <= i < n :: loads(processes[i]), "cannot load a sub-process");
    assert forall i | 0 <= i < n :: processes[i] == config[ProcessKey(i)] && loads(config[ProcessKey(i)]);
    Ok(Source(chain, cursor, processes, 0, 0))
  }

  /** The start of run: the sampler switches to the chain's initial state
      and the thread sleeps for the (int) of the initial sample; a sample of
      -1 ms or less makes sleep throw, and the program exits. */
  function RunBegin(s: Source): (r: Result<Source>)
    requires Valid(s)
    ensures r.Ok? <==> -1.0 < s.cursor.sample
    ensures r.Ok? ==> Valid(r.value) && r.value.state == s.cursor.state
    ensures r.Ok? ==> r.value.(state := s.state) == s
  {
    if TruncateToInt32(s.cursor.sample) < 0 then Fatal("IllegalArgumentException: timeout value is negative")
    else Ok(s.(state := s.cursor.state))
  }

  /** One pass of the loop in run: the chain jumps, the sampler follows it,
      the state is left (int) sample milliseconds from now, and the thread
      sleeps that long; a negative time makes sleep throw, and the program
      exits. */
  function LoopStep(s: Source, u: real, logDraw: real, now: int): (r: Result<Source>)
    requires Valid(s) && logDraw <= 0.0
    ensures r.Ok? <==> -1.0 < NextState(s.chain, s.cursor, u, logDraw).sample
    ensures r.Ok? ==> Valid(r.value)
    ensures r.Ok? ==> r.value.cursor == NextState(s.chain, s.cursor, u, logDraw) && r.value.state == r.value.cursor.state
    ensures r.Ok? ==> r.value.endsleep == now + TruncateToInt32(r.value.cursor.sample)
    ensures r.Ok? ==> r.value.chain == s.chain && r.value.processes == s.processes
  {
    var cursor := NextState(s.chain, s.cursor, u, logDraw);
    var delay := TruncateToInt32(cursor.sample);
    if delay < 0 then Fatal("IllegalArgumentException: timeout value is negative")
    else Ok(s.(cursor := cursor, state := cursor.state, endsleep := now + delay))
  }

  /** A non-negative sojourn sample lets the pass go on, and puts endsleep
      between now and now plus the sample: the (int) cast only rounds
      down. */
  lemma LoopStepSleepBounds(s: Source, u: real, logDraw: real, now: int)
    requires Valid(s) && logDraw <= 0.0
    requires 0.0 <= NextState(s.chain, s.cursor, u, logDraw).sample
    ensures LoopStep(s, u, logDraw, now).Ok?
    ensures now <= LoopStep(s, u, logDraw, now).value.endsleep
    ensures (LoopStep(s, u, logDraw, now).value.endsleep - now) as real <= LoopStep(s, u, logDraw, now).value.cursor.sample
  {
  }

  /** The clamp of getSample: a draw that ends after endsleep is replaced by
      the time left, and by 0 once no time is left. `nowCheck` and `nowRead`
      are the two readings of the clock it takes. */
  function Clamp(draw: real, nowCheck: int, nowRead: int, endsleep: int): (r: real)
    ensures draw + nowCheck as real <= endsleep as real ==> r == draw
    ensures draw + nowCheck as real > endsleep as real ==> r == Max(0.0, (endsleep - nowRead) as real)
  {
    if draw + nowCheck as real > endsleep as real then
      var left := (endsleep - nowRead) as real;
      if left < 0.0 then 0.0 else left
    else
      draw
  }

  function Max(a: real, b: real): real {
    if a < b then b else a
  }

  /** With one reading of the clock, a non-negative draw comes back neither
      negative nor longer than the draw, and a clamped one is the time left
      in the state (0 if none). */
  lemma ClampBounds(draw: real, now: int, endsleep: int)
    requires 0.0 <= draw
    ensures 0.0 <= Clamp(draw, now, now, endsleep) <= draw
    ensures Clamp(draw, now, now, endsleep) == draw || Clamp(draw, now, now, endsleep) == Max(0.0, (endsleep - now) as real)
    ensures Clamp(draw, now, now, endsleep) + now as real <= endsleep as real || Clamp(draw, now, now, endsleep) == 0.0
  {
  }

  /** The bound on the draw holds as well when the clock has moved on between
      the two readings. */
  lemma ClampWithMovingClock(draw: real, nowCheck: int, nowRead: int, endsleep: int)
    requires 0.0 <= draw && nowCheck <= nowRead
    ensures 0.0 <= Clamp(draw, nowCheck, nowRead, endsleep) <= draw
  {
  }

  /** Clamping is idempotent at a fixed time. */
  lemma ClampIdempotent(draw: real, now: int, endsleep: int)
    ensures Clamp(Clamp(draw, now, now, endsleep), now, now, endsleep) == Clamp(draw, now, now, endsleep)
  {
  }

  /** MarkovModulatedProcess.getSample: the draw of the current state's
      sub-process (`draws[state]`), clamped. */
  function GetSample(s: Source, draws: seq<real>, nowCheck: int, nowRead: int): (r: real)
    requires Valid(s) && |draws| == s.chain.n
    ensures r == Clamp(draws[s.state], nowCheck, nowRead, s.endsleep)
    ensures r == draws[s.state] || r == Max(0.0, (s.endsleep - nowRead) as real)
    ensures draws[s.state] + nowCheck as real <= s.endsleep as real ==> r == draws[s.state]
    ensures 0.0 <= draws[s.state] && nowCheck <= nowRead ==> 0.0 <= r <= draws[s.state]
  {
    Clamp(draws[s.state], nowCheck, nowRead, s.endsleep)
  }

  /** Until the loop has made its first pass endsleep is still 0, so at any
      time after the epoch every positive draw comes back as 0. */
  lemma InitialSojournClampsToZero(config: ConfigMap, files: string -> ConfigMap, loads: string -> bool,
                                   u: real, logDraw: real, s: Source, draws: seq<real>, nowCheck: int, nowRead: int)
    requires logDraw <= 0.0 && Configure(config, files, loads, u, logDraw) == Ok(s)
    requires |draws| == s.chain.n
    requires 0 <= nowCheck <= nowRead
    requires forall k | 0 <= k < |draws| :: 0.0 < draws[k]
    ensures GetSample(s, draws, nowCheck, nowRead) == 0.0
    ensures RunBegin(s).Ok? ==> GetSample(RunBegin(s).value, draws, nowCheck, nowRead) == 0.0
  {
    BeforeFirstStepClamps(s, draws, nowCheck, nowRead);
    if RunBegin(s).Ok? {
      BeforeFirstStepClamps(RunBegin(s).value, draws, nowCheck, nowRead);
    }
  }

  lemma BeforeFirstStepClamps(s: Source, draws: seq<real>, nowCheck: int, nowRead: int)
    requires Valid(s) && s.endsleep == 0 && |draws| == s.chain.n
    requires 0 <= nowCheck <= nowRead && 0.0 < draws[s.state]
    ensures GetSample(s, draws, nowCheck, nowRead) == 0.0
  {
  }

  /** Right after a loop step, a sample taken at the time of the step never
      outlasts the new state's sojourn. */
  lemma SampleWithinSojourn(s: Source, u: real, logDraw: real, now: int, draws: seq<real>)
    requires Valid(s) && logDraw <= 0.0 && |draws| == s.chain.n
    requires LoopStep(s, u, logDraw, now).Ok?
    requires 0.0 <= draws[LoopStep(s, u, logDraw, now).value.state]
    ensures GetSample(LoopStep(s, u, logDraw, now).value, draws, now, now) + now as real <= LoopStep(s, u, logDraw, now).value.endsleep as real
      || GetSample(LoopStep(s, u, logDraw, now).value, draws, now, now) == 0.0
  {
    var t := LoopStep(s, u, logDraw, now).value;
    ClampBounds(draws[t.state], now, t.endsleep);
  }
}
