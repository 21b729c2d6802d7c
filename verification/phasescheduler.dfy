/** MarkovModulatedBehaviour: the operational-phase scheduler. Each state of
    a CTMC has a state behaviour that is started when the chain enters the
    state and stopped when it leaves; an optional transition behaviour runs
    between the two when the chain jumps from i to j.

    The scheduler is modelled as a step function that emits the calls it
    makes on the behaviours as an event trace. Reading configuration files
    and loading classes by name are parameters: `files` gives the table
    readConfigFile returns for a file name, `loads` tells whether a class
    name can be loaded as a behaviour. The length of the thread's sleep is
    left out: each iteration of the loop consumes one `Tick`, which carries
    the global exit flag as seen at the top of the loop and the chain's two
    draws. Its argument is kept: a sojourn sample that the (long) cast
    makes negative makes sleep throw, and the handler exits the program.
 */
module PhaseScheduler {
  import opened Outcomes
  import opened JavaText
  import opened Config
  import opened Sampling
  import opened Ctmc

  /** A call on a behaviour: startBehaviour / stopBehaviour of a state
      behaviour, or behave of the transition behaviour from one state to
      another. */
  datatype Event = Start(state: nat) | Stop(state: nat) | Behave(from: nat, to: nat)

  /** The chain, the class name of each state's behaviour (slot k - 1 for
      `StateBehaviour<k>`), and the transition behaviours, None where the
      Java array holds null. */
  datatype Scheduler = Scheduler(chain: Chain, states: seq<string>, transitions: seq<seq<Option<string>>>)

  predicate Valid(s: Scheduler) {
    && WellFormed(s.chain)
    && |s.states| == s.chain.n
    && |s.transitions| == s.chain.n
    && (forall i | 0 <= i < s.chain.n :: |s.transitions[i]| == s.chain.n)
  }

  function StateKey(k: nat): string {
    "StateBehaviour" + NatToString(k)
  }

  function TransitionKey(i: nat, j: nat): string {
    "TransitionBehaviour" + NatToString(i) + "," + NatToString(j)
  }

  /** The transition slot from state i to state j (0-indexed): filled only
      when i != j and the 1-indexed key is present. */
  function TransitionSlot(config: ConfigMap, i: nat, j: nat): (slot: Option<string>)
    ensures slot.Some? <==> i != j && TransitionKey(i + 1, j + 1) in config
  {
    if i != j && TransitionKey(i + 1, j + 1) in config then Some(config[TransitionKey(i + 1, j + 1)]) else None
  }

  /** MarkovModulatedBehaviour.configure: the chain from the file named by
      `ctmc`, then the behaviours. */
  function Configure(config: ConfigMap, files: string -> ConfigMap, loads: string -> bool): (r: Result<Scheduler>)
    ensures r.Ok? ==> Valid(r.value)
    ensures r.Ok? ==> Ctmc.Configure(files(NameOrNull(config, "ctmc"))) == Ok(r.value.chain)
    ensures r.Ok? ==> Behaviours(config, loads, r.value.chain) == Ok(r.value)
    ensures Ctmc.Configure(files(NameOrNull(config, "ctmc"))).Ok? ==>
      r == Behaviours(config, loads, Ctmc.Configure(files(NameOrNull(config, "ctmc"))).value)
    ensures "StateBehaviourConfig0" in config ==> r.Fatal?
  {
    var chain :- Ctmc.Configure(files(NameOrNull(config, "ctmc")));
    Behaviours(config, loads, chain)
  }

  /** The part of configure after the chain: state behaviours from the
      1-indexed keys `StateBehaviour<k>`, transition behaviours from the
      optional keys `TransitionBehaviour<i>,<j>`; any class that cannot be
      loaded is fatal, and so is the key `StateBehaviourConfig0`. */
  function Behaviours(config: ConfigMap, loads: string -> bool, chain: Chain): (r: Result<Scheduler>)
    requires WellFormed(chain)
    ensures "StateBehaviourConfig0" in config ==> r.Fatal?
    ensures r.Ok? <==>
      && "StateBehaviourConfig0" !in config
      && (forall k | 1 <= k <= chain.n :: loads(NameOrNull(config, StateKey(k))))
      && (forall i, j | 0 <= i < chain.n && 0 <= j < chain.n ::
            TransitionSlot(config, i, j).Some? ==> loads(TransitionSlot(config, i, j).value))
    ensures r.Ok? ==> Valid(r.value) && r.value.chain == chain
    ensures r.Ok? ==> forall k | 1 <= k <= chain.n ::
      r.value.states[k - 1] == NameOrNull(config, StateKey(k)) && loads(r.value.states[k - 1])
    ensures r.Ok? ==> forall i, j | 0 <= i < chain.n && 0 <= j < chain.n ::
      r.value.transitions[i][j] == TransitionSlot(config, i, j)
    ensures r.Ok? ==> forall i, j | 0 <= i < chain.n && 0 <= j < chain.n ::
      r.value.transitions[i][j].Some? ==> loads(r.value.transitions[i][j].value)
  {
    if "StateBehaviourConfig0" in config then Fatal("state numbering starting at 0 is not supported") else
    if !(forall k | 1 <= k <= chain.n :: loads(NameOrNull(config, StateKey(k)))) then
      Fatal("cannot load a state behaviour")
    else if !(forall i, j | 0 <= i < chain.n && 0 <= j < chain.n ::
                TransitionSlot(config, i, j).Some? ==> loads(TransitionSlot(config, i, j).value)) then
      Fatal("cannot load a transition behaviour")
    else
      Ok(Scheduler(chain, StateNames(config, chain.n), TransitionTable(config, chain.n)))
  }

  /** The state behaviour names: slot k - 1 from `StateBehaviour<k>`. */
  function StateNames(config: ConfigMap, n: nat): (states: seq<string>)
    ensures |states| == n
    ensures forall k | 1 <= k <= n :: states[k - 1] == NameOrNull(config, StateKey(k))
  {
    seq(n, k requires 0 <= k < n => NameOrNull(config, StateKey(k + 1)))
  }

  /** The n-by-n table of transition slots. */
  function TransitionTable(config: ConfigMap, n: nat): (table: seq<seq<Option<string>>>)
    ensures |table| == n && forall i | 0 <= i < n :: |table[i]| == n
    ensures forall i, j | 0 <= i < n && 0 <= j < n :: table[i][j] == TransitionSlot(config, i, j)
  {
    seq(n, i requires 0 <= i < n => seq(n, j requires 0 <= j < n => TransitionSlot(config, i, j)))
  }

  /** startBehaviour: the chain is initialised, the behaviour of its first
      state is started, and the thread sleeps for the first sojourn. A chain
      without states fails on the array access. The result carries the
      cursor, the start event, and whether the program exited because sleep
      was handed a negative number of milliseconds; that exit comes after
      the first state's behaviour has been started. */
  function StartBehaviour(s: Scheduler, u: real, logDraw: real): (r: Result<(Cursor, seq<Event>, bool)>)
    requires Valid(s) && logDraw <= 0.0
    ensures r.Ok? <==> 0 < s.chain.n
    ensures r.Ok? ==> Init(s.chain, u, logDraw) == Ok(r.value.0)
    ensures r.Ok? ==> r.value.1 == [Start(r.value.0.state)]
    ensures r.Ok? ==> (r.value.2 <==> r.value.0.sample <= -1.0)
  {
    var cur :- Init(s.chain, u, logDraw);
    Ok((cur, [Start(cur.state)], TruncateToInt64(cur.sample) < 0))
  }

  function BehaveEvents(s: Scheduler, i: nat, j: nat): seq<Event>
    requires Valid(s) && i < s.chain.n && j < s.chain.n
  {
    if s.transitions[i][j].Some? then [Behave(i, j)] else []
  }

  /** One iteration of run: stop the current state's behaviour, let the
      chain jump, run the transition behaviour if that slot is filled, start
      the new state's behaviour. */
  function Step(s: Scheduler, cur: Cursor, u: real, logDraw: real): (r: (Cursor, seq<Event>))
    requires Valid(s) && cur.state < s.chain.n && logDraw <= 0.0
    ensures r.0 == NextState(s.chain, cur, u, logDraw) && r.0.state < s.chain.n
    ensures r.1 == [Stop(cur.state)] + BehaveEvents(s, cur.state, r.0.state) + [Start(r.0.state)]
    ensures 2 <= |r.1| <= 3 && r.1[0] == Stop(cur.state) && r.1[|r.1| - 1] == Start(r.0.state)
    ensures |r.1| == 3 <==> s.transitions[cur.state][r.0.state].Some?
    ensures |r.1| == 3 ==> r.1[1] == Behave(cur.state, r.0.state)
  {
    var next := NextState(s.chain, cur, u, logDraw);
    (next, [Stop(cur.state)] + BehaveEvents(s, cur.state, next.state) + [Start(next.state)])
  }

  /** A step whose transition slot is empty emits just the stop and the
      start. */
  lemma StepWithEmptySlot(s: Scheduler, cur: Cursor, u: real, logDraw: real)
    requires Valid(s) && cur.state < s.chain.n && logDraw <= 0.0
    requires s.transitions[cur.state][NextState(s.chain, cur, u, logDraw).state].None?
    ensures Step(s, cur, u, logDraw).1 == [Stop(cur.state), Start(NextState(s.chain, cur, u, logDraw).state)]
  {
  }

  /** A jump from a state to itself stops and restarts the state's behaviour
      and runs no transition behaviour, since configure never fills the
      diagonal. */
  lemma SelfJumpHasNoBehave(config: ConfigMap, files: string -> ConfigMap, loads: string -> bool,
                            s: Scheduler, cur: Cursor, u: real, logDraw: real)
    requires Configure(config, files, loads) == Ok(s)
    requires cur.state < s.chain.n && logDraw <= 0.0
    requires NextState(s.chain, cur, u, logDraw).state == cur.state
    ensures Step(s, cur, u, logDraw).1 == [Stop(cur.state), Start(cur.state)]
  {
    ConfiguredSlot(config, files, loads, s, cur.state, cur.state);
    StepWithEmptySlot(s, cur, u, logDraw);
  }

  /** A configured scheduler's transition slot, read back from the keys. */
  lemma ConfiguredSlot(config: ConfigMap, files: string -> ConfigMap, loads: string -> bool,
                       s: Scheduler, i: nat, j: nat)
    requires Configure(config, files, loads) == Ok(s)
    requires i < s.chain.n && j < s.chain.n
    ensures Valid(s) && s.transitions[i][j] == TransitionSlot(config, i, j)
  {
  }

  /** A jump into an empty slot (a self-jump, or a pair whose transition key
      is absent) runs no transition behaviour. */
  lemma EmptySlotHasNoBehave(config: ConfigMap, files: string -> ConfigMap, loads: string -> bool,
                             s: Scheduler, cur: Cursor, u: real, logDraw: real)
    requires Configure(config, files, loads) == Ok(s)
    requires cur.state < s.chain.n && logDraw <= 0.0
    requires TransitionSlot(config, cur.state, NextState(s.chain, cur, u, logDraw).state).None?
    ensures Step(s, cur, u, logDraw).1 == [Stop(cur.state), Start(NextState(s.chain, cur, u, logDraw).state)]
  {
    ConfiguredSlot(config, files, loads, s, cur.state, NextState(s.chain, cur, u, logDraw).state);
    StepWithEmptySlot(s, cur, u, logDraw);
  }

  /** What one pass of the loop sees: the global exit flag, and the draws
      the chain consumes for its jump and its sojourn sample. */
  datatype Tick = Tick(exitRequested: bool, u: real, logDraw: real)

  predicate ValidTicks(ticks: seq<Tick>) {
    forall k | 0 <= k < |ticks| :: ticks[k].logDraw <= 0.0
  }

  /** run: iterations until the exit flag is seen set; the final cursor,
      the events emitted, and whether the program exited because the sleep
      of a pass was handed a negative number of milliseconds. That exit
      comes right after the pass has started the new state's behaviour. */
  function Run(s: Scheduler, cur: Cursor, ticks: seq<Tick>): (r: (Cursor, seq<Event>, bool))
    requires Valid(s) && cur.state < s.chain.n && ValidTicks(ticks)
    ensures r.0.state < s.chain.n
    ensures r.2 ==> r.0.sample <= -1.0 && 0 < |r.1| && r.1[|r.1| - 1] == Start(r.0.state)
    ensures !r.2 && 0 < |r.1| ==> -1.0 < r.0.sample
    decreases |ticks|
  {
    if |ticks| == 0 || ticks[0].exitRequested then (cur, [], false)
    else
      var step := Step(s, cur, ticks[0].u, ticks[0].logDraw);
      if TruncateToInt64(step.0.sample) < 0 then (step.0, step.1, true)
      else
        var rest := Run(s, step.0, ticks[1..]);
        (rest.0, step.1 + rest.1, rest.2)
  }

  /** Replays a trace against the rule that at most one state behaviour is
      running: a start needs none running, a stop must name the running one,
      and a transition behaviour runs between them. The result is the
      running state at the end, or None at the first event that breaks the
      rule. */
  function Replay(events: seq<Event>, running: Option<nat>): Option<Option<nat>>
    decreases |events|
  {
    if |events| == 0 then Some(running)
    else match events[0]
      case Start(x) => if running.None? then Replay(events[1..], Some(x)) else None
      case Stop(x) => if running == Some(x) then Replay(events[1..], None) else None
      case Behave(_, _) => if running.None? then Replay(events[1..], running) else None
  }

  lemma {:induction false} ReplayAppend(a: seq<Event>, b: seq<Event>, running: Option<nat>)
    ensures Replay(a + b, running) ==
      match Replay(a, running) case None => None case Some(r) => Replay(b, r)
    decreases |a|
  {
    if |a| > 0 {
      assert (a + b)[1..] == a[1..] + b;
      assert (a + b)[0] == a[0];
      match a[0]
      case Start(x) => ReplayAppend(a[1..], b, Some(x));
      case Stop(x) => ReplayAppend(a[1..], b, None);
      case Behave(_, _) => ReplayAppend(a[1..], b, running);
    } else {
      assert a + b == b;
    }
  }

  /** One iteration stops the running state, and leaves the new one running. */
  lemma StepIsBracketed(s: Scheduler, cur: Cursor, u: real, logDraw: real)
    requires Valid(s) && cur.state < s.chain.n && logDraw <= 0.0
    ensures Replay(Step(s, cur, u, logDraw).1, Some(cur.state)) == Some(Some(Step(s, cur, u, logDraw).0.state))
  {
    var (next, events) := Step(s, cur, u, logDraw);
    var b := BehaveEvents(s, cur.state, next.state);
    assert events == [Stop(cur.state)] + (b + [Start(next.state)]);
    ReplayAppend([Stop(cur.state)], b + [Start(next.state)], Some(cur.state));
    ReplayAppend(b, [Start(next.state)], None);
    assert Replay([Stop(cur.state)], Some(cur.state)) == Some(None);
    assert Replay(b, None) == Some(None);
    assert Replay([Start(next.state)], None) == Some(Some(next.state));
  }

  /** Every stop in the loop names the state most recently started, and the
      loop ends with the last state it entered running. */
  lemma {:induction false} RunIsBracketed(s: Scheduler, cur: Cursor, ticks: seq<Tick>)
    requires Valid(s) && cur.state < s.chain.n && ValidTicks(ticks)
    ensures Replay(Run(s, cur, ticks).1, Some(cur.state)) == Some(Some(Run(s, cur, ticks).0.state))
    decreases |ticks|
  {
    if |ticks| > 0 && !ticks[0].exitRequested {
      var step := Step(s, cur, ticks[0].u, ticks[0].logDraw);
      ValidTicksTail(ticks);
      StepIsBracketed(s, cur, ticks[0].u, ticks[0].logDraw);
      if TruncateToInt64(step.0.sample) >= 0 {
        var rest := Run(s, step.0, ticks[1..]);
        RunIsBracketed(s, step.0, ticks[1..]);
        ReplayAppend(step.1, rest.1, Some(cur.state));
      }
    }
  }

  /** From startBehaviour on, the whole trace keeps to the rule: the first
      event is a start with no stop before it. */
  lemma StartThenRunIsBracketed(s: Scheduler, u: real, logDraw: real, ticks: seq<Tick>)
    requires Valid(s) && logDraw <= 0.0 && ValidTicks(ticks)
    requires StartBehaviour(s, u, logDraw).Ok? && !StartBehaviour(s, u, logDraw).value.2
    ensures var (cur, started, _) := StartBehaviour(s, u, logDraw).value;
      Replay(started + Run(s, cur, ticks).1, None) == Some(Some(Run(s, cur, ticks).0.state))
  {
    var (cur, started, _) := StartBehaviour(s, u, logDraw).value;
    RunIsBracketed(s, cur, ticks);
    ReplayAppend(started, Run(s, cur, ticks).1, None);
  }

  /** The number of passes before the exit flag is first seen set. */
  function FirstExit(ticks: seq<Tick>): (k: nat)
    ensures k <= |ticks|
    ensures forall i | 0 <= i < k :: !ticks[i].exitRequested
    ensures k < |ticks| ==> ticks[k].exitRequested
    decreases |ticks|
  {
    if |ticks| == 0 || ticks[0].exitRequested then 0
    else
      var k := 1 + FirstExit(ticks[1..]);
      assert forall i | 1 <= i < k :: ticks[i] == ticks[1..][i - 1];
      k
  }

  function CountStops(events: seq<Event>): nat
    decreases |events|
  {
    if |events| == 0 then 0 else (if events[0].Stop? then 1 else 0) + CountStops(events[1..])
  }

  lemma {:induction false} CountStopsAppend(a: seq<Event>, b: seq<Event>)
    ensures CountStops(a + b) == CountStops(a) + CountStops(b)
    decreases |a|
  {
    if |a| > 0 {
      assert (a + b)[1..] == a[1..] + b;
      CountStopsAppend(a[1..], b);
    } else {
      assert a + b == b;
    }
  }

  lemma ValidTicksTail(ticks: seq<Tick>)
    requires ValidTicks(ticks) && 0 < |ticks|
    ensures ValidTicks(ticks[1..])
  {
    forall i | 0 <= i < |ticks| - 1 ensures ticks[1..][i].logDraw <= 0.0 {
      assert ticks[1..][i] == ticks[i + 1];
    }
  }

  /** The cursors the chain moves through, one per pass until the exit flag
      is first seen set, whatever the sojourns: the path run would follow if
      sleep accepted any time. Each pass jumps from the previous cursor. */
  function Trajectory(s: Scheduler, cur: Cursor, ticks: seq<Tick>): (path: seq<Cursor>)
    requires Valid(s) && cur.state < s.chain.n && ValidTicks(ticks)
    ensures |path| == FirstExit(ticks)
    ensures forall k | 0 <= k < |path| :: path[k].state < s.chain.n
    ensures 0 < |path| ==> path[0] == NextState(s.chain, cur, ticks[0].u, ticks[0].logDraw)
    ensures forall k | 0 < k < |path| :: path[k] == NextState(s.chain, path[k - 1], ticks[k].u, ticks[k].logDraw)
    decreases |ticks|
  {
    if |ticks| == 0 || ticks[0].exitRequested then []
    else
      ValidTicksTail(ticks);
      var next := NextState(s.chain, cur, ticks[0].u, ticks[0].logDraw);
      var rest := Trajectory(s, next, ticks[1..]);
      assert forall k | 0 < k < 1 + |rest| :: ticks[k] == ticks[1..][k - 1];
      [next] + rest
  }

  /** The index of the first cursor whose sojourn is -1 ms or less, or the
      length of the path when there is none. */
  function FirstNegative(path: seq<Cursor>): (k: nat)
    ensures k <= |path|
    ensures forall i | 0 <= i < k :: -1.0 < path[i].sample
    ensures k < |path| ==> path[k].sample <= -1.0
    decreases |path|
  {
    if |path| == 0 || path[0].sample <= -1.0 then 0
    else
      var k := 1 + FirstNegative(path[1..]);
      assert forall i | 1 <= i < k :: path[i] == path[1..][i - 1];
      k
  }

  /** The loop follows the chain's path until the exit flag is seen set, and
      the program exits exactly when some pass on that path draws a sojourn
      of -1 ms or less: at the first such pass, with every earlier pass
      above -1 ms. Otherwise the loop ends on the path's last cursor. */
  lemma {:induction false} RunFollowsTrajectory(s: Scheduler, cur: Cursor, ticks: seq<Tick>)
    requires Valid(s) && cur.state < s.chain.n && ValidTicks(ticks)
    ensures var path := Trajectory(s, cur, ticks);
      && (Run(s, cur, ticks).2 <==> FirstNegative(path) < |path|)
      && (Run(s, cur, ticks).2 ==> Run(s, cur, ticks).0 == path[FirstNegative(path)])
      && (!Run(s, cur, ticks).2 ==> Run(s, cur, ticks).0 == if |path| == 0 then cur else path[|path| - 1])
    decreases |ticks|
  {
    if |ticks| > 0 && !ticks[0].exitRequested {
      ValidTicksTail(ticks);
      var next := NextState(s.chain, cur, ticks[0].u, ticks[0].logDraw);
      var path := Trajectory(s, cur, ticks);
      var rest := Trajectory(s, next, ticks[1..]);
      assert path == [next] + rest;
      if -1.0 < next.sample {
        assert path[1..] == rest;
        RunFollowsTrajectory(s, next, ticks[1..]);
      }
    }
  }

  /** A pass stops exactly one behaviour. */
  lemma StepStopsOnce(s: Scheduler, cur: Cursor, u: real, logDraw: real)
    requires Valid(s) && cur.state < s.chain.n && logDraw <= 0.0
    ensures CountStops(Step(s, cur, u, logDraw).1) == 1
  {
    var step := Step(s, cur, u, logDraw);
    var b := BehaveEvents(s, cur.state, step.0.state);
    assert step.1 == [Stop(cur.state)] + (b + [Start(step.0.state)]);
    CountStopsAppend([Stop(cur.state)], b + [Start(step.0.state)]);
    CountStopsAppend(b, [Start(step.0.state)]);
  }

  /** The loop makes one pass, one stop, per tick before the exit flag is
      first seen set, and exactly that many unless a negative sleep ends the
      program first; ticks after it are never consumed. */
  lemma {:induction false} RunStopsAtExit(s: Scheduler, cur: Cursor, ticks: seq<Tick>)
    requires Valid(s) && cur.state < s.chain.n && ValidTicks(ticks)
    ensures CountStops(Run(s, cur, ticks).1) <= FirstExit(ticks)
    ensures !Run(s, cur, ticks).2 ==> CountStops(Run(s, cur, ticks).1) == FirstExit(ticks)
    ensures Run(s, cur, ticks).2 ==> 0 < CountStops(Run(s, cur, ticks).1)
    ensures ValidTicks(ticks[..FirstExit(ticks)])
    ensures Run(s, cur, ticks) == Run(s, cur, ticks[..FirstExit(ticks)])
    decreases |ticks|
  {
    var k := FirstExit(ticks);
    assert ValidTicks(ticks[..k]) by {
      forall i | 0 <= i < k ensures ticks[..k][i].logDraw <= 0.0 {
        assert ticks[..k][i] == ticks[i];
      }
    }
    if |ticks| > 0 && !ticks[0].exitRequested {
      var step := Step(s, cur, ticks[0].u, ticks[0].logDraw);
      ValidTicksTail(ticks);
      RunStopsAtExit(s, step.0, ticks[1..]);
      CountStopsAppend(step.1, Run(s, step.0, ticks[1..]).1);
      StepStopsOnce(s, cur, ticks[0].u, ticks[0].logDraw);
      assert ticks[..k][0] == ticks[0];
      assert ticks[..k][1..] == ticks[1..][..FirstExit(ticks[1..])];
    } else {
      assert ticks[..k] == [];
    }
  }

  /** A chain with no positive intensity, as rates and non-negative sojourn
      times give, never hands sleep a negative time: startBehaviour succeeds
      on any chain with states, and the loop ends only on the exit flag. */
  lemma {:induction false} NonPositiveIntensitiesNeverExit(s: Scheduler, cur: Cursor, ticks: seq<Tick>, u: real, logDraw: real)
    requires Valid(s) && cur.state < s.chain.n && ValidTicks(ticks) && logDraw <= 0.0
    requires forall i | 0 <= i < s.chain.n :: s.chain.intensities[i] <= 0.0
    ensures 0 < s.chain.n ==> StartBehaviour(s, u, logDraw).Ok? && !StartBehaviour(s, u, logDraw).value.2
    ensures !Run(s, cur, ticks).2
    decreases |ticks|
  {
    if |ticks| > 0 && !ticks[0].exitRequested {
      var step := Step(s, cur, ticks[0].u, ticks[0].logDraw);
      ValidTicksTail(ticks);
      NonPositiveIntensitiesNeverExit(s, step.0, ticks[1..], u, logDraw);
    }
  }

  /** stopBehaviour: stop is called on every state behaviour, in index order,
      whichever state is running. */
  method StopBehaviour(s: Scheduler) returns (events: seq<Event>)
    ensures |events| == |s.states|
    ensures forall i | 0 <= i < |events| :: events[i] == Stop(i)
    ensures CountStops(events) == |s.states|
  {
    events := [];
    var i := 0;
    while i < |s.states|
      invariant 0 <= i <= |s.states|
      invariant |events| == i
      invariant forall k | 0 <= k < i :: events[k] == Stop(k)
      invariant CountStops(events) == i
    {
      CountStopsAppend(events, [Stop(i)]);
      events := events + [Stop(i)];
      i := i + 1;
    }
  }
}
