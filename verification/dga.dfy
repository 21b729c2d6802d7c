/** Dga1Address: a domain-generation algorithm. Every sample draws up to
    maxAttempts candidate names from a generator seeded with the current
    second, and returns the first one that resolves, else the fallback; a
    sample is reused while it is younger than cacheTime.

    The generator `new Random(seed)` is the parameter `stream`: its k-th raw
    draw is stream(seed)(k), and nextInt(bound) is that draw mod bound.
    Clock readings are parameters in milliseconds since the epoch, name
    resolution is `resolves`, the command-line flags are `flags`.
 */
module Dga {
  import opened Outcomes
  import opened JavaText
  import opened Config
  import opened NetAddress

  datatype Generator = Generator(
    suffixes: seq<string>, port: int, length: int, maxAttempts: int, characters: string,
    fallback: InternetAddress, dryRun: bool, cacheTime: int,
    previous: Option<InternetAddress>, previousTime: int)

  const Required: seq<string> := ["suffixes", "length", "maxAttempts", "characters", "fallbackAddress", "dryRun"]

  /** cacheTime as written: seconds times 1000 in 32-bit arithmetic. */
  function CacheMillis(seconds: int): (ms: int)
    ensures InInt32(ms) && (ms - seconds * 1000) % TwoTo32 == 0
    ensures InInt32(seconds * 1000) ==> ms == seconds * 1000
  {
    Wrap32(seconds * 1000)
  }

  /** cacheTime as evidently intended: seconds times 1000, without
      wrap-around (previousSampleTime + cacheTime is a long). */
  function CacheMillisIntended(seconds: int): (ms: int)
    ensures 0 <= seconds ==> 0 <= ms
    ensures ms / 1000 == seconds
  {
    seconds * 1000
  }

  /** Dga1Address.configure, with the conversion of cacheTime to
      milliseconds as a parameter. The port is not among the required keys
      but parseInt of a missing port throws, so it is needed all the same;
      requiredFlag is compared untrimmed. */
  function ConfigureWith(config: ConfigMap, flags: set<string>, resolves: string -> bool, millis: int -> int): (r: Result<Generator>)
    ensures !CheckConfigRequired(config, Required) || "port" !in config ==> r.Fatal?
    ensures r.Ok? <==>
      && CheckConfigRequired(config, Required) && "port" in config
      && ParseInt(config["port"]).Some? && ParseInt(config["length"]).Some? && ParseInt(config["maxAttempts"]).Some?
      && resolves(config["fallbackAddress"])
      && ("cacheTime" in config ==> ParseInt(config["cacheTime"]).Some?)
    ensures r.Ok? ==> CheckConfigRequired(config, Required) && "port" in config
    ensures r.Ok? ==> r.value.suffixes == SplitWhitespace(config["suffixes"]) && r.value.characters == config["characters"]
    ensures r.Ok? ==>
      && ParseInt(config["port"]) == Some(r.value.port)
      && ParseInt(config["length"]) == Some(r.value.length)
      && ParseInt(config["maxAttempts"]) == Some(r.value.maxAttempts)
    ensures r.Ok? ==> resolves(config["fallbackAddress"]) && r.value.fallback == InternetAddress(ByName(config["fallbackAddress"]), r.value.port)
    ensures r.Ok? ==> (r.value.dryRun <==>
      ParseBoolean(config["dryRun"]) || ("requiredFlag" in config && config["requiredFlag"] !in flags))
    ensures r.Ok? ==> "cacheTime" !in config ==> r.value.cacheTime == -1
    ensures r.Ok? ==> "cacheTime" in config ==>
      ParseInt(config["cacheTime"]).Some? && r.value.cacheTime == millis(ParseInt(config["cacheTime"]).value)
    ensures r.Ok? ==> r.value.previous == None && r.value.previousTime == 0
  {
    if !CheckConfigRequired(config, Required) then Fatal("Incomplete configuration.") else
    :- Need("port" in config, "NumberFormatException");
    var port :- FromOption(ParseInt(config["port"]), "NumberFormatException");
    var length :- FromOption(ParseInt(config["length"]), "NumberFormatException");
    var maxAttempts :- FromOption(ParseInt(config["maxAttempts"]), "NumberFormatException");
    var fallback :- FromOption(Resolved(config["fallbackAddress"], port, resolves), "UnknownHostException");
    var dryRun := ParseBoolean(config["dryRun"]) || ("requiredFlag" in config && config["requiredFlag"] !in flags);
    var cacheTime :-
      if "cacheTime" in config then
        var seconds :- FromOption(ParseInt(config["cacheTime"]), "NumberFormatException");
        Ok(millis(seconds))
      else Ok(-1);
    Ok(Generator(SplitWhitespace(config["suffixes"]), port, length, maxAttempts, config["characters"],
                 fallback, dryRun, cacheTime, None, 0))
  }

  /** new InternetAddress(InetAddress.getByName(name), port), or None on an
      UnknownHostException. */
  function Resolved(name: string, port: int, resolves: string -> bool): (a: Option<InternetAddress>)
    ensures a.Some? <==> resolves(name)
    ensures a.Some? ==> a.value == InternetAddress(ByName(name), port)
  {
    match GetByName(name, resolves)
    case Found(h) => Some(InternetAddress(h, port))
    case _ => None
  }

  /** Dga1Address.configure as written. */
  function Configure(config: ConfigMap, flags: set<string>, resolves: string -> bool): (r: Result<Generator>)
    ensures r == ConfigureWith(config, flags, resolves, CacheMillis)
    ensures r.Ok? ==> InInt32(r.value.cacheTime)
    ensures r.Ok? && "cacheTime" in config ==>
      (r.value.cacheTime - ParseInt(config["cacheTime"]).value * 1000) % TwoTo32 == 0
  {
    ConfigureWith(config, flags, resolves, CacheMillis)
  }

  /** configure as evidently intended: it succeeds on the same
      configurations, and differs only in a cache time that is the exact
      number of milliseconds. */
  function ConfigureIntended(config: ConfigMap, flags: set<string>, resolves: string -> bool): (r: Result<Generator>)
    ensures r == ConfigureWith(config, flags, resolves, CacheMillisIntended)
    ensures r.Ok? <==> Configure(config, flags, resolves).Ok?
    ensures r.Ok? ==> r.value == Configure(config, flags, resolves).value.(cacheTime := r.value.cacheTime)
    ensures r.Ok? && "cacheTime" in config ==>
      r.value.cacheTime == ParseInt(config["cacheTime"]).value * 1000
      && (0 <= ParseInt(config["cacheTime"]).value ==> 0 <= r.value.cacheTime)
  {
    ConfigureWith(config, flags, resolves, CacheMillisIntended)
  }

  /** A cache time of 2147484 seconds, under 25 days, wraps to -2147483296
      milliseconds. Then no sample is ever served from the cache: a call
      made after the previous sample was stored is outside the cache
      window, so it draws again and stores its own time. */
  lemma CacheTimeWraps(config: ConfigMap, flags: set<string>, resolves: string -> bool,
                       g: Generator, stream: int -> nat -> nat, seed: nat, check: nat, after: nat,
                       seed2: nat, check2: nat, after2: nat)
    requires Configure(config, flags, resolves) == Ok(g)
    requires "cacheTime" in config && ParseInt(config["cacheTime"]) == Some(2147484)
    requires GetSample(g, stream, resolves, seed, check, after).Ok?
    requires after <= check2
    ensures g.cacheTime == -2147483296 && CacheMillisIntended(2147484) == 2147484000
    ensures check >= g.previousTime + g.cacheTime
    ensures var first := GetSample(g, stream, resolves, seed, check, after).value.1;
      && first.previousTime == after
      && check2 >= first.previousTime + first.cacheTime
      && (GetSample(first, stream, resolves, seed2, check2, after2).Ok? ==>
            GetSample(first, stream, resolves, seed2, check2, after2).value.1.previousTime == after2)
  {
    assert g.cacheTime == Wrap32(2147484000);
    ModUnique(2147484000 - IntMin, TwoTo32, 1, 352);
    assert Wrap32(2147484000) == -2147483296;
  }

  // ---------------------------------------------------------------------
  // Candidate names
  // ---------------------------------------------------------------------

  /** The number of characters drawn per name: none when length <= 0. */
  function NameLength(g: Generator): nat {
    if g.length < 0 then 0 else g.length
  }

  function AttemptCount(g: Generator): nat {
    if g.maxAttempts < 0 then 0 else g.maxAttempts
  }

  /** nextInt(0) throws: an empty character set with names of positive
      length, or no suffix at all. */
  predicate CannotDraw(g: Generator) {
    (0 < NameLength(g) && |g.characters| == 0) || |g.suffixes| == 0
  }

  /** The name of trial t: NameLength characters, each drawn from the
      character set, then a suffix; each trial takes NameLength + 1 draws. */
  function Candidate(g: Generator, draw: nat -> nat, t: nat): (name: string)
    requires !CannotDraw(g)
    ensures |name| >= NameLength(g)
    ensures forall i | 0 <= i < NameLength(g) :: name[i] in g.characters
    ensures exists k | 0 <= k < |g.suffixes| :: name == name[..NameLength(g)] + g.suffixes[k]
  {
    var base := t * (NameLength(g) + 1);
    var prefix := seq(NameLength(g), i requires 0 <= i < NameLength(g) => g.characters[draw(base + i) % |g.characters|]);
    var k := draw(base + NameLength(g)) % |g.suffixes|;
    assert (prefix + g.suffixes[k])[..NameLength(g)] == prefix;
    prefix + g.suffixes[k]
  }

  /** Trial t succeeds: not a dry run, and its name resolves. */
  predicate Hit(g: Generator, draw: nat -> nat, resolves: string -> bool, t: nat)
    requires !CannotDraw(g)
  {
    !g.dryRun && resolves(Candidate(g, draw, t))
  }

  /** The first successful trial from t on, if any before maxAttempts. */
  function FirstHit(g: Generator, draw: nat -> nat, resolves: string -> bool, t: nat): (h: Option<nat>)
    requires !CannotDraw(g)
    ensures h.Some? ==> t <= h.value < AttemptCount(g) && Hit(g, draw, resolves, h.value)
    ensures h.Some? ==> forall k | t <= k < h.value :: !Hit(g, draw, resolves, k)
    ensures h.None? ==> forall k | t <= k < AttemptCount(g) :: !Hit(g, draw, resolves, k)
    decreases AttemptCount(g) - t
  {
    if t >= AttemptCount(g) then None
    else if Hit(g, draw, resolves, t) then Some(t)
    else FirstHit(g, draw, resolves, t + 1)
  }

  /** The trial loop of getSample, as the while loop with its break. */
  method SearchLoop(g: Generator, draw: nat -> nat, resolves: string -> bool) returns (hit: Option<nat>)
    requires !CannotDraw(g)
    ensures hit.Some? ==> hit.value < AttemptCount(g) && Hit(g, draw, resolves, hit.value)
    ensures hit.Some? ==> forall k | 0 <= k < hit.value :: !Hit(g, draw, resolves, k)
    ensures hit.None? ==> forall k | 0 <= k < AttemptCount(g) :: !Hit(g, draw, resolves, k)
    ensures hit == FirstHit(g, draw, resolves, 0)
  {
    var trial := 0;
    hit := None;
    while trial < g.maxAttempts
      invariant 0 <= trial && (0 < trial ==> trial <= AttemptCount(g))
      invariant forall k | 0 <= k < trial :: !Hit(g, draw, resolves, k)
      invariant FirstHit(g, draw, resolves, 0) == FirstHit(g, draw, resolves, trial)
      decreases g.maxAttempts - trial
    {
      var name := Candidate(g, draw, trial);
      if !g.dryRun && resolves(name) {
        hit := Some(trial);
        return;
      }
      trial := trial + 1;
    }
  }

  /** Dga1Address.getSample. `nowSeed`, `nowCheck` and `nowAfter` are the
      three clock readings (seed, cache test, time stamp). A sample within
      the cache window is the previous one (null before the first); a
      nextInt(0) throws; otherwise the first resolving name with the
      configured port, else the fallback, which becomes the cached sample. */
  function GetSample(g: Generator, stream: int -> nat -> nat, resolves: string -> bool,
                     nowSeed: nat, nowCheck: nat, nowAfter: nat): (r: Result<(Option<InternetAddress>, Generator)>)
    ensures nowCheck < g.previousTime + g.cacheTime ==> r == Ok((g.previous, g))
    ensures nowCheck >= g.previousTime + g.cacheTime && 0 < AttemptCount(g) && CannotDraw(g) ==> r.Fatal?
    ensures r.Ok? && nowCheck >= g.previousTime + g.cacheTime ==>
      && r.value.0.Some?
      && r.value.1 == g.(previous := r.value.0, previousTime := nowAfter)
    ensures r.Ok? && nowCheck >= g.previousTime + g.cacheTime && 0 < AttemptCount(g) ==>
      !CannotDraw(g) &&
      var h := FirstHit(g, stream(nowSeed / 1000), resolves, 0);
      r.value.0 == Some(if h.Some? then InternetAddress(ByName(Candidate(g, stream(nowSeed / 1000), h.value)), g.port) else g.fallback)
    ensures AttemptCount(g) == 0 && nowCheck >= g.previousTime + g.cacheTime ==> r == Ok((Some(g.fallback), g.(previous := Some(g.fallback), previousTime := nowAfter)))
  {
    if nowCheck < g.previousTime + g.cacheTime then Ok((g.previous, g))
    else if AttemptCount(g) == 0 then Ok((Some(g.fallback), g.(previous := Some(g.fallback), previousTime := nowAfter)))
    else if CannotDraw(g) then Fatal("IllegalArgumentException")
    else
      var draw := stream(nowSeed / 1000);
      var ret :=
        match FirstHit(g, draw, resolves, 0)
        case Some(t) => InternetAddress(ByName(Candidate(g, draw, t)), g.port)
        case None => g.fallback;
      Ok((Some(ret), g.(previous := Some(ret), previousTime := nowAfter)))
  }

  /** Two generators with the same settings that sample in the same second
      (outside the cache window) return the same address: the names depend
      on the second alone. */
  lemma SameSecondSameAddress(g: Generator, stream: int -> nat -> nat, resolves: string -> bool,
                              seed1: nat, seed2: nat, nowCheck: nat, after1: nat, after2: nat)
    requires seed1 / 1000 == seed2 / 1000 && nowCheck >= g.previousTime + g.cacheTime
    ensures GetSample(g, stream, resolves, seed1, nowCheck, after1).Ok? <==> GetSample(g, stream, resolves, seed2, nowCheck, after2).Ok?
    ensures GetSample(g, stream, resolves, seed1, nowCheck, after1).Ok? ==>
      GetSample(g, stream, resolves, seed1, nowCheck, after1).value.0 == GetSample(g, stream, resolves, seed2, nowCheck, after2).value.0
  {
  }

  /** On a dry run no name is looked up and the sample is the fallback. */
  lemma DryRunGivesFallback(g: Generator, stream: int -> nat -> nat, resolves: string -> bool,
                            nowSeed: nat, nowCheck: nat, nowAfter: nat)
    requires g.dryRun && nowCheck >= g.previousTime + g.cacheTime && !CannotDraw(g)
    ensures GetSample(g, stream, resolves, nowSeed, nowCheck, nowAfter).Ok?
    ensures GetSample(g, stream, resolves, nowSeed, nowCheck, nowAfter).value.0 == Some(g.fallback)
  {
    assert FirstHit(g, stream(nowSeed / 1000), resolves, 0).None?;
  }

  /** With the intended conversion and a cache time of s >= 0 seconds, a
      sample taken less than s seconds after the first one is that same
      sample (the first clock reading being at least s seconds past the
      epoch, so that the first sample is not served from the empty cache). */
  lemma CacheServesRecentSample(config: ConfigMap, flags: set<string>, resolves: string -> bool,
                                g: Generator, stream: int -> nat -> nat, seed: nat, check: nat, after: nat,
                                seed2: nat, check2: nat, after2: nat)
    requires ConfigureIntended(config, flags, resolves) == Ok(g)
    requires "cacheTime" in config && ParseInt(config["cacheTime"]).Some? && 0 <= ParseInt(config["cacheTime"]).value
    requires ParseInt(config["cacheTime"]).value * 1000 <= check
    requires GetSample(g, stream, resolves, seed, check, after).Ok?
    requires after <= check2 < after + ParseInt(config["cacheTime"]).value * 1000
    ensures var first := GetSample(g, stream, resolves, seed, check, after).value;
      first.0.Some? && GetSample(first.1, stream, resolves, seed2, check2, after2) == Ok(first)
  {
    assert g.cacheTime == ParseInt(config["cacheTime"]).value * 1000 && g.previousTime == 0;
  }
}
