/** PickAddress: a sampler of destination addresses that tries the
    configured addresses either in list order or at random, and falls back
    to a fixed address when none resolves within `maxAttempts` tries.

    Name resolution is the `resolves` parameter; the i-th value drawn by
    prng.nextInt(numAddresses) is `draw(i) % numAddresses`, with `draw` a
    parameter; the command-line flags are the parameter `flags`.
 */
module PickAddress {
  import opened Outcomes
  import opened JavaText
  import opened Config
  import opened NetAddress

  /** The address table holds the configured addresses at 0 .. num - 1 and
      the fallback at index num, with the ports alongside. */
  datatype Picker = Picker(
    num: nat, addresses: seq<string>, ports: seq<int>,
    random: bool, maxAttempts: int, dryRun: bool, allIP: bool)

  predicate Valid(p: Picker) {
    |p.addresses| == p.num + 1 && |p.ports| == p.num + 1
  }

  function AddressKey(i: nat): string {
    "address" + NatToString(i)
  }

  function PortKey(i: nat): string {
    "port" + NatToString(i)
  }

  const Required: seq<string> := ["numAddresses", "random", "maxAttempts", "fallbackAddress", "fallbackPort", "dryRun"]

  /** The optional names the class declares. */
  const DeclaredOptional: seq<string> := ["allIP", "requireDoRiskyStuff"]

  /** The optional names the configure code reads. */
  const ReadOptional: seq<string> := ["noReverseLookup", "requiredFlag"]

  /** The address and port tables: address<i> and port<i> for every i below
      num, then the fallback; a missing key or a port that is not an
      integer is fatal. */
  function ReadTable(config: ConfigMap, num: nat): (r: Result<(seq<string>, seq<int>)>)
    requires "fallbackAddress" in config && "fallbackPort" in config
    ensures (exists i | 0 <= i < num :: AddressKey(i) !in config || PortKey(i) !in config) ==> r.Fatal?
    ensures r.Ok? <==>
      && (forall i | 0 <= i < num :: AddressKey(i) in config && PortKey(i) in config && ParseInt(config[PortKey(i)]).Some?)
      && ParseInt(config["fallbackPort"]).Some?
    ensures r.Ok? ==> |r.value.0| == num + 1 && |r.value.1| == num + 1
    ensures r.Ok? ==> forall i | 0 <= i < num ::
      && AddressKey(i) in config && PortKey(i) in config
      && r.value.0[i] == config[AddressKey(i)]
      && Some(r.value.1[i]) == ParseInt(config[PortKey(i)])
    ensures r.Ok? ==> r.value.0[num] == config["fallbackAddress"]
    ensures r.Ok? ==> Some(r.value.1[num]) == ParseInt(config["fallbackPort"])
  {
    if !(forall i | 0 <= i < num :: AddressKey(i) in config && PortKey(i) in config) then Fatal("Incomplete configuration.") else
    var pieces := seq(num, i requires 0 <= i < num => config[PortKey(i)]);
    var ports :- FromOption(ParseEach(pieces, ParseInt), "NumberFormatException");
    var fallbackPort :- FromOption(ParseInt(config["fallbackPort"]), "NumberFormatException");
    assert forall i | 0 <= i < num :: pieces[i] == config[PortKey(i)] && ParseInt(pieces[i]).Some?;
    Ok((seq(num, i requires 0 <= i < num => config[AddressKey(i)]) + [config["fallbackAddress"]], ports + [fallbackPort]))
  }

  /** configure up to the optional names: the required keys, the tables
      (an array size numAddresses + 1 that is negative or overflows is
      fatal), random and maxAttempts; allIP keeps its initial false and
      dryRun is the `dryRun` key. */
  function ReadRequired(config: ConfigMap): (r: Result<Picker>)
    ensures !CheckConfigRequired(config, Required) ==> r.Fatal?
    ensures CheckConfigRequired(config, Required) ==>
      (r.Ok? <==> && ParseInt(config["numAddresses"]).Some?
                  && 0 <= ParseInt(config["numAddresses"]).value < IntMax
                  && ReadTable(config, ParseInt(config["numAddresses"]).value as nat).Ok?
                  && ParseInt(config["maxAttempts"]).Some?)
    ensures r.Ok? ==> Valid(r.value) && !r.value.allIP
    ensures r.Ok? ==> CheckConfigRequired(config, Required)
    ensures r.Ok? ==> Some(r.value.num) == ParseInt(config["numAddresses"])
    ensures r.Ok? ==> ReadTable(config, r.value.num) == Ok((r.value.addresses, r.value.ports))
    ensures r.Ok? ==> r.value.random == ParseBoolean(config["random"])
    ensures r.Ok? ==> Some(r.value.maxAttempts) == ParseInt(config["maxAttempts"])
    ensures r.Ok? ==> r.value.dryRun == ParseBoolean(config["dryRun"])
  {
    if !CheckConfigRequired(config, Required) then Fatal("Incomplete configuration.") else
    var count :- FromOption(ParseInt(config["numAddresses"]), "NumberFormatException");
    :- Need(0 <= count && Wrap32(count + 1) == count + 1, "array size out of range");
    var table :- ReadTable(config, count as nat);
    var maxAttempts :- FromOption(ParseInt(config["maxAttempts"]), "NumberFormatException");
    Ok(Picker(count as nat, table.0, table.1, ParseBoolean(config["random"]), maxAttempts, ParseBoolean(config["dryRun"]), false))
  }

  /** configure, with the list of optional names handed to
      checkConfigOptional as a parameter: `noReverseLookup` sets allIP and a
      `requiredFlag` (trimmed) missing from the flags forces a dry run, but
      each only when checkConfigOptional reports the name as present. */
  function ConfigureWith(config: ConfigMap, flags: set<string>, optional: seq<string>): (r: Result<Picker>)
    ensures r.Ok? <==> ReadRequired(config).Ok?
    ensures r.Ok? ==> Valid(r.value)
    ensures r.Ok? ==> r.value.(allIP := false, dryRun := ParseBoolean(config["dryRun"])) == ReadRequired(config).value
    ensures r.Ok? ==> (r.value.allIP <==>
      "noReverseLookup" in CheckConfigOptional(config, optional) && ParseBoolean(config["noReverseLookup"]))
    ensures r.Ok? ==> (r.value.dryRun <==>
      ParseBoolean(config["dryRun"]) ||
      ("requiredFlag" in CheckConfigOptional(config, optional) && Trim(config["requiredFlag"]) !in flags))
  {
    var base :- ReadRequired(config);
    var present := CheckConfigOptional(config, optional);
    var allIP := "noReverseLookup" in present && ParseBoolean(config["noReverseLookup"]);
    var dryRun := base.dryRun || ("requiredFlag" in present && Trim(config["requiredFlag"]) !in flags);
    Ok(base.(allIP := allIP, dryRun := dryRun))
  }

  /** PickAddress.configure as written: the optional names it checks are
      the declared ones, so neither `noReverseLookup` nor `requiredFlag` is
      ever seen present. */
  function Configure(config: ConfigMap, flags: set<string>): (r: Result<Picker>)
    ensures r == ConfigureWith(config, flags, DeclaredOptional)
    ensures r == ReadRequired(config)
    ensures r.Ok? ==> !r.value.allIP && r.value.dryRun == ParseBoolean(config["dryRun"])
  {
    RequiredFlagIgnored(config, flags);
    ConfigureWith(config, flags, DeclaredOptional)
  }

  /** configure as evidently intended: the optional names are the ones the
      code reads. */
  function ConfigureIntended(config: ConfigMap, flags: set<string>): (r: Result<Picker>)
    ensures r == ConfigureWith(config, flags, ReadOptional)
    ensures r.Ok? <==> ReadRequired(config).Ok?
    ensures r.Ok? ==> (r.value.allIP <==> "noReverseLookup" in config && ParseBoolean(config["noReverseLookup"]))
    ensures r.Ok? ==> (r.value.dryRun <==>
      ParseBoolean(config["dryRun"]) || ("requiredFlag" in config && Trim(config["requiredFlag"]) !in flags))
  {
    var present := CheckConfigOptional(config, ReadOptional);
    assert "noReverseLookup" in present <==> "noReverseLookup" in config;
    assert "requiredFlag" in present <==> "requiredFlag" in config;
    ConfigureWith(config, flags, ReadOptional)
  }

  /** As written, the command-line flags and the optional keys make no
      difference: allIP stays false and dryRun is the `dryRun` key alone. */
  lemma RequiredFlagIgnored(config: ConfigMap, flags: set<string>)
    ensures ConfigureWith(config, flags, DeclaredOptional) == ReadRequired(config)
  {
    var present := CheckConfigOptional(config, DeclaredOptional);
    assert "requiredFlag" !in present && "noReverseLookup" !in present;
  }

  /** With the intended names, a `requiredFlag` that is not among the flags
      forces a dry run, and one that is leaves the `dryRun` key in charge. */
  lemma RequiredFlagHonoured(config: ConfigMap, flags: set<string>)
    requires ConfigureIntended(config, flags).Ok?
    requires "requiredFlag" in config
    ensures Trim(config["requiredFlag"]) !in flags ==> ConfigureIntended(config, flags).value.dryRun
    ensures Trim(config["requiredFlag"]) in flags ==>
      ConfigureIntended(config, flags).value.dryRun == ParseBoolean(config["dryRun"])
  {
    assert "requiredFlag" in CheckConfigOptional(config, ReadOptional);
  }

  /** A configuration that asks for the flag `risky`. */
  const FlagExample: ConfigMap := map[
    "numAddresses" := "0", "random" := "false", "maxAttempts" := "1",
    "fallbackAddress" := "localhost", "fallbackPort" := "80", "dryRun" := "false",
    "requiredFlag" := "risky"]

  lemma FlagExampleReads()
    ensures ReadRequired(FlagExample).Ok? && !ReadRequired(FlagExample).value.dryRun
  {
    FlagExampleValues();
    FlagExampleTable();
    assert ParseInt(FlagExample["numAddresses"]) == Some(0) && ParseInt(FlagExample["maxAttempts"]) == Some(1) by {
      NumeralsParse();
    }
    assert Wrap32(0 + 1) == 1;
    assert !ParseBoolean(FlagExample["dryRun"]) by {
      AllLowerLetters("false");
    }
  }

  lemma FlagExampleTable()
    ensures ReadTable(FlagExample, 0).Ok?
  {
    FlagExampleValues();
    NumeralsParse();
  }

  lemma FlagExampleValues()
    ensures CheckConfigRequired(FlagExample, Required)
    ensures && FlagExample["numAddresses"] == "0" && FlagExample["maxAttempts"] == "1"
            && FlagExample["fallbackPort"] == "80" && FlagExample["dryRun"] == "false"
            && FlagExample["random"] == "false"
  {
    assert forall k | k in Required :: k in FlagExample;
  }

  /** The discrepancy, on a concrete configuration: the required flag
      `risky` is not given, yet the picker as written is not a dry run. */
  lemma RequiredFlagCounterexample()
    ensures Configure(FlagExample, {}).Ok? && !Configure(FlagExample, {}).value.dryRun
    ensures ConfigureIntended(FlagExample, {}).Ok? && ConfigureIntended(FlagExample, {}).value.dryRun
  {
    FlagExampleReads();
    RequiredFlagIgnored(FlagExample, {});
    assert "requiredFlag" in FlagExample;
    RequiredFlagHonoured(FlagExample, {});
  }

  lemma NumeralsParse()
    ensures ParseInt("0") == Some(0) && ParseInt("1") == Some(1) && ParseInt("80") == Some(80)
  {
    assert DigitsValue("0") == 0;
    assert DigitsValue("1") == 1;
    assert DigitsValue("8") == 8;
    assert "80"[..1] == "8";
    assert DigitsValue("80") == 80;
  }

  lemma AllLowerLetters(s: string)
    requires forall i | 0 <= i < |s| :: 'a' <= s[i] <= 'z'
    ensures Trim(s) == s
  {
    if 0 < |s| {
      assert !IsTrimmable(s[0]) && !IsTrimmable(s[|s| - 1]);
    }
    assert DropWhileStart(s, IsTrimmable) == s;
    assert DropWhileEnd(s, IsTrimmable) == s;
  }

  // ---------------------------------------------------------------------
  // getSample
  // ---------------------------------------------------------------------

  /** getAddress(j, checkDryRun). */
  function GetAddress(p: Picker, j: nat, checkDryRun: bool, resolves: string -> bool): (l: Lookup)
    requires Valid(p) && j <= p.num
    ensures checkDryRun && p.dryRun ==> l == NotFound
    ensures !(checkDryRun && p.dryRun) && !p.allIP ==> l == GetByName(p.addresses[j], resolves)
    ensures !(checkDryRun && p.dryRun) && p.allIP ==> (l.Crash? <==> ReadOctets(p.addresses[j]).None?)
  {
    if checkDryRun && p.dryRun then NotFound
    else if !p.allIP then GetByName(p.addresses[j], resolves)
    else GetByDottedText(p.addresses[j])
  }

  /** The end of both pickers: the fallback, looked up without the dry-run
      check, with the fallback port; fatal if it does not resolve. */
  function Fallback(p: Picker, resolves: string -> bool): (r: Result<InternetAddress>)
    requires Valid(p)
    ensures r.Ok? <==> GetAddress(p, p.num, false, resolves).Found?
    ensures r.Ok? ==> r.value == InternetAddress(GetAddress(p, p.num, false, resolves).host, p.ports[p.num])
  {
    match GetAddress(p, p.num, false, resolves)
    case Found(h) => Ok(InternetAddress(h, p.ports[p.num]))
    case _ => Fatal("Could not resolve fallback address.")
  }

  /** `a` is entry j of the table (a configured address, or the fallback at
      index num), found by a lookup without the dry-run check, with entry
      j's port. */
  predicate IsEntry(p: Picker, a: InternetAddress, resolves: string -> bool)
    requires Valid(p)
  {
    exists j | 0 <= j <= p.num :: GetAddress(p, j, false, resolves) == Found(a.host) && a.port == p.ports[j]
  }

  lemma FallbackIsEntry(p: Picker, resolves: string -> bool)
    requires Valid(p)
    ensures Fallback(p, resolves).Ok? ==> IsEntry(p, Fallback(p, resolves).value, resolves)
  {
    if Fallback(p, resolves).Ok? {
      assert GetAddress(p, p.num, false, resolves) == Found(Fallback(p, resolves).value.host);
    }
  }

  /** The number of leading indices of `order` whose lookup finds nothing. */
  function Misses(p: Picker, order: seq<nat>, resolves: string -> bool): (k: nat)
    requires Valid(p) && forall i | 0 <= i < |order| :: order[i] <= p.num
    ensures k <= |order|
    ensures forall i | 0 <= i < k :: GetAddress(p, order[i], true, resolves).NotFound?
    ensures k < |order| ==> !GetAddress(p, order[k], true, resolves).NotFound?
    decreases |order|
  {
    if |order| == 0 || !GetAddress(p, order[0], true, resolves).NotFound? then 0
    else
      var k := 1 + Misses(p, order[1..], resolves);
      assert forall i | 1 <= i < k :: order[i] == order[1..][i - 1];
      k
  }

  /** The attempt loop shared by both pickers, given the indices it tries:
      the first index whose lookup finds an address is returned with its
      own port; the fallback when every try finds nothing. */
  function Attempts(p: Picker, order: seq<nat>, resolves: string -> bool): (r: Result<InternetAddress>)
    requires Valid(p) && forall i | 0 <= i < |order| :: order[i] <= p.num
    ensures var k := Misses(p, order, resolves);
      && (k == |order| ==> r == Fallback(p, resolves))
      && (k < |order| && GetAddress(p, order[k], true, resolves).Found? ==>
            r == Ok(InternetAddress(GetAddress(p, order[k], true, resolves).host, p.ports[order[k]])))
      && (k < |order| && GetAddress(p, order[k], true, resolves).Crash? ==> r.Fatal?)
    decreases |order|
  {
    if |order| == 0 then Fallback(p, resolves)
    else match GetAddress(p, order[0], true, resolves)
      case Found(h) => Ok(InternetAddress(h, p.ports[order[0]]))
      case Crash => Fatal("NumberFormatException")
      case NotFound =>
        assert forall i | 0 <= i < |order| - 1 :: order[1..][i] == order[i + 1];
        Attempts(p, order[1..], resolves)
  }

  /** Whatever the order, an address the attempt loop returns is a table
      entry that resolves, with its own port. */
  lemma {:induction false} AttemptsPicksEntry(p: Picker, order: seq<nat>, resolves: string -> bool)
    requires Valid(p) && forall i | 0 <= i < |order| :: order[i] <= p.num
    ensures Attempts(p, order, resolves).Ok? ==> IsEntry(p, Attempts(p, order, resolves).value, resolves)
    decreases |order|
  {
    if |order| == 0 {
      FallbackIsEntry(p, resolves);
    } else {
      match GetAddress(p, order[0], true, resolves)
      case Found(h) =>
        assert GetAddress(p, order[0], false, resolves) == Found(h);
      case Crash =>
      case NotFound =>
        assert forall i | 0 <= i < |order| - 1 :: order[1..][i] == order[i + 1];
        AttemptsPicksEntry(p, order[1..], resolves);
    }
  }

  /** The index sequentialAddress tries on pass i: it starts at 0 and moves
      on by one, rolling over to 0 when it reaches numAddresses. */
  function SequentialIndex(i: nat, num: nat): (j: nat)
    ensures j <= num
    ensures num == 0 ==> j == 0
  {
    if i == 0 then 0
    else
      var j := SequentialIndex(i - 1, num) + 1;
      if j >= num then 0 else j
  }

  /** With at least one address, pass i tries index i mod numAddresses. */
  lemma {:induction false} SequentialIndexIsModulo(i: nat, num: nat)
    requires 0 < num
    ensures SequentialIndex(i, num) == i % num
  {
    if i > 0 {
      SequentialIndexIsModulo(i - 1, num);
      var r := (i - 1) % num;
      assert SequentialIndex(i, num) == if r + 1 >= num then 0 else r + 1;
      ModAddOne(i - 1, num);
      if r + 1 >= num {
        ModUnique(r + 1, num, 1, 0);
      } else {
        ModUnique(r + 1, num, 0, r + 1);
      }
    }
  }

  function AttemptCount(p: Picker): nat {
    if p.maxAttempts < 0 then 0 else p.maxAttempts
  }

  /** The indices sequentialAddress tries, one per attempt. */
  function SequentialOrder(p: Picker): (order: seq<nat>)
    ensures |order| == AttemptCount(p)
    ensures forall i | 0 <= i < |order| :: order[i] == SequentialIndex(i, p.num) && order[i] <= p.num
  {
    seq(AttemptCount(p), i requires 0 <= i < AttemptCount(p) => SequentialIndex(i, p.num))
  }

  /** sequentialAddress: the attempts, then the fallback. With no addresses
      (numAddresses 0) every attempt looks up index 0, which is the
      fallback entry itself. */
  function SequentialAddress(p: Picker, resolves: string -> bool): (r: Result<InternetAddress>)
    requires Valid(p)
    ensures r == Attempts(p, SequentialOrder(p), resolves)
    ensures p.dryRun || p.maxAttempts <= 0 ==> r == Fallback(p, resolves)
    ensures r.Ok? ==> IsEntry(p, r.value, resolves)
  {
    AttemptsPicksEntry(p, SequentialOrder(p), resolves);
    Attempts(p, SequentialOrder(p), resolves)
  }

  /** randomAddress: nextInt(numAddresses) throws when numAddresses is 0 and
      a try is made. */
  function RandomAddress(p: Picker, draw: nat -> nat, resolves: string -> bool): (r: Result<InternetAddress>)
    requires Valid(p)
    ensures p.num == 0 && 0 < p.maxAttempts ==> r.Fatal?
    ensures 0 < p.num ==> r == Attempts(p, RandomOrder(p, draw), resolves)
    ensures (p.dryRun || p.maxAttempts <= 0) && !(p.num == 0 && 0 < p.maxAttempts) ==> r == Fallback(p, resolves)
    ensures r.Ok? ==> IsEntry(p, r.value, resolves)
  {
    if p.num == 0 then
      if 0 < p.maxAttempts then Fatal("IllegalArgumentException") else FallbackIsEntry(p, resolves); Fallback(p, resolves)
    else
      AttemptsPicksEntry(p, RandomOrder(p, draw), resolves);
      Attempts(p, RandomOrder(p, draw), resolves)
  }

  /** The indices randomAddress tries: every one is in [0, numAddresses). */
  function RandomOrder(p: Picker, draw: nat -> nat): (order: seq<nat>)
    requires Valid(p) && 0 < p.num
    ensures |order| == AttemptCount(p)
    ensures forall i | 0 <= i < |order| :: order[i] < p.num && order[i] == draw(i) % p.num
  {
    seq(AttemptCount(p), i requires 0 <= i < AttemptCount(p) => draw(i) % p.num)
  }

  /** getSample: random or sequential according to `random`. */
  function GetSample(p: Picker, draw: nat -> nat, resolves: string -> bool): (r: Result<InternetAddress>)
    requires Valid(p)
    ensures p.random ==> r == RandomAddress(p, draw, resolves)
    ensures !p.random ==> r == SequentialAddress(p, resolves)
    ensures r.Ok? ==> IsEntry(p, r.value, resolves)
    ensures (p.dryRun || p.maxAttempts <= 0) && !(p.random && p.num == 0 && 0 < p.maxAttempts) ==> r == Fallback(p, resolves)
    ensures p.random && p.num == 0 && 0 < p.maxAttempts ==> r.Fatal?
  {
    if p.random then RandomAddress(p, draw, resolves) else SequentialAddress(p, resolves)
  }

  /** In sequential mode with at least one address, the passes walk the
      list round-robin: pass i tries index i mod numAddresses. */
  lemma SequentialOrderRoundRobin(p: Picker)
    requires 0 < p.num
    ensures forall i | 0 <= i < |SequentialOrder(p)| :: SequentialOrder(p)[i] == i % p.num
  {
    forall i | 0 <= i < |SequentialOrder(p)| ensures SequentialOrder(p)[i] == i % p.num {
      SequentialIndexIsModulo(i, p.num);
    }
  }

  /** Looking names up (no dry run, no allIP), sequential mode returns the
      entry of the first pass whose name resolves, with its own port, and
      the fallback when no pass resolves. */
  lemma SequentialPicksFirstResolvable(p: Picker, resolves: string -> bool)
    requires Valid(p) && 0 < p.num && !p.dryRun && !p.allIP
    ensures var k := Misses(p, SequentialOrder(p), resolves);
      && (forall i | 0 <= i < k :: !resolves(p.addresses[i % p.num]))
      && (k < AttemptCount(p) ==>
            resolves(p.addresses[k % p.num]) &&
            SequentialAddress(p, resolves) == Ok(InternetAddress(ByName(p.addresses[k % p.num]), p.ports[k % p.num])))
      && (k == AttemptCount(p) ==> SequentialAddress(p, resolves) == Fallback(p, resolves))
  {
    var order := SequentialOrder(p);
    var k := Misses(p, order, resolves);
    SequentialOrderRoundRobin(p);
    forall i | 0 <= i < k ensures !resolves(p.addresses[i % p.num]) {
      assert GetAddress(p, order[i], true, resolves) == GetByName(p.addresses[order[i]], resolves);
    }
    if k < |order| {
      assert GetAddress(p, order[k], true, resolves) == GetByName(p.addresses[order[k]], resolves);
    }
  }

  /** With dryRun set, no list entry is ever looked up, and the result is the
      fallback (unless randomAddress has no addresses to draw from). */
  lemma DryRunGivesFallback(p: Picker, draw: nat -> nat, resolves: string -> bool)
    requires Valid(p) && p.dryRun
    requires !(p.random && p.num == 0 && 0 < p.maxAttempts)
    ensures GetSample(p, draw, resolves) == Fallback(p, resolves)
  {
    if p.random && p.num > 0 {
      assert Misses(p, RandomOrder(p, draw), resolves) == AttemptCount(p);
    } else if !p.random {
      assert Misses(p, SequentialOrder(p), resolves) == AttemptCount(p);
    }
  }

  /** With maxAttempts at most 0 the fallback is returned at once. */
  lemma NoAttemptsGivesFallback(p: Picker, draw: nat -> nat, resolves: string -> bool)
    requires Valid(p) && p.maxAttempts <= 0
    ensures GetSample(p, draw, resolves) == Fallback(p, resolves)
  {
  }

  /** A fallback address that does not resolve is fatal once every try has
      failed. */
  lemma UnresolvableFallbackIsFatal(p: Picker, draw: nat -> nat, resolves: string -> bool)
    requires Valid(p) && !p.allIP && !resolves(p.addresses[p.num])
    ensures Fallback(p, resolves).Fatal?
  {
  }
}
