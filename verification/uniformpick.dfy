/** UniformRandomPickAddress: every configured address is resolved once, at
    configure time, and getSample draws one of them uniformly. Name
    resolution is the `resolves` parameter and prng.nextInt(length) is
    `draw % length`, with the raw draw a parameter.
 */
module UniformPick {
  import opened Outcomes
  import opened JavaText
  import opened Config
  import opened NetAddress

  function AddressKey(i: nat): string {
    "address" + NatToString(i)
  }

  function PortKey(i: nat): string {
    "port" + NatToString(i)
  }

  /** The resolved address of entry i, fatal when the name does not resolve
      or the port is not an integer (both caught and turned into an exit). */
  function ResolveEntry(config: ConfigMap, i: nat, resolves: string -> bool): (r: Result<InternetAddress>)
    requires AddressKey(i) in config && PortKey(i) in config
    ensures r.Ok? <==> resolves(config[AddressKey(i)]) && ParseInt(config[PortKey(i)]).Some?
    ensures r.Ok? ==> r.value == InternetAddress(ByName(config[AddressKey(i)]), ParseInt(config[PortKey(i)]).value)
  {
    match GetByName(config[AddressKey(i)], resolves)
    case Found(h) =>
      var port :- FromOption(ParseInt(config[PortKey(i)]), "NumberFormatException");
      Ok(InternetAddress(h, port))
    case _ => Fatal("UnknownHostException")
  }

  /** Entries lo .. num - 1, resolved in order. */
  function ResolveFrom(config: ConfigMap, lo: nat, num: nat, resolves: string -> bool): (r: Result<seq<InternetAddress>>)
    requires lo <= num
    requires forall i | lo <= i < num :: AddressKey(i) in config && PortKey(i) in config
    ensures r.Ok? <==> forall i | lo <= i < num :: ResolveEntry(config, i, resolves).Ok?
    ensures r.Ok? ==> |r.value| == num - lo
    ensures r.Ok? ==> forall i | lo <= i < num :: r.value[i - lo] == ResolveEntry(config, i, resolves).value
    decreases num - lo
  {
    if lo == num then Ok([])
    else
      var first :- ResolveEntry(config, lo, resolves);
      var rest :- ResolveFrom(config, lo + 1, num, resolves);
      Ok([first] + rest)
  }

  /** UniformRandomPickAddress.configure: numAddresses is required and must
      not be negative; every address<i> and port<i> below it is required. */
  function Configure(config: ConfigMap, resolves: string -> bool): (r: Result<seq<InternetAddress>>)
    ensures "numAddresses" !in config ==> r.Fatal?
    ensures r.Ok? <==>
      && "numAddresses" in config && ParseInt(config["numAddresses"]).Some? && 0 <= ParseInt(config["numAddresses"]).value
      && forall i | 0 <= i < ParseInt(config["numAddresses"]).value ::
           && AddressKey(i) in config && PortKey(i) in config
           && resolves(config[AddressKey(i)]) && ParseInt(config[PortKey(i)]).Some?
    ensures r.Ok? ==> "numAddresses" in config && ParseInt(config["numAddresses"]) == Some(|r.value|)
    ensures r.Ok? ==> forall i | 0 <= i < |r.value| ::
      && AddressKey(i) in config && PortKey(i) in config
      && ResolveEntry(config, i, resolves) == Ok(r.value[i])
    ensures "numAddresses" in config && ParseInt(config["numAddresses"]).Some? && ParseInt(config["numAddresses"]).value >= 0 &&
      (exists i | 0 <= i < ParseInt(config["numAddresses"]).value :: AddressKey(i) !in config || PortKey(i) !in config)
      ==> r.Fatal?
  {
    if "numAddresses" !in config then Fatal("Incomplete configuration.") else
    var count :- FromOption(ParseInt(config["numAddresses"]), "NumberFormatException");
    :- Need(0 <= count, "NegativeArraySizeException");
    var num := count as nat;
    :- Need(forall i | 0 <= i < num :: AddressKey(i) in config && PortKey(i) in config, "Incomplete configuration.");
    var table :- ResolveFrom(config, 0, num, resolves);
    assert forall i | 0 <= i < num :: table[i] == table[i - 0];
    assert forall i | 0 <= i < num ::
      ResolveEntry(config, i, resolves).Ok? && resolves(config[AddressKey(i)]) && ParseInt(config[PortKey(i)]).Some?;
    Ok(table)
  }

  /** getSample: nextInt(0) throws when the table is empty. */
  function GetSample(addresses: seq<InternetAddress>, draw: nat): (r: Result<InternetAddress>)
    ensures r.Ok? <==> |addresses| > 0
    ensures r.Ok? ==> r.value == addresses[draw % |addresses|]
  {
    if |addresses| == 0 then Fatal("IllegalArgumentException") else Ok(addresses[draw % |addresses|])
  }

  /** Every configured entry can be drawn (draw i gives entry i), and each
      is the resolved name of address<i> with port<i>. */
  lemma EveryEntryReachable(config: ConfigMap, resolves: string -> bool, table: seq<InternetAddress>, i: nat)
    requires Configure(config, resolves) == Ok(table) && i < |table|
    ensures AddressKey(i) in config && PortKey(i) in config && resolves(config[AddressKey(i)])
    ensures GetSample(table, i) == Ok(table[i])
    ensures table[i].host == ByName(config[AddressKey(i)]) && ParseInt(config[PortKey(i)]) == Some(table[i].port)
  {
    ConfiguredEntry(config, resolves, table, i);
    EntryMeaning(config, resolves, i, table[i]);
    DrawBelowLength(table, i);
  }

  lemma DrawBelowLength(table: seq<InternetAddress>, i: nat)
    requires i < |table|
    ensures GetSample(table, i) == Ok(table[i])
  {
  }

  lemma ConfiguredEntry(config: ConfigMap, resolves: string -> bool, table: seq<InternetAddress>, i: nat)
    requires Configure(config, resolves) == Ok(table) && i < |table|
    ensures AddressKey(i) in config && PortKey(i) in config
    ensures ResolveEntry(config, i, resolves) == Ok(table[i])
  {
  }

  lemma EntryMeaning(config: ConfigMap, resolves: string -> bool, i: nat, a: InternetAddress)
    requires AddressKey(i) in config && PortKey(i) in config
    requires ResolveEntry(config, i, resolves) == Ok(a)
    ensures resolves(config[AddressKey(i)])
    ensures a.host == ByName(config[AddressKey(i)]) && ParseInt(config[PortKey(i)]) == Some(a.port)
  {
  }
}
