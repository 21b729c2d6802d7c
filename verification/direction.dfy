/** DirectionTypeProcess: the direction of a data transfer, "OUT" with the
    send probability and "IN" with the receive probability. The draw of
    prng.nextDouble() is the parameter `u`.
 */
module Direction {
  import opened Outcomes
  import opened JavaText
  import opened Config
  import opened Sampling

  datatype Split = Split(send: real, recv: real)

  const Directions: seq<string> := ["OUT", "IN"]

  /** DirectionTypeProcess.configure: both keys required; a value that is
      not a number throws; a negative probability, or two that do not sum
      to one, exits. */
  function Configure(config: ConfigMap): (r: Result<Split>)
    ensures "sendProbability" !in config || "recvProbability" !in config ==> r.Fatal?
    ensures r.Ok? ==>
      && "sendProbability" in config && "recvProbability" in config
      && ParseDouble(config["sendProbability"]) == Some(r.value.send)
      && ParseDouble(config["recvProbability"]) == Some(r.value.recv)
    ensures r.Ok? ==> Stochastic([r.value.send, r.value.recv])
    ensures "sendProbability" in config && "recvProbability" in config
      && ParseDouble(config["sendProbability"]).Some? && ParseDouble(config["recvProbability"]).Some?
      ==> (r.Ok? <==> Valid(ParseDouble(config["sendProbability"]).value, ParseDouble(config["recvProbability"]).value))
  {
    if "sendProbability" !in config || "recvProbability" !in config then Fatal("Incomplete configuration.") else
    Checked(ParseDouble(config["sendProbability"]), ParseDouble(config["recvProbability"]))
  }

  /** The check on the two parsed probabilities. */
  function Checked(send: Option<real>, recv: Option<real>): (r: Result<Split>)
    ensures r.Ok? <==> send.Some? && recv.Some? && Valid(send.value, recv.value)
    ensures r.Ok? ==> r.value == Split(send.value, recv.value) && Stochastic([r.value.send, r.value.recv])
  {
    var s :- FromOption(send, "NumberFormatException");
    var t :- FromOption(recv, "NumberFormatException");
    :- Need(Valid(s, t), "Invalid probabilities");
    assert PrefixSum([s, t], 1) == s;
    assert PrefixSum([s, t], 2) == s + t;
    Ok(Split(s, t))
  }

  predicate Valid(send: real, recv: real) {
    !(send < 0.0 || recv < 0.0 || send + recv != 1.0)
  }

  /** getSample. */
  function GetSample(d: Split, u: real): (dir: string)
    ensures dir == Directions[DiscreteRandom(u, [d.send, d.recv])]
    ensures dir == "OUT" || dir == "IN"
    ensures Valid(d.send, d.recv) && 0.0 <= u ==> (dir == "OUT" <==> u <= d.send)
  {
    assert PrefixSum([d.send, d.recv], 1) == d.send;
    Directions[DiscreteRandom(u, [d.send, d.recv])]
  }

  /** The direction is "OUT" exactly when the draw does not exceed the send
      probability, and "IN" otherwise: so a uniform draw in [0, 1) gives
      "OUT" with the send probability. */
  lemma OutExactlyBelowSend(d: Split, u: real)
    requires Valid(d.send, d.recv) && 0.0 <= u
    ensures GetSample(d, u) == "OUT" <==> u <= d.send
    ensures GetSample(d, u) == "IN" <==> d.send < u
  {
    var p := [d.send, d.recv];
    assert PrefixSum(p, 1) == d.send;
    var i := DiscreteRandom(u, p);
    assert i == 0 <==> u <= d.send;
  }
}
