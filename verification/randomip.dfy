/** RandomIPAddress: a random address that agrees with a configured address
    wherever a configured mask has a 1 bit, with the other bits random:
    (random AND NOT mask) OR (address AND mask). The bytes prng.nextBytes
    fills in are the parameter `rand` (byte i is rand(i)).
 */
module RandomIp {
  import opened Outcomes
  import opened JavaText
  import opened Config
  import opened NetAddress

  /** The configured address already ANDed with the mask, the negated mask,
      the port, the dry-run switch and the fallback. */
  datatype Generator = Generator(address: seq<bv8>, negmask: seq<bv8>, port: int, dryRun: bool, fallback: InternetAddress)

  /** The address has no bit set outside the mask. */
  predicate Valid(g: Generator) {
    && |g.address| <= |g.negmask|
    && forall i | 0 <= i < |g.address| :: g.address[i] & g.negmask[i] == 0
  }

  /** andOctets: byte-wise AND, as long as the first operand; the second must
      be at least as long or the array access fails. */
  function AndOctets(a: seq<bv8>, b: seq<bv8>): (r: Option<seq<bv8>>)
    ensures r.Some? <==> |a| <= |b|
    ensures r.Some? ==> |r.value| == |a| && forall i | 0 <= i < |a| :: r.value[i] == a[i] & b[i]
  {
    if |a| <= |b| then Some(seq(|a|, i requires 0 <= i < |a| => a[i] & b[i])) else None
  }

  /** orOctets, on operands of equal length. */
  function OrOctets(a: seq<bv8>, b: seq<bv8>): (r: seq<bv8>)
    requires |a| <= |b|
    ensures |r| == |a| && forall i | 0 <= i < |a| :: r[i] == a[i] | b[i]
  {
    seq(|a|, i requires 0 <= i < |a| => a[i] | b[i])
  }

  /** negOctets: every bit flipped. */
  function NegOctets(a: seq<bv8>): (r: seq<bv8>)
    ensures |r| == |a| && forall i | 0 <= i < |a| :: r[i] == !a[i]
  {
    seq(|a|, i requires 0 <= i < |a| => !a[i])
  }

  /** Negating twice gives the mask back. */
  lemma NegOctetsInvolution(a: seq<bv8>)
    ensures NegOctets(NegOctets(a)) == a
  {
  }

  const Required: seq<string> := ["mask", "address", "port", "dryRun", "fallbackAddress"]

  /** Every required key is present. */
  predicate HasRequired(config: ConfigMap) {
    && "mask" in config && "address" in config && "port" in config
    && "dryRun" in config && "fallbackAddress" in config
  }

  /** checkConfigRequired over the required keys holds exactly when each of
      them is present. */
  lemma RequiredKeys(config: ConfigMap)
    ensures CheckConfigRequired(config, Required) <==> HasRequired(config)
  {
  }

  /** RandomIPAddress.configure: every failure inside the try block (a field
      that is not an integer, a mask shorter than the address, a port that
      is not an integer, a fallback that is not 4 or 16 bytes) ends in an
      exit, as does a missing key. */
  function Configure(config: ConfigMap): (r: Result<Generator>)
    ensures !HasRequired(config) ==> r.Fatal?
    ensures r.Ok? <==>
      && HasRequired(config)
      && ReadOctets(config["mask"]).Some? && ReadOctets(config["address"]).Some?
      && |ReadOctets(config["address"]).value| <= |ReadOctets(config["mask"]).value|
      && ParseInt(config["port"]).Some?
      && GetByDottedText(config["fallbackAddress"]).Found?
    ensures r.Ok? ==> Valid(r.value)
    ensures r.Ok? ==>
      && ReadOctets(config["mask"]).Some? && ReadOctets(config["address"]).Some?
      && AndOctets(ReadOctets(config["address"]).value, ReadOctets(config["mask"]).value) == Some(r.value.address)
      && r.value.negmask == NegOctets(ReadOctets(config["mask"]).value)
      && ParseInt(config["port"]) == Some(r.value.port)
      && r.value.dryRun == ParseBoolean(config["dryRun"])
    ensures r.Ok? ==> GetByDottedText(config["fallbackAddress"]) == Found(r.value.fallback.host) && r.value.fallback.port == r.value.port
    ensures (&& HasRequired(config)
             && ReadOctets(config["mask"]).Some? && ReadOctets(config["address"]).Some?
             && |ReadOctets(config["mask"]).value| < |ReadOctets(config["address"]).value|) ==> r.Fatal?
  {
    RequiredKeys(config);
    if !CheckConfigRequired(config, Required) then Fatal("Incomplete configuration.") else
    if ReadOctets(config["mask"]).None? || ReadOctets(config["address"]).None? then Fatal("NumberFormatException") else
    var mask, raw := ReadOctets(config["mask"]).value, ReadOctets(config["address"]).value;
    if AndOctets(raw, mask).None? then Fatal("ArrayIndexOutOfBoundsException")
    else if ParseInt(config["port"]).None? then Fatal("NumberFormatException")
    else
      var address, port := AndOctets(raw, mask).value, ParseInt(config["port"]).value;
      MaskedAddressInsideMask(raw, mask);
      match GetByDottedText(config["fallbackAddress"])
      case Found(h) => Ok(Generator(address, NegOctets(mask), port, ParseBoolean(config["dryRun"]), InternetAddress(h, port)))
      case _ => Fatal("UnknownHostException")
  }

  /** The address a draw gives: the random bytes with the masked bits
      cleared, ORed with the masked address. */
  function Combine(g: Generator, rand: nat -> bv8): (octets: seq<bv8>)
    requires Valid(g)
    ensures |octets| == |g.address|
  {
    OrOctets(AndOctets(seq(|g.address|, i requires 0 <= i < |g.address| => rand(i)), g.negmask).value, g.address)
  }

  /** getSample: the fallback on a dry run or when the combined bytes are
      not an IPv4 or IPv6 address. */
  function GetSample(g: Generator, rand: nat -> bv8): (r: InternetAddress)
    requires Valid(g)
    ensures g.dryRun ==> r == g.fallback
    ensures !g.dryRun && (|g.address| == 4 || |g.address| == 16) ==> r == InternetAddress(ByAddress(Combine(g, rand)), g.port)
    ensures |g.address| != 4 && |g.address| != 16 ==> r == g.fallback
  {
    match GetByAddress(Combine(g, rand))
    case Found(h) => if g.dryRun then g.fallback else InternetAddress(h, g.port)
    case _ => g.fallback
  }

  /** The bits a mask byte selects come from the address, the others from
      the random byte. */
  lemma SelectBits(r: bv8, m: bv8, a: bv8)
    ensures ((r & !m) | (a & m)) & m == a & m
    ensures ((r & !m) | (a & m)) & !m == r & !m
  {
  }

  /** Under the mask, a draw agrees with the masked address; elsewhere with
      the random bytes. */
  lemma CombineSelects(g: Generator, rand: nat -> bv8, i: nat)
    requires Valid(g) && i < |g.address|
    ensures Combine(g, rand)[i] & !g.negmask[i] == g.address[i] & !g.negmask[i]
    ensures Combine(g, rand)[i] & g.negmask[i] == rand(i) & g.negmask[i]
  {
    CombineAt(g, rand, i);
    var x, n, a := rand(i), g.negmask[i], g.address[i];
    assert a & n == 0;
    CombineByte(x, n, a);
  }

  lemma CombineAt(g: Generator, rand: nat -> bv8, i: nat)
    requires Valid(g) && i < |g.address|
    ensures Combine(g, rand)[i] == (rand(i) & g.negmask[i]) | g.address[i]
  {
  }

  /** A generator configured with `mask` and `address` (as Configure
      builds it) draws an address that agrees with `address` wherever the
      mask has a 1 bit ... */
  lemma MaskedBitsFromAddress(g: Generator, mask: seq<bv8>, address: seq<bv8>, rand: nat -> bv8, i: nat)
    requires Valid(g) && AndOctets(address, mask) == Some(g.address) && g.negmask == NegOctets(mask)
    requires i < |g.address|
    ensures i < |mask| && i < |address|
    ensures Combine(g, rand)[i] & mask[i] == address[i] & mask[i]
  {
    GeneratorByte(g, mask, address, i);
    CombineSelects(g, rand, i);
    var c := Combine(g, rand)[i];
    MaskAlgebra(c, rand(i), mask[i], address[i], g.negmask[i]);
  }

  /** ... and with the random bytes wherever it has a 0 bit. */
  lemma OtherBitsFromDraw(g: Generator, mask: seq<bv8>, address: seq<bv8>, rand: nat -> bv8, i: nat)
    requires Valid(g) && AndOctets(address, mask) == Some(g.address) && g.negmask == NegOctets(mask)
    requires i < |g.address|
    ensures i < |mask|
    ensures Combine(g, rand)[i] & !mask[i] == rand(i) & !mask[i]
  {
    GeneratorByte(g, mask, address, i);
    CombineSelects(g, rand, i);
  }

  lemma GeneratorByte(g: Generator, mask: seq<bv8>, address: seq<bv8>, i: nat)
    requires Valid(g) && AndOctets(address, mask) == Some(g.address) && g.negmask == NegOctets(mask)
    requires i < |g.address|
    ensures i < |mask| && i < |address|
    ensures g.negmask[i] == !mask[i] && g.address[i] == address[i] & mask[i]
  {
  }

  lemma MaskAlgebra(c: bv8, r: bv8, m: bv8, a: bv8, n: bv8)
    requires n == !m
    requires c & !n == (a & m) & !n
    requires c & n == r & n
    ensures c & m == a & m
  {
  }

  /** The random bytes that are the bytes of `target`. */
  function BytesOf(target: seq<bv8>): (rand: nat -> bv8)
    ensures forall i | 0 <= i < |target| :: rand(i) == target[i]
  {
    (i: nat) => if i < |target| then target[i] else 0
  }

  /** Every address that agrees with the masked address under the mask is
      drawn by some choice of random bytes: the bytes of that address. */
  lemma EveryMatchingAddressReachable(g: Generator, target: seq<bv8>)
    requires Valid(g) && |target| == |g.address|
    requires forall i | 0 <= i < |target| :: target[i] & !g.negmask[i] == g.address[i]
    ensures Combine(g, BytesOf(target)) == target
  {
    var rand := BytesOf(target);
    forall i | 0 <= i < |target| ensures Combine(g, rand)[i] == target[i] {
      assert Combine(g, rand)[i] == (target[i] & g.negmask[i]) | g.address[i];
      SplitByMask(target[i], g.negmask[i]);
    }
  }

  lemma MaskedOutsideIsZero(a: bv8, m: bv8)
    ensures (a & m) & !m == 0
  {
  }

  lemma MaskedAddressInsideMask(raw: seq<bv8>, mask: seq<bv8>)
    requires |raw| <= |mask|
    ensures forall i | 0 <= i < |raw| :: AndOctets(raw, mask).value[i] & NegOctets(mask)[i] == 0
  {
    forall i | 0 <= i < |raw| ensures AndOctets(raw, mask).value[i] & NegOctets(mask)[i] == 0 {
      MaskedOutsideIsZero(raw[i], mask[i]);
    }
  }

  /** A mask of all ones fixes every bit: each draw is the configured
      address itself, whatever the random bytes. */
  lemma FullMaskGivesAddress(g: Generator, rand: nat -> bv8)
    requires Valid(g) && forall i | 0 <= i < |g.negmask| :: g.negmask[i] == 0
    ensures Combine(g, rand) == g.address
  {
    forall i | 0 <= i < |g.address| ensures Combine(g, rand)[i] == g.address[i] {
      assert Combine(g, rand)[i] == (rand(i) & g.negmask[i]) | g.address[i];
      OrZero(rand(i), g.address[i]);
    }
  }

  lemma OrZero(x: bv8, a: bv8)
    ensures (x & 0) | a == a
  {
  }

  lemma CombineByte(x: bv8, n: bv8, a: bv8)
    requires a & n == 0
    ensures ((x & n) | a) & !n == a & !n
    ensures ((x & n) | a) & n == x & n
  {
  }

  lemma SplitByMask(t: bv8, n: bv8)
    ensures (t & n) | (t & !n) == t
  {
  }
}
