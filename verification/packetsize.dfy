/** UniformRandomPacketSize: packet sizes drawn uniformly from [a, b]. The
    draw of prng.nextInt(limit) is `draw % limit`, with the raw draw a
    parameter; nextInt of a bound that is not positive throws.
 */
module PacketSize {
  import opened Outcomes
  import opened JavaText
  import opened Config

  /** The limits and the number of values between them, in 32-bit
      arithmetic. */
  datatype Sizes = Sizes(a: int, b: int, limit: int)

  /** UniformRandomPacketSize.setLimits: a > b exits; limit is (b - a) + 1
      with int wrap-around. */
  function SetLimits(a: int, b: int): (r: Result<Sizes>)
    requires InInt32(a) && InInt32(b)
    ensures r.Ok? <==> a <= b
    ensures r.Ok? ==> r.value.a == a && r.value.b == b
    ensures r.Ok? && b - a < IntMax ==> r.value.limit == b - a + 1
    ensures r.Ok? && b - a >= IntMax ==> r.value.limit <= 0
  {
    if a > b then Fatal("a > b") else
    Ok(Sizes(a, b, Wrap32(Wrap32(b - a) + 1)))
  }

  /** UniformRandomPacketSize.configure: both keys required, both integers. */
  function Configure(config: ConfigMap): (r: Result<Sizes>)
    ensures "lowerLimit" !in config || "upperLimit" !in config ==> r.Fatal?
    ensures r.Ok? <==> (&& "lowerLimit" in config && "upperLimit" in config
      && ParseInt(config["lowerLimit"]).Some? && ParseInt(config["upperLimit"]).Some?
      && ParseInt(config["lowerLimit"]).value <= ParseInt(config["upperLimit"]).value)
    ensures r.Ok? ==>
      && "lowerLimit" in config && "upperLimit" in config
      && ParseInt(config["lowerLimit"]) == Some(r.value.a) && ParseInt(config["upperLimit"]) == Some(r.value.b)
      && SetLimits(r.value.a, r.value.b) == Ok(r.value)
  {
    if "lowerLimit" !in config || "upperLimit" !in config then Fatal("Incomplete configuration.") else
    var a :- FromOption(ParseInt(config["lowerLimit"]), "NumberFormatException");
    var b :- FromOption(ParseInt(config["upperLimit"]), "NumberFormatException");
    SetLimits(a, b)
  }

  /** getSample: a + nextInt(limit). */
  function GetSample(s: Sizes, draw: nat): (r: Result<int>)
    requires InInt32(s.a)
    ensures r.Ok? <==> 0 < s.limit
    ensures r.Ok? ==> r.value == Wrap32(s.a + draw % s.limit)
  {
    if s.limit <= 0 then Fatal("IllegalArgumentException") else
    Ok(Wrap32(s.a + draw % s.limit))
  }

  /** Every sample lies in [a, b], and every value of [a, b] is the sample
      of some draw. */
  lemma SampleInRange(a: int, b: int, draw: nat)
    requires InInt32(a) && InInt32(b) && a <= b && b - a < IntMax
    ensures GetSample(SetLimits(a, b).value, draw).Ok?
    ensures a <= GetSample(SetLimits(a, b).value, draw).value <= b
  {
  }

  lemma EveryValueDrawn(a: int, b: int, x: int)
    requires InInt32(a) && InInt32(b) && a <= x <= b && b - a < IntMax
    ensures GetSample(SetLimits(a, b).value, x - a) == Ok(x)
  {
    assert (x - a) % (b - a + 1) == x - a;
  }

  /** A range of 2^31 values or more is accepted by setLimits, but then
      every getSample throws. */
  lemma WideRangeFails(a: int, b: int, draw: nat)
    requires InInt32(a) && InInt32(b) && a <= b && b - a >= IntMax
    ensures SetLimits(a, b).Ok? && GetSample(SetLimits(a, b).value, draw).Fatal?
  {
  }

  const Prefix: string := "UniformRandomPacketSize ["

  /** toString. */
  function ToString(s: Sizes): (text: string)
    ensures |text| > |Prefix| && text[..|Prefix|] == Prefix && text[|text| - 1] == ']'
  {
    Prefix + IntToString(s.a) + ", " + IntToString(s.b) + "]"
  }

  /** Reads the limits back from the text toString produces. */
  function ReadLimits(text: string): (r: Option<(int, int)>)
    ensures r.Some? ==> InInt32(r.value.0) && InInt32(r.value.1)
  {
    if |text| <= |Prefix| || text[..|Prefix|] != Prefix || text[|text| - 1] != ']' then None
    else
      var body := text[|Prefix|..|text| - 1];
      var c := Find(body, ',');
      if c + 1 >= |body| || body[c + 1] != ' ' then None
      else match (ParseInt(body[..c]), ParseInt(body[c + 2..]))
        case (Some(a), Some(b)) => Some((a, b))
        case _ => None
  }

  lemma NoCommaInIntToString(x: int)
    ensures ',' !in IntToString(x)
  {
    var s := NatToString(if x < 0 then -x else x);
    assert forall i | 0 <= i < |s| :: s[i] != ',';
    if x < 0 {
      assert forall i | 0 <= i < |"-" + s| :: ("-" + s)[i] != ',';
    }
  }

  /** toString keeps both limits: they read back from its text. */
  lemma ToStringReadsBack(s: Sizes)
    requires InInt32(s.a) && InInt32(s.b)
    ensures ReadLimits(ToString(s)) == Some((s.a, s.b))
  {
    var sa, sb := IntToString(s.a), IntToString(s.b);
    var body := BodyOfToString(s);
    NoCommaInIntToString(s.a);
    SplitAtComma(sa, sb);
    ParseIntOfIntToString(s.a);
    ParseIntOfIntToString(s.b);
  }

  /** Between the prefix and the closing bracket, toString writes the two
      limits separated by ", ". */
  lemma BodyOfToString(s: Sizes) returns (body: string)
    ensures body == ToString(s)[|Prefix|..|ToString(s)| - 1]
    ensures body == IntToString(s.a) + ", " + IntToString(s.b)
  {
    var text := ToString(s);
    body := text[|Prefix|..|text| - 1];
    assert text == Prefix + (IntToString(s.a) + ", " + IntToString(s.b)) + "]";
  }

  /** Text joined with ", " splits back at the first comma when the left
      part has none. */
  lemma SplitAtComma(left: string, right: string)
    requires ',' !in left
    ensures Find(left + ", " + right, ',') == |left|
    ensures (left + ", " + right)[|left| + 1] == ' '
    ensures (left + ", " + right)[..|left|] == left
    ensures (left + ", " + right)[|left| + 2..] == right
  {
    var body := left + ", " + right;
    assert body[|left|] == ',';
    assert forall i | 0 <= i < |left| :: body[i] == left[i];
  }

}
