/** CTMC: the continuous-time Markov chain that drives both modulated
    components. It is configured either from a matrix of rates `rate_i,j`
    (the generator of the chain) or, in the explicit mode, from jump
    probabilities `p_i,j` and mean sojourn times. It keeps the embedded jump
    chain and one intensity per state: minus the mean sojourn time in
    milliseconds, so that intensity * log(1 - u) is a sojourn sample.
 */
module Ctmc {
  import opened Outcomes
  import opened JavaText
  import opened Config
  import opened Sampling

  datatype Chain = Chain(n: nat, initialVector: seq<real>, embedded: seq<seq<real>>, intensities: seq<real>)

  /** currentState and currentSample. */
  datatype Cursor = Cursor(state: nat, sample: real)

  predicate Square(m: seq<seq<real>>, n: nat) {
    |m| == n && forall i | 0 <= i < n :: |m[i]| == n
  }

  predicate WellFormed(c: Chain) {
    |c.initialVector| == c.n && Square(c.embedded, c.n) && |c.intensities| == c.n
  }

  function RowSum(row: seq<real>): real {
    PrefixSum(row, |row|)
  }

  /** The 1-indexed key of entry (i, j): prefix + (i+1) + "," + (j+1). */
  function MatrixKey(prefix: string, i: nat, j: nat): string {
    prefix + NatToString(i + 1) + "," + NatToString(j + 1)
  }

  /** A matrix entry: the parsed value under `key`, 0.0 when the key is
      absent, None when the value is not a number. */
  function EntryOrZero(config: ConfigMap, key: string): (r: Option<real>)
    ensures key !in config ==> r == Some(0.0)
  {
    if key in config then ParseDouble(config[key]) else Some(0.0)
  }

  /** Row i of the n by n matrix of entries `prefix<i+1>,<j+1>`. */
  function ReadRow(config: ConfigMap, prefix: string, i: nat, n: nat): (r: Option<seq<real>>)
    ensures r.Some? <==> forall j | 0 <= j < n :: EntryOrZero(config, MatrixKey(prefix, i, j)).Some?
    ensures r.Some? ==> |r.value| == n
    ensures r.Some? ==> forall j | 0 <= j < n :: r.value[j] == EntryOrZero(config, MatrixKey(prefix, i, j)).value
  {
    var keys := seq(n, j requires 0 <= j < n => MatrixKey(prefix, i, j));
    assert forall j | 0 <= j < n :: keys[j] == MatrixKey(prefix, i, j);
    ParseEach(keys, key => EntryOrZero(config, key))
  }

  /** The n by n matrix of entries `prefix<i+1>,<j+1>`. */
  function ReadMatrix(config: ConfigMap, prefix: string, n: nat): (r: Option<seq<seq<real>>>)
    ensures r.Some? <==> forall i | 0 <= i < n :: ReadRow(config, prefix, i, n).Some?
    ensures r.Some? ==> Square(r.value, n)
    ensures r.Some? ==> forall i | 0 <= i < n :: Some(r.value[i]) == ReadRow(config, prefix, i, n)
  {
    if forall i | 0 <= i < n :: ReadRow(config, prefix, i, n).Some? then
      Some(seq(n, i requires 0 <= i < n => ReadRow(config, prefix, i, n).value))
    else
      None
  }

  /** Entry (i, j) of a matrix read from the configuration is the value
      under its 1-indexed key, 0.0 when the key is absent. */
  lemma MatrixEntry(config: ConfigMap, prefix: string, n: nat, i: nat, j: nat)
    requires ReadMatrix(config, prefix, n).Some? && i < n && j < n
    ensures ReadMatrix(config, prefix, n).value[i][j] == EntryOrZero(config, MatrixKey(prefix, i, j)).value
    ensures MatrixKey(prefix, i, j) !in config ==> ReadMatrix(config, prefix, n).value[i][j] == 0.0
  {
    assert Some(ReadMatrix(config, prefix, n).value[i]) == ReadRow(config, prefix, i, n);
  }

  // ---------------------------------------------------------------------
  // Rate mode
  // ---------------------------------------------------------------------

  /** Row i of the generator once its diagonal is filled: minus the sum of
      the whole row as read, the entry `rate_i,i` included. */
  function GeneratorRow(row: seq<real>, i: nat): seq<real>
    requires i < |row|
  {
    row[i := -RowSum(row)]
  }

  /** Row i of the embedded chain: -q[j] / q[i] off the diagonal, 0 on it. */
  function EmbeddedRow(q: seq<real>, i: nat): seq<real>
    requires i < |q| && q[i] != 0.0
  {
    seq(|q|, j requires 0 <= j < |q| => if i != j then -q[j] / q[i] else 0.0)
  }

  /** One row of configureFromCTMC: the embedded row and the intensity
      1000 * (1 / q[i]). A row whose rates sum to zero has no defined
      result (Java divides by zero) and is reported as None. */
  function RateRow(row: seq<real>, i: nat): (r: Option<(seq<real>, real)>)
    requires i < |row|
    ensures r.None? <==> RowSum(row) == 0.0
    ensures r.Some? ==> |r.value.0| == |row|
  {
    var q := GeneratorRow(row, i);
    if q[i] == 0.0 then None
    else Some((EmbeddedRow(q, i), 1000.0 * (1.0 / q[i])))
  }

  /** configureFromCTMC, given the rate matrix read from the configuration. */
  function FromRates(g: seq<seq<real>>, n: nat): (r: Option<(seq<seq<real>>, seq<real>)>)
    requires Square(g, n)
    ensures r.Some? <==> forall i | 0 <= i < n :: RowSum(g[i]) != 0.0
    ensures r.Some? ==> Square(r.value.0, n) && |r.value.1| == n
    ensures r.Some? ==> forall i | 0 <= i < n ::
      RateRow(g[i], i) == Some((r.value.0[i], r.value.1[i]))
  {
    var rows := seq(n, i requires 0 <= i < n => RateRow(g[i], i));
    assert forall i | 0 <= i < n :: rows[i] == RateRow(g[i], i);
    if forall i | 0 <= i < n :: rows[i].Some? then
      Some((seq(n, i requires 0 <= i < n => rows[i].value.0), seq(n, i requires 0 <= i < n => rows[i].value.1)))
    else
      None
  }

  lemma {:induction false} PrefixSumUpdate(row: seq<real>, i: nat, a: real, k: nat)
    requires i < |row| && k <= |row|
    ensures PrefixSum(row[i := a], k) == PrefixSum(row, k) + (if i < k then a - row[i] else 0.0)
  {
    if k > 0 {
      PrefixSumUpdate(row, i, a, k - 1);
    }
  }

  lemma {:induction false} PrefixSumScale(row: seq<real>, scaled: seq<real>, c: real, k: nat)
    requires |scaled| == |row| && k <= |row|
    requires forall j | 0 <= j < |row| :: scaled[j] == row[j] * c
    ensures PrefixSum(scaled, k) == PrefixSum(row, k) * c
  {
    if k > 0 {
      PrefixSumScale(row, scaled, c, k - 1);
    }
  }

  /** The filled-in generator row sums to minus the self-rate `rate_i,i`:
      it is a proper generator row, summing to zero, exactly when no
      self-rate is given. */
  lemma GeneratorRowSum(row: seq<real>, i: nat)
    requires i < |row|
    ensures RowSum(GeneratorRow(row, i)) == -row[i]
    ensures RowSum(GeneratorRow(row, i)) == 0.0 <==> row[i] == 0.0
  {
    PrefixSumUpdate(row, i, -RowSum(row), |row|);
  }

  /** With l the sum of the row: the diagonal of the embedded row is 0, every
      other entry is rate / l, and the intensity is -1000 / l. */
  lemma RateRowEntries(row: seq<real>, i: nat)
    requires i < |row| && RowSum(row) != 0.0
    ensures RateRow(row, i).value.0[i] == 0.0
    ensures forall j | 0 <= j < |row| && j != i :: RateRow(row, i).value.0[j] == row[j] / RowSum(row)
    ensures RateRow(row, i).value.1 == -1000.0 / RowSum(row)
  {
    var l := RowSum(row);
    var e := RateRow(row, i).value.0;
    forall j | 0 <= j < |row| && j != i ensures e[j] == row[j] / l {
      assert e[j] == -row[j] / -l;
    }
  }

  /** The embedded row sums to (l - rate_i,i) / l: to 1 when no self-rate is
      given, to less than 1 when a positive one is. */
  lemma RateRowSum(row: seq<real>, i: nat)
    requires i < |row| && RowSum(row) != 0.0
    ensures RowSum(RateRow(row, i).value.0) == (RowSum(row) - row[i]) / RowSum(row)
  {
    var l := RowSum(row);
    var e := RateRow(row, i).value.0;
    var offDiagonal := row[i := 0.0];
    EmbeddedRowScales(row, i);
    PrefixSumScale(offDiagonal, e, 1.0 / l, |row|);
    PrefixSumUpdate(row, i, 0.0, |row|);
    ScaledDifference(RowSum(e), RowSum(offDiagonal), l, row[i]);
  }

  lemma ScaledDifference(s: real, off: real, l: real, x: real)
    requires l != 0.0 && s == off * (1.0 / l) && off == l + (0.0 - x)
    ensures s == (l - x) / l
  {
  }

  /** The embedded row is the rate row, its diagonal cleared, times 1 / l. */
  lemma EmbeddedRowScales(row: seq<real>, i: nat)
    requires i < |row| && RowSum(row) != 0.0
    ensures forall j | 0 <= j < |row| :: RateRow(row, i).value.0[j] == row[i := 0.0][j] * (1.0 / RowSum(row))
  {
    var l := RowSum(row);
    var e := RateRow(row, i).value.0;
    RateRowEntries(row, i);
    forall j | 0 <= j < |row| ensures e[j] == row[i := 0.0][j] * (1.0 / l) {
      if j == i {
        assert e[j] == 0.0;
      } else {
        assert e[j] == row[j] / l;
        DivideIsScale(row[j], l);
      }
    }
  }

  lemma DivideIsScale(x: real, l: real)
    requires l != 0.0
    ensures x / l == x * (1.0 / l)
  {
  }

  lemma {:induction false} PrefixSumBelowTotal(p: seq<real>, k: nat)
    requires k <= |p|
    requires forall j | 0 <= j < |p| :: 0.0 <= p[j]
    ensures PrefixSum(p, k) <= PrefixSum(p, |p|)
    decreases |p| - k
  {
    if k < |p| {
      PrefixSumBelowTotal(p, k + 1);
    }
  }

  lemma {:induction false} PrefixSumNonNegative(p: seq<real>, k: nat)
    requires k <= |p|
    requires forall j | 0 <= j < |p| :: 0.0 <= p[j]
    ensures 0.0 <= PrefixSum(p, k)
  {
    if k > 0 {
      PrefixSumNonNegative(p, k - 1);
    }
  }

  lemma EntryBelowSum(p: seq<real>, j: nat)
    requires j < |p|
    requires forall k | 0 <= k < |p| :: 0.0 <= p[k]
    ensures p[j] <= PrefixSum(p, |p|)
  {
    PrefixSumNonNegative(p, j);
    PrefixSumBelowTotal(p, j + 1);
  }

  /** With non-negative rates, no self-rate and a positive exit rate l, the
      embedded row is a probability vector, and the intensity is negative,
      so sojourn samples are not negative. */
  lemma RateRowStochastic(row: seq<real>, i: nat)
    requires i < |row| && row[i] == 0.0 && 0.0 < RowSum(row)
    requires forall j | 0 <= j < |row| :: 0.0 <= row[j]
    ensures Stochastic(RateRow(row, i).value.0)
    ensures forall j | 0 <= j < |row| :: 0.0 <= RateRow(row, i).value.0[j] <= 1.0
    ensures RateRow(row, i).value.1 < 0.0
  {
    var l := RowSum(row);
    var e := RateRow(row, i).value.0;
    RateRowEntries(row, i);
    RateRowSum(row, i);
    forall j | 0 <= j < |row| ensures 0.0 <= e[j] <= 1.0 {
      if j != i {
        EntryBelowSum(row, j);
        assert e[j] == row[j] / l;
        FractionInUnit(row[j], l);
      }
    }
  }

  lemma FractionInUnit(x: real, l: real)
    requires 0.0 <= x <= l && 0.0 < l
    ensures 0.0 <= x / l <= 1.0
  {
  }

  /** Two states, only rate_1,2 = 2: row 0 of the embedded chain is [0, 1]
      and its intensity is -500, a mean sojourn of half a second. */
  lemma RateRowExample()
    ensures RateRow([0.0, 2.0], 0) == Some(([0.0, 1.0], -500.0))
  {
    assert PrefixSum([0.0, 2.0], 1) == 0.0;
    assert RowSum([0.0, 2.0]) == 2.0;
    assert GeneratorRow([0.0, 2.0], 0) == [-2.0, 2.0];
    assert EmbeddedRow([-2.0, 2.0], 0) == [0.0, 1.0];
  }

  // ---------------------------------------------------------------------
  // Explicit mode
  // ---------------------------------------------------------------------

  /** configureFromDTMC: the intensities are the comma-separated mean
      sojourn times in seconds, one per state, stored as -seconds * 1000;
      the jump probabilities are `p_i,j`, 0.0 when absent and fatal outside
      [0, 1]. The diagonal is kept and the rows are not checked to sum to 1. */
  function FromProbabilities(config: ConfigMap, n: nat): (r: Result<(seq<seq<real>>, seq<real>)>)
    ensures "intensities" !in config ==> r.Fatal?
    ensures r.Ok? <==>
      && "intensities" in config && |SplitCommaList(config["intensities"])| == n
      && (forall i | 0 <= i < n :: ParseDouble(SplitCommaList(config["intensities"])[i]).Some?)
      && ReadMatrix(config, "p_", n).Some? && Probabilities(ReadMatrix(config, "p_", n).value)
    ensures "intensities" in config && |SplitCommaList(config["intensities"])| != n ==> r.Fatal?
    ensures r.Ok? ==> Square(r.value.0, n) && |r.value.1| == n
    ensures r.Ok? ==> ReadMatrix(config, "p_", n) == Some(r.value.0)
    ensures r.Ok? ==> Probabilities(r.value.0)
    ensures r.Ok? ==> SecondsToIntensities(SplitCommaList(config["intensities"])) == Some(r.value.1)
    ensures ReadMatrix(config, "p_", n).Some? && !Probabilities(ReadMatrix(config, "p_", n).value) ==> r.Fatal?
  {
    if "intensities" !in config then Fatal("intensities is required") else
    var siv := SplitCommaList(config["intensities"]);
    :- Need(|siv| == n, "Length of intensities vector does not match number of states.");
    var intensities :- FromOption(SecondsToIntensities(siv), "NumberFormatException");
    var p :- FromOption(ReadMatrix(config, "p_", n), "NumberFormatException");
    :- Need(Probabilities(p), "p_i,j not in [0, 1]");
    Ok((p, intensities))
  }

  /** Every entry lies in [0, 1]. */
  predicate Probabilities(p: seq<seq<real>>) {
    forall i, j | 0 <= i < |p| && 0 <= j < |p[i]| :: 0.0 <= p[i][j] <= 1.0
  }

  /** Mean sojourn times in seconds, as text, turned into intensities:
      -seconds * 1000, one per piece. */
  function SecondsToIntensities(pieces: seq<string>): (r: Option<seq<real>>)
    ensures r.Some? <==> forall i | 0 <= i < |pieces| :: ParseDouble(pieces[i]).Some?
    ensures r.Some? ==> |r.value| == |pieces|
    ensures r.Some? ==> forall i | 0 <= i < |pieces| :: r.value[i] == -ParseDouble(pieces[i]).value * 1000.0
  {
    match ParseEach(pieces, ParseDouble)
    case None => None
    case Some(seconds) => Some(seq(|seconds|, i requires 0 <= i < |seconds| => -seconds[i] * 1000.0))
  }

  // ---------------------------------------------------------------------
  // configure
  // ---------------------------------------------------------------------

  /** configurationFileFormat selects the explicit mode only when it is
      exactly "ExplicitDTMC". */
  predicate IsExplicit(config: ConfigMap) {
    "configurationFileFormat" in config && config["configurationFileFormat"] == "ExplicitDTMC"
  }

  /** CTMC.configure. */
  function Configure(config: ConfigMap): (r: Result<Chain>)
    ensures !CheckConfigRequired(config, ["numberOfStates", "initialVector"]) ==> r.Fatal?
    ensures (&& CheckConfigRequired(config, ["numberOfStates", "initialVector"])
      && ParseInt(config["numberOfStates"]).Some? && 0 <= ParseInt(config["numberOfStates"]).value) ==>
        (r.Ok? <==> && InitialVector(config, ParseInt(config["numberOfStates"]).value as nat).Ok?
                    && Jumps(config, ParseInt(config["numberOfStates"]).value as nat).Ok?)
    ensures r.Ok? ==> WellFormed(r.value)
    ensures r.Ok? ==> "numberOfStates" in config && ParseInt(config["numberOfStates"]) == Some(r.value.n)
    ensures r.Ok? ==> "initialVector" in config && r.value.n <= |SplitCommaList(config["initialVector"])|
    ensures r.Ok? ==> forall i | 0 <= i < r.value.n ::
      ParseDouble(SplitCommaList(config["initialVector"])[i]) == Some(r.value.initialVector[i])
    ensures r.Ok? && IsExplicit(config) ==> FromProbabilities(config, r.value.n) == Ok((r.value.embedded, r.value.intensities))
    ensures r.Ok? && !IsExplicit(config) ==>
      && ReadMatrix(config, "rate_", r.value.n).Some?
      && FromRates(ReadMatrix(config, "rate_", r.value.n).value, r.value.n) == Some((r.value.embedded, r.value.intensities))
  {
    if !CheckConfigRequired(config, ["numberOfStates", "initialVector"]) then Fatal("numberOfStates and initialVector are required") else
    var count :- FromOption(ParseInt(config["numberOfStates"]), "NumberFormatException");
    :- Need(0 <= count, "NegativeArraySizeException");
    var n := count as nat;
    var initial :- InitialVector(config, n);
    var m :- Jumps(config, n);
    Ok(Chain(n, initial, m.0, m.1))
  }

  /** The first n comma-separated pieces of `initialVector`, parsed; fewer
      than n pieces is the ArrayIndexOutOfBoundsException. */
  function InitialVector(config: ConfigMap, n: nat): (r: Result<seq<real>>)
    requires "initialVector" in config
    ensures n > |SplitCommaList(config["initialVector"])| ==> r.Fatal?
    ensures r.Ok? <==>
      && n <= |SplitCommaList(config["initialVector"])|
      && forall i | 0 <= i < n :: ParseDouble(SplitCommaList(config["initialVector"])[i]).Some?
    ensures r.Ok? ==> |r.value| == n && n <= |SplitCommaList(config["initialVector"])|
    ensures r.Ok? ==> forall i | 0 <= i < n ::
      ParseDouble(SplitCommaList(config["initialVector"])[i]) == Some(r.value[i])
  {
    var siv := SplitCommaList(config["initialVector"]);
    :- Need(n <= |siv|, "ArrayIndexOutOfBoundsException");
    var initial :- FromOption(ParseEach(siv[..n], ParseDouble), "NumberFormatException");
    assert forall i | 0 <= i < n :: siv[..n][i] == siv[i];
    Ok(initial)
  }

  /** The embedded chain and the intensities, from the probabilities in
      explicit mode and from the rates otherwise. */
  function Jumps(config: ConfigMap, n: nat): (r: Result<(seq<seq<real>>, seq<real>)>)
    ensures r.Ok? ==> Square(r.value.0, n) && |r.value.1| == n
    ensures IsExplicit(config) ==> r == FromProbabilities(config, n)
    ensures !IsExplicit(config) ==>
      (r.Ok? <==> ReadMatrix(config, "rate_", n).Some? && FromRates(ReadMatrix(config, "rate_", n).value, n).Some?)
    ensures !IsExplicit(config) && r.Ok? ==>
      && ReadMatrix(config, "rate_", n).Some?
      && FromRates(ReadMatrix(config, "rate_", n).value, n) == Some(r.value)
  {
    if IsExplicit(config) then FromProbabilities(config, n)
    else
      var g :- FromOption(ReadMatrix(config, "rate_", n), "NumberFormatException");
      var m :- FromOption(FromRates(g, n), "a state has no outgoing rate");
      Ok(m)
  }

  /** In rate mode every diagonal entry of the embedded chain is 0 and every
      other entry is rate_i,j divided by the full sum of row i. */
  lemma ConfigureRates(config: ConfigMap)
    requires Configure(config).Ok? && !IsExplicit(config)
    ensures forall i, j | 0 <= i < Configure(config).value.n && 0 <= j < Configure(config).value.n ::
      Configure(config).value.embedded[i][j] ==
        if i == j then 0.0
        else
          var g := ReadMatrix(config, "rate_", Configure(config).value.n).value;
          g[i][j] / RowSum(g[i])
  {
    var c := Configure(config).value;
    var g := ReadMatrix(config, "rate_", c.n).value;
    forall i | 0 <= i < c.n {
      RateRowEntries(g[i], i);
    }
  }

  /** In explicit mode every jump probability lies in [0, 1], an absent
      `p_i,j` is 0, and the intensities are -1000 times the configured
      mean sojourn times. */
  lemma ConfigureExplicit(config: ConfigMap, i: nat, j: nat)
    requires Configure(config).Ok? && IsExplicit(config)
    requires i < Configure(config).value.n && j < Configure(config).value.n
    ensures 0.0 <= Configure(config).value.embedded[i][j] <= 1.0
    ensures MatrixKey("p_", i, j) !in config ==> Configure(config).value.embedded[i][j] == 0.0
    ensures Configure(config).value.intensities[i] ==
      -ParseDouble(SplitCommaList(config["intensities"])[i]).value * 1000.0
  {
    var c := Configure(config).value;
    ProbabilityEntry(config, c.n, c.embedded, c.intensities, i, j);
  }

  /** The same, for the matrix and intensities read in explicit mode. */
  lemma ProbabilityEntry(config: ConfigMap, n: nat, p: seq<seq<real>>, q: seq<real>, i: nat, j: nat)
    requires FromProbabilities(config, n) == Ok((p, q)) && i < n && j < n
    ensures "intensities" in config && i < |SplitCommaList(config["intensities"])|
    ensures 0.0 <= p[i][j] <= 1.0
    ensures MatrixKey("p_", i, j) !in config ==> p[i][j] == 0.0
    ensures q[i] == -ParseDouble(SplitCommaList(config["intensities"])[i]).value * 1000.0
  {
    MatrixEntry(config, "p_", n, i, j);
  }

  // ---------------------------------------------------------------------
  // Sampling the chain
  // ---------------------------------------------------------------------

  /** CTMC.init: the first state by discreteRandom over the initial vector
      and its sojourn sample; an index beyond the intensities (a chain of
      zero states) is the ArrayIndexOutOfBoundsException. */
  function Init(c: Chain, u: real, logDraw: real): (r: Result<Cursor>)
    requires logDraw <= 0.0
    ensures r.Ok? <==> DiscreteRandom(u, c.initialVector) < |c.intensities|
    ensures WellFormed(c) ==> (r.Ok? <==> 0 < c.n)
    ensures r.Ok? ==> IsInversionIndex(u, c.initialVector, r.value.state)
    ensures r.Ok? ==> r.value.sample == ExponentialRandom(c.intensities[r.value.state], logDraw)
  {
    var state := DiscreteRandom(u, c.initialVector);
    if state < |c.intensities| then Ok(Cursor(state, ExponentialRandom(c.intensities[state], logDraw)))
    else Fatal("ArrayIndexOutOfBoundsException")
  }

  /** CTMC.nextState: the next state by discreteRandom over the current
      state's row of the embedded chain, and its sojourn sample. */
  function NextState(c: Chain, cur: Cursor, u: real, logDraw: real): (next: Cursor)
    requires WellFormed(c) && cur.state < c.n && logDraw <= 0.0
    ensures next.state < c.n
    ensures IsInversionIndex(u, c.embedded[cur.state], next.state)
    ensures next.sample == ExponentialRandom(c.intensities[next.state], logDraw)
  {
    var state := DiscreteRandom(u, c.embedded[cur.state]);
    Cursor(state, ExponentialRandom(c.intensities[state], logDraw))
  }

  /** A rate-mode state with non-negative rates, no self-rate and a positive
      exit rate always jumps to a different state (for a draw in (0, 1)). */
  lemma RateModeLeavesState(g: seq<seq<real>>, n: nat, iv: seq<real>, cur: Cursor, u: real, logDraw: real)
    requires Square(g, n) && FromRates(g, n).Some? && |iv| == n
    requires cur.state < n && g[cur.state][cur.state] == 0.0 && 0.0 < RowSum(g[cur.state])
    requires forall j | 0 <= j < n :: 0.0 <= g[cur.state][j]
    requires 0.0 < u < 1.0 && logDraw <= 0.0
    ensures NextState(Chain(n, iv, FromRates(g, n).value.0, FromRates(g, n).value.1), cur, u, logDraw).state != cur.state
  {
    var row := g[cur.state];
    RateRowStochastic(row, cur.state);
    RateRowEntries(row, cur.state);
    ChosenHasPositiveProbability(u, RateRow(row, cur.state).value.0);
  }

  /** CTMC.setInitialVector: replaces the initial vector (a copy, which
      immutable values make implicit); the next init draws from it. */
  function SetInitialVector(c: Chain, v: seq<real>): (d: Chain)
    ensures d.n == c.n && d.embedded == c.embedded && d.intensities == c.intensities
    ensures GetInitialVector(d) == v
  {
    c.(initialVector := v)
  }

  /** CTMC.getInitialVector. */
  function GetInitialVector(c: Chain): seq<real> {
    c.initialVector
  }

  /** After setInitialVector(v), init chooses its state from v alone. */
  lemma InitAfterSetInitialVector(c: Chain, v: seq<real>, u: real, logDraw: real)
    requires WellFormed(c) && |v| == c.n && 0 < c.n && logDraw <= 0.0
    ensures Init(SetInitialVector(c, v), u, logDraw).Ok?
    ensures Init(SetInitialVector(c, v), u, logDraw).value.state == DiscreteRandom(u, v)
  {
  }

  /** An initial vector whose first entry is 1.0 (initialVector = 1, 0, ...)
      always starts in state 0. */
  lemma InitCertainFirstState(c: Chain, u: real, logDraw: real)
    requires WellFormed(c) && 0 < c.n && c.initialVector[0] == 1.0 && u < 1.0 && logDraw <= 0.0
    ensures Init(c, u, logDraw) == Ok(Cursor(0, ExponentialRandom(c.intensities[0], logDraw)))
  {
    CertainFirstState(u, c.initialVector);
  }
}
