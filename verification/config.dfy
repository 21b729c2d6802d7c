/** The configuration helpers of Util: the line rule of readConfigFile,
    the required/optional key checks, comma-list and octet parsing.
    A configuration is the key/value table readConfigFile builds; opening
    and reading the file is outside the model, which starts from its lines.
 */
module Config {
  import opened Outcomes
  import opened JavaText

  type ConfigMap = map<string, string>

  /** Hashtable.get: the value under `key`, if any. */
  function Get(config: ConfigMap, key: string): Option<string> {
    if key in config then Some(config[key]) else None
  }

  /** The name built from config.get(key): Java renders a missing value as
      "null" when it is concatenated into a file or class name. */
  function NameOrNull(config: ConfigMap, key: string): (name: string)
    ensures key in config ==> name == config[key]
    ensures key !in config ==> name == "null"
  {
    if key in config then config[key] else "null"
  }

  // ---------------------------------------------------------------------
  // readConfigFile, one line at a time
  // ---------------------------------------------------------------------

  /** What one line of a configuration file contributes. */
  datatype Line = Skip | Entry(key: string, value: string) | Malformed

  /** The characters Java's regular-expression `.` does not match. */
  predicate IsLineTerminator(c: char) {
    c == '\n' || c == '\r' || c == '\U{85}' || c == '\U{2028}' || c == '\U{2029}'
  }

  /** line.matches("^\\s*$") */
  predicate IsBlank(line: string) {
    forall i | 0 <= i < |line| :: IsSpace(line[i])
  }

  /** line.matches("^#.*"): a '#' in the first column and nothing after it
      that `.` refuses. */
  predicate IsComment(line: string) {
    |line| > 0 && line[0] == '#' && forall i | 0 <= i < |line| :: !IsLineTerminator(line[i])
  }

  /** The line rule: blank and comment lines are skipped; any other line is
      split once, at the first '=', with the whitespace on both sides of it
      removed (line.split("\\s*=\\s*", 2)); a line without '=' leaves no
      second half and ends the reading. */
  function ClassifyLine(line: string): (l: Line)
    ensures l.Skip? <==> IsBlank(line) || IsComment(line)
    ensures l.Malformed? <==> !IsBlank(line) && !IsComment(line) && '=' !in line
    ensures l.Entry? ==> '=' !in l.key
  {
    if IsBlank(line) || IsComment(line) then Skip
    else
      var e := Find(line, '=');
      if e == |line| then Malformed
      else
        var key := DropWhileEnd(line[..e], IsSpace);
        var value := DropWhileStart(line[e + 1..], IsSpace);
        Entry(key, value)
  }

  /** `key` and `value` are what is left of `line` on either side of the
      first '=', at position `e`, with the adjacent whitespace removed. */
  predicate SplitsAt(line: string, e: int, key: string, value: string)
    requires 0 <= e < |line|
  {
    && |key| <= e && e < |line| - |value|
    && line[e] == '='
    && '=' !in line[..e]
    && line[..|key|] == key
    && (forall i | |key| <= i < e :: IsSpace(line[i]))
    && (|key| > 0 ==> !IsSpace(key[|key| - 1]))
    && line[|line| - |value|..] == value
    && (forall i | e < i < |line| - |value| :: IsSpace(line[i]))
    && (|value| > 0 ==> !IsSpace(value[0]))
  }

  /** An entry line is cut at its first '=', which regex `\s*=\s*`
      matches first, together with the whitespace around it. */
  lemma EntrySplitsAtFirstEquals(line: string)
    requires ClassifyLine(line).Entry?
    ensures SplitsAt(line, Find(line, '='), ClassifyLine(line).key, ClassifyLine(line).value)
  {
    var e := Find(line, '=');
    assert ClassifyLine(line) == Entry(DropWhileEnd(line[..e], IsSpace), DropWhileStart(line[e + 1..], IsSpace));
    assert '=' !in line[..e] by {
      forall i | 0 <= i < e ensures line[..e][i] != '=' {
        assert line[..e][i] == line[i];
      }
    }
    TrimmedHalves(line, e);
  }

  /** The halves either side of position `e`, stripped of the whitespace
      next to it, sit where SplitsAt says. */
  lemma TrimmedHalves(line: string, e: nat)
    requires e < |line| && line[e] == '=' && '=' !in line[..e]
    ensures SplitsAt(line, e, DropWhileEnd(line[..e], IsSpace), DropWhileStart(line[e + 1..], IsSpace))
  {
    KeyHalf(line, e);
    ValueHalf(line, e);
  }

  lemma KeyHalf(line: string, e: nat)
    requires e < |line|
    ensures var key := DropWhileEnd(line[..e], IsSpace);
      && |key| <= e && line[..|key|] == key
      && (forall i | |key| <= i < e :: IsSpace(line[i]))
  {
    var key := DropWhileEnd(line[..e], IsSpace);
    assert line[..e][..|key|] == line[..|key|];
    forall i | |key| <= i < e ensures IsSpace(line[i]) {
      assert line[..e][i] == line[i];
    }
  }

  lemma ValueHalf(line: string, e: nat)
    requires e < |line|
    ensures var value := DropWhileStart(line[e + 1..], IsSpace);
      && e < |line| - |value| && line[|line| - |value|..] == value
      && (forall i | e < i < |line| - |value| :: IsSpace(line[i]))
  {
    var s := line[e + 1..];
    var value := DropWhileStart(s, IsSpace);
    var cut := |s| - |value|;
    assert value == s[cut..];
    assert s[cut..] == line[e + 1 + cut..];
    forall i | e < i < e + 1 + cut ensures IsSpace(line[i]) {
      assert s[i - e - 1] == line[i];
    }
  }

  function Apply(config: ConfigMap, line: string): ConfigMap {
    match ClassifyLine(line)
    case Entry(k, v) => config[k := v]
    case _ => config
  }

  /** The loop of readConfigFile over the remaining lines, starting from the
      entries read so far; a malformed line makes the loop give up and the
      entries read before it are returned. */
  function Load(config: ConfigMap, lines: seq<string>): ConfigMap
    decreases |lines|
  {
    if |lines| == 0 then config
    else match ClassifyLine(lines[0])
      case Skip => Load(config, lines[1..])
      case Entry(k, v) => Load(config[k := v], lines[1..])
      case Malformed => config
  }

  /** Util.readConfigFile, given the lines of the file. */
  function ReadConfig(lines: seq<string>): ConfigMap {
    Load(map[], lines)
  }

  predicate NoMalformed(lines: seq<string>) {
    forall i | 0 <= i < |lines| :: !ClassifyLine(lines[i]).Malformed?
  }

  /** The number of lines before the first malformed one. */
  function Readable(lines: seq<string>): (n: nat)
    ensures n <= |lines|
    ensures NoMalformed(lines[..n])
    ensures n < |lines| ==> ClassifyLine(lines[n]).Malformed?
    decreases |lines|
  {
    if |lines| == 0 then 0
    else if ClassifyLine(lines[0]).Malformed? then 0
    else
      var n := 1 + Readable(lines[1..]);
      assert forall i | 1 <= i < n :: lines[..n][i] == lines[1..][..n - 1][i - 1];
      n
  }

  /** The value of the last line that sets `key`: the reference reading of
      "a later duplicate overwrites an earlier one". */
  function LastValue(lines: seq<string>, key: string): Option<string>
    decreases |lines|
  {
    if |lines| == 0 then None
    else match ClassifyLine(lines[|lines| - 1])
      case Entry(k, v) => if k == key then Some(v) else LastValue(lines[..|lines| - 1], key)
      case _ => LastValue(lines[..|lines| - 1], key)
  }

  lemma {:induction false} LoadSnoc(config: ConfigMap, lines: seq<string>, line: string)
    requires NoMalformed(lines)
    ensures !ClassifyLine(line).Malformed? ==> Load(config, lines + [line]) == Apply(Load(config, lines), line)
    ensures ClassifyLine(line).Malformed? ==> Load(config, lines + [line]) == Load(config, lines)
    decreases |lines|
  {
    if |lines| == 0 {
      assert [line][1..] == [];
    } else {
      assert (lines + [line])[1..] == lines[1..] + [line];
      assert NoMalformed(lines[1..]) by {
        forall i | 0 <= i < |lines| - 1 ensures !ClassifyLine(lines[1..][i]).Malformed? {
          assert lines[1..][i] == lines[i + 1];
        }
      }
      assert !ClassifyLine(lines[0]).Malformed?;
      match ClassifyLine(lines[0])
      case Skip => LoadSnoc(config, lines[1..], line);
      case Entry(k, v) => LoadSnoc(config[k := v], lines[1..], line);
    }
  }

  /** Lines after the first malformed one are never read. */
  lemma {:induction false} LoadStopsAtMalformed(config: ConfigMap, lines: seq<string>)
    ensures Load(config, lines) == Load(config, lines[..Readable(lines)])
    decreases |lines|
  {
    if |lines| > 0 && !ClassifyLine(lines[0]).Malformed? {
      var n := Readable(lines);
      assert lines[..n][1..] == lines[1..][..Readable(lines[1..])];
      assert lines[..n][0] == lines[0];
      match ClassifyLine(lines[0])
      case Skip => LoadStopsAtMalformed(config, lines[1..]);
      case Entry(k, v) => LoadStopsAtMalformed(config[k := v], lines[1..]);
    }
  }

  lemma {:induction false} LoadLastValue(config: ConfigMap, lines: seq<string>, key: string)
    requires NoMalformed(lines)
    ensures Get(Load(config, lines), key) ==
      if LastValue(lines, key).Some? then LastValue(lines, key) else Get(config, key)
    decreases |lines|
  {
    if |lines| > 0 {
      var init := lines[..|lines| - 1];
      var last := lines[|lines| - 1];
      assert lines == init + [last];
      assert NoMalformed(init) by {
        forall i | 0 <= i < |init| ensures !ClassifyLine(init[i]).Malformed? {
          assert init[i] == lines[i];
        }
      }
      LoadSnoc(config, init, last);
      LoadLastValue(config, init, key);
    }
  }

  /** readConfigFile keeps, for every key, the value of the last line that
      sets it before the first malformed line, and has no other keys. */
  lemma ReadConfigLastWins(lines: seq<string>, key: string)
    ensures Get(ReadConfig(lines), key) == LastValue(lines[..Readable(lines)], key)
    ensures key in ReadConfig(lines) <==> LastValue(lines[..Readable(lines)], key).Some?
  {
    LoadStopsAtMalformed(map[], lines);
    LoadLastValue(map[], lines[..Readable(lines)], key);
  }

  /** A line that is blank or a comment has no effect wherever it stands. */
  lemma {:induction false} SkippedLineHasNoEffect(config: ConfigMap, before: seq<string>, line: string, after: seq<string>)
    requires ClassifyLine(line).Skip?
    ensures Load(config, before + [line] + after) == Load(config, before + after)
    decreases |before|
  {
    if |before| == 0 {
      assert ([line] + after)[1..] == after;
      assert [] + [line] + after == [line] + after;
      assert [] + after == after;
    } else {
      assert (before + [line] + after)[1..] == before[1..] + [line] + after;
      assert (before + after)[1..] == before[1..] + after;
      assert (before + [line] + after)[0] == before[0];
      assert (before + after)[0] == before[0];
      match ClassifyLine(before[0])
      case Skip => SkippedLineHasNoEffect(config, before[1..], line, after);
      case Entry(k, v) => SkippedLineHasNoEffect(config[k := v], before[1..], line, after);
      case Malformed =>
    }
  }

  // ---------------------------------------------------------------------
  // Required and optional keys
  // ---------------------------------------------------------------------

  /** Util.checkConfigRequired: whether every listed name is a key. */
  function CheckConfigRequired(config: ConfigMap, names: seq<string>): (complete: bool)
    ensures complete <==> forall i | 0 <= i < |names| :: names[i] in config
    decreases |names|
  {
    if |names| == 0 then true
    else
      var rest := CheckConfigRequired(config, names[1..]);
      assert forall i | 1 <= i < |names| :: names[i] == names[1..][i - 1];
      (names[0] in config) && rest
  }

  /** Util.checkConfigOptional: the listed names that are keys. */
  function CheckConfigOptional(config: ConfigMap, names: seq<string>): (present: set<string>)
    ensures forall n :: n in present <==> n in names && n in config
    decreases |names|
  {
    if |names| == 0 then {}
    else
      var rest := CheckConfigOptional(config, names[1..]);
      assert forall n :: n in names <==> n == names[0] || n in names[1..];
      (if names[0] in config then {names[0]} else {}) + rest
  }

  // ---------------------------------------------------------------------
  // Lists and octets
  // ---------------------------------------------------------------------

  /** Util.parseStringArray. */
  function ParseStringArray(s: string): seq<string> {
    SplitCommaList(s)
  }

  /** `parse` applied to every piece; None as soon as one piece fails,
      which is where the Java loop throws. */
  function ParseEach<T>(pieces: seq<string>, parse: string -> Option<T>): (r: Option<seq<T>>)
    ensures r.Some? <==> forall i | 0 <= i < |pieces| :: parse(pieces[i]).Some?
    ensures r.Some? ==> |r.value| == |pieces|
    ensures r.Some? ==> forall i | 0 <= i < |pieces| :: r.value[i] == parse(pieces[i]).value
    decreases |pieces|
  {
    if |pieces| == 0 then Some([])
    else
      var rest := ParseEach(pieces[1..], parse);
      assert forall i | 1 <= i < |pieces| :: pieces[i] == pieces[1..][i - 1];
      match parse(pieces[0])
      case None => None
      case Some(v) => if rest.Some? then Some([v] + rest.value) else None
  }

  /** Util.parseIntArray: one int per comma-separated piece. */
  function ParseIntArray(s: string): Option<seq<int>> {
    ParseEach(ParseStringArray(s), ParseInt)
  }

  /** Util.parseDoubleArray: one double per comma-separated piece. */
  function ParseDoubleArray(s: string): Option<seq<real>> {
    ParseEach(ParseStringArray(s), ParseDouble)
  }

  /** Util.readOctets: one byte per dot-separated field, each the parsed
      integer cast to a byte (its low eight bits); None if a field is not
      an integer. */
  function ReadOctets(s: string): (r: Option<seq<bv8>>)
    ensures r.Some? <==> ParseEach(SplitDots(s), ParseInt).Some?
    ensures r.Some? ==> |r.value| == |SplitDots(s)|
    ensures r.Some? ==> forall i | 0 <= i < |r.value| ::
      (r.value[i] as int - ParseInt(SplitDots(s)[i]).value) % 256 == 0
  {
    match ParseEach(SplitDots(s), ParseInt)
    case None => None
    case Some(vs) => Some(seq(|vs|, i requires 0 <= i < |vs| => LowByte(vs[i])))
  }

  /** The decimal texts of some bytes, the fields of their dotted form. */
  function DecimalFields(octets: seq<bv8>): (fields: seq<string>)
    ensures |fields| == |octets|
    ensures forall i | 0 <= i < |fields| :: fields[i] == NatToString(octets[i] as int)
    ensures forall i | 0 <= i < |fields| :: '.' !in fields[i] && fields[i] != ""
  {
    var fields := seq(|octets|, i requires 0 <= i < |octets| => NatToString(octets[i] as int));
    assert forall i | 0 <= i < |fields| :: AllDigits(fields[i]) && fields[i] != "";
    fields
  }

  lemma SplitDotsOfDecimalFields(octets: seq<bv8>)
    requires |octets| >= 1
    ensures SplitDots(Join(DecimalFields(octets), ".")) == DecimalFields(octets)
  {
    var fields := DecimalFields(octets);
    var s := Join(fields, ".");
    SplitCharJoin(fields, '.');
    if '.' in s {
      assert DropTrailingEmpty(fields) == fields;
    }
  }

  lemma ParseDecimalFields(octets: seq<bv8>)
    ensures ParseEach(DecimalFields(octets), ParseInt) == Some(seq(|octets|, i requires 0 <= i < |octets| => octets[i] as int))
  {
    var fields := DecimalFields(octets);
    var vs := seq(|octets|, i requires 0 <= i < |octets| => octets[i] as int);
    forall i | 0 <= i < |fields| ensures ParseInt(fields[i]) == Some(vs[i]) {
      assert IntToString(vs[i]) == fields[i];
      ParseIntOfIntToString(vs[i]);
    }
    var r := ParseEach(fields, ParseInt);
    assert r.Some?;
    assert r.value == vs;
  }

  lemma LowByteOfByte(b: bv8)
    ensures LowByte(b as int) == b
  {
    assert (b as int) % 256 == b as int;
  }

  /** readOctets reads back the bytes of their dotted-decimal text. */
  lemma ReadOctetsOfDottedDecimal(octets: seq<bv8>)
    requires |octets| >= 1
    ensures ReadOctets(Join(DecimalFields(octets), ".")) == Some(octets)
  {
    var s := Join(DecimalFields(octets), ".");
    SplitDotsOfDecimalFields(octets);
    ParseDecimalFields(octets);
    var vs := seq(|octets|, i requires 0 <= i < |octets| => octets[i] as int);
    assert ParseEach(SplitDots(s), ParseInt) == Some(vs);
    var r := seq(|vs|, i requires 0 <= i < |vs| => LowByte(vs[i]));
    forall i | 0 <= i < |vs| ensures r[i] == octets[i] {
      LowByteOfByte(octets[i]);
    }
    assert r == octets;
    assert ReadOctets(s) == Some(r);
  }
}
