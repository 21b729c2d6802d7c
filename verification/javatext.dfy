/** The pieces of the Java library that the configuration code leans on:
    String.trim, the regular-expression splits used by String.split,
    Integer.parseInt, Double.parseDouble, Boolean.parseBoolean, the (int)
    and (byte) casts and 32-bit wrap-around. Each is written out explicitly
    because Dafny's integers and strings behave differently.
 */
module JavaText {
  import opened Outcomes

  // ---------------------------------------------------------------------
  // Characters and trimming
  // ---------------------------------------------------------------------

  /** The regular-expression class \s: space, tab, newline, vertical tab,
      form feed and carriage return. */
  predicate IsSpace(c: char) {
    c == ' ' || c == '\t' || c == '\n' || c == '\U{0B}' || c == '\U{0C}' || c == '\r'
  }

  /** What String.trim removes: every character up to and including U+0020. */
  predicate IsTrimmable(c: char) {
    c as int <= 0x20
  }

  predicate AllSatisfy(s: string, p: char -> bool) {
    forall i | 0 <= i < |s| :: p(s[i])
  }

  /** The end of the run of characters satisfying `p` that starts at `k`. */
  function SpanFrom(s: string, p: char -> bool, k: nat): (j: nat)
    requires k <= |s|
    ensures k <= j <= |s|
    ensures forall i | k <= i < j :: p(s[i])
    ensures j < |s| ==> !p(s[j])
    decreases |s| - k
  {
    if k < |s| && p(s[k]) then SpanFrom(s, p, k + 1) else k
  }

  /** The start of the run of characters satisfying `p` that ends at `k`. */
  function SpanBack(s: string, p: char -> bool, k: nat): (j: nat)
    requires k <= |s|
    ensures j <= k
    ensures forall i | j <= i < k :: p(s[i])
    ensures 0 < j ==> !p(s[j - 1])
    decreases k
  {
    if 0 < k && p(s[k - 1]) then SpanBack(s, p, k - 1) else k
  }

  /** `s` without its longest prefix of characters satisfying `p`. */
  function DropWhileStart(s: string, p: char -> bool): (r: string)
    ensures |r| <= |s| && r == s[|s| - |r|..]
    ensures |r| > 0 ==> !p(r[0])
    ensures forall i | 0 <= i < |s| - |r| :: p(s[i])
  {
    s[SpanFrom(s, p, 0)..]
  }

  /** `s` without its longest suffix of characters satisfying `p`. */
  function DropWhileEnd(s: string, p: char -> bool): (r: string)
    ensures |r| <= |s| && r == s[..|r|]
    ensures |r| > 0 ==> !p(r[|r| - 1])
    ensures forall i | |r| <= i < |s| :: p(s[i])
  {
    s[..SpanBack(s, p, |s|)]
  }

  /** String.trim. */
  function Trim(s: string): string {
    DropWhileEnd(DropWhileStart(s, IsTrimmable), IsTrimmable)
  }

  /** Position of the first `c` in `s`, or |s| when there is none. */
  function Find(s: string, c: char): (k: nat)
    ensures k <= |s|
    ensures k < |s| ==> s[k] == c
    ensures forall i | 0 <= i < k :: s[i] != c
    ensures k == |s| <==> c !in s
    decreases |s|
  {
    if |s| == 0 then 0 else if s[0] == c then 0 else 1 + Find(s[1..], c)
  }

  /** ASCII lower-casing: String.toLowerCase on the characters that matter
      for the comparisons made in this program. */
  function AsciiLower(s: string): (r: string)
    ensures |r| == |s|
  {
    seq(|s|, i requires 0 <= i < |s| =>
      if 'A' <= s[i] <= 'Z' then ((s[i] as int) + 32) as char else s[i])
  }

  /** String.contains / indexOf(sub) > -1. */
  predicate ContainsSubstring(s: string, sub: string) {
    exists i | 0 <= i <= |s| - |sub| :: OccursAt(s, sub, i)
  }

  predicate OccursAt(s: string, sub: string, i: int)
    requires 0 <= i <= |s| - |sub|
  {
    s[i..i + |sub|] == sub
  }

  // ---------------------------------------------------------------------
  // Decimal integers
  // ---------------------------------------------------------------------

  const IntMin: int := -0x8000_0000
  const IntMax: int := 0x7FFF_FFFF
  const TwoTo32: int := 0x1_0000_0000

  /** The range of Java's `int`. */
  predicate InInt32(x: int) {
    IntMin <= x <= IntMax
  }

  predicate IsDigit(c: char) {
    '0' <= c <= '9'
  }

  predicate AllDigits(s: string) {
    forall i | 0 <= i < |s| :: IsDigit(s[i])
  }

  function DigitsValue(s: string): nat
    requires AllDigits(s)
    decreases |s|
  {
    if |s| == 0 then 0 else DigitsValue(s[..|s| - 1]) * 10 + ((s[|s| - 1] as int) - ('0' as int))
  }

  function DigitChar(d: nat): (c: char)
    requires d < 10
    ensures IsDigit(c)
  {
    (('0' as int) + d) as char
  }

  /** Integer.toString for a non-negative value. */
  function NatToString(n: nat): (s: string)
    ensures |s| > 0 && AllDigits(s)
    decreases n
  {
    if n < 10 then [DigitChar(n)] else NatToString(n / 10) + [DigitChar(n % 10)]
  }

  /** Integer.toString / string concatenation of an int. */
  function IntToString(x: int): (s: string)
    ensures |s| > 0
  {
    if x < 0 then "-" + NatToString(-x) else NatToString(x)
  }

  /** Integer.parseInt(s) in radix 10: an optional sign, then at least one
      digit, and a value within the 32-bit range; None stands for the
      NumberFormatException. Surrounding whitespace is not accepted. */
  function ParseInt(s: string): (r: Option<int>)
    ensures r.Some? ==> InInt32(r.value)
  {
    if |s| == 0 then None
    else if s[0] == '-' || s[0] == '+' then
      var body := s[1..];
      if |body| == 0 || !AllDigits(body) then None
      else
        var d: int := DigitsValue(body);
        var v := if s[0] == '-' then -d else d;
        if InInt32(v) then Some(v) else None
    else if AllDigits(s) && DigitsValue(s) <= IntMax then Some(DigitsValue(s))
    else None
  }

  /** Byte.parseByte: Integer.parseInt followed by a range check. */
  function ParseByte(s: string): (r: Option<int>)
    ensures r.Some? ==> -128 <= r.value <= 127
  {
    match ParseInt(s)
    case Some(v) => if -128 <= v <= 127 then Some(v) else None
    case None => None
  }

  lemma {:induction false} NatToStringValue(n: nat)
    ensures DigitsValue(NatToString(n)) == n
    decreases n
  {
    if n >= 10 {
      var s := NatToString(n);
      NatToStringValue(n / 10);
      assert s[..|s| - 1] == NatToString(n / 10);
    }
  }

  /** Integer.parseInt reads back what Integer.toString wrote. */
  lemma ParseIntOfIntToString(x: int)
    requires InInt32(x)
    ensures ParseInt(IntToString(x)) == Some(x)
  {
    if x < 0 {
      NatToStringValue(-x);
      assert IntToString(x)[1..] == NatToString(-x);
    } else {
      NatToStringValue(x);
    }
  }

  /** Reduction of an unbounded integer to Java's 32-bit two's complement
      `int`, as performed by int arithmetic that overflows. */
  function Wrap32(x: int): (r: int)
    ensures InInt32(r)
    ensures (r - x) % TwoTo32 == 0
    ensures InInt32(x) ==> r == x
  {
    var r := (x - IntMin) % TwoTo32;
    ModUnique(r - (x - IntMin), TwoTo32, -((x - IntMin) / TwoTo32), 0);
    if InInt32(x) then ModUnique(x - IntMin, TwoTo32, 0, x - IntMin); r + IntMin
    else r + IntMin
  }

  /** The (byte) cast of an int: its low eight bits. */
  function LowByte(x: int): (b: bv8)
    ensures (b as int - x) % 256 == 0
  {
    ModDiff256(x);
    ByteOf(x % 256)
  }

  /** The bit pattern of a value below 256, counted up from zero. */
  function ByteOf(r: int): (b: bv8)
    requires 0 <= r < 256
    ensures b as int == r
    decreases r
  {
    if r == 0 then 0 else ByteOf(r - 1) + 1
  }

  lemma ModDiff256(x: int)
    ensures (x % 256 - x) % 256 == 0
  {
    var q := x / 256;
    assert x % 256 - x == (-q) * 256;
  }

  /** Euclidean division has exactly one remainder: any decomposition
      a == q * n + r with 0 <= r < n gives a % n. */
  lemma ModUnique(a: int, n: int, q: int, r: int)
    requires 0 < n && 0 <= r < n && a == q * n + r
    ensures a % n == r
  {
    var d := q - a / n;
    assert d * n == a % n - r;
    if d > 0 {
      assert d * n == (d - 1) * n + n;
      MulNonNegative(d - 1, n);
    } else if d < 0 {
      assert -d * n == (-d - 1) * n + n;
      MulNonNegative(-d - 1, n);
    }
  }
  /** Stepping a residue by one wraps to 0 at n. */
  lemma ModAddOne(a: nat, n: nat)
    requires 0 < n
    ensures (a % n + 1) % n == (a + 1) % n
  {
    var q, r := a / n, a % n;
    if r + 1 < n {
      ModUnique(r + 1, n, 0, r + 1);
      ModUnique(a + 1, n, q, r + 1);
    } else {
      ModUnique(r + 1, n, 1, 0);
      ModUnique(a + 1, n, q + 1, 0);
    }
  }

  lemma MulNonNegative(x: int, y: int)
    requires 0 <= x && 0 <= y
    ensures 0 <= x * y
  {
  }

  /** The value Java reads from a byte with a given bit pattern. */
  function SignedByte(b: bv8): (v: int)
    ensures -128 <= v <= 127
    ensures (v - b as int) % 256 == 0
  {
    if b < 128 then b as int else b as int - 256
  }

  /** The (int) cast of a double: truncation toward zero, saturating at the
      bounds of `int`. */
  function TruncateToInt32(x: real): (r: int)
    ensures InInt32(r)
    ensures 0.0 <= x ==> 0 <= r && r as real <= x
    ensures x <= 0.0 ==> r <= 0 && x <= r as real
    ensures IntMin as real <= x <= IntMax as real ==> x - 1.0 < r as real < x + 1.0
    ensures r < 0 <==> x <= -1.0
  {
    var t := if x >= 0.0 then x.Floor else -((-x).Floor);
    if t < IntMin then IntMin else if t > IntMax then IntMax else t
  }

  const LongMin: int := -0x8000_0000_0000_0000
  const LongMax: int := 0x7FFF_FFFF_FFFF_FFFF

  /** The (long) cast of a double: truncation toward zero, saturating at the
      bounds of `long`. A sleep of that many milliseconds throws
      IllegalArgumentException exactly when the result is negative, that
      is, when the double is -1 or less. */
  function TruncateToInt64(x: real): (r: int)
    ensures LongMin <= r <= LongMax
    ensures 0.0 <= x ==> 0 <= r && r as real <= x
    ensures x <= 0.0 ==> r <= 0 && x <= r as real
    ensures LongMin as real <= x <= LongMax as real ==> x - 1.0 < r as real < x + 1.0
    ensures r < 0 <==> x <= -1.0
  {
    var t := if x >= 0.0 then x.Floor else -((-x).Floor);
    if t < LongMin then LongMin else if t > LongMax then LongMax else t
  }

  // ---------------------------------------------------------------------
  // Decimal reals
  // ---------------------------------------------------------------------

  function Pow10(k: nat): (r: nat)
    ensures r > 0
  {
    if k == 0 then 1 else 10 * Pow10(k - 1)
  }

  /** The exponent part of a floating-point literal: optional sign, digits. */
  function ParseExponent(s: string): Option<int> {
    var neg := |s| > 0 && s[0] == '-';
    var digits := if |s| > 0 && (s[0] == '-' || s[0] == '+') then s[1..] else s;
    if |digits| == 0 || !AllDigits(digits) then None
    else
      var d: int := DigitsValue(digits);
      Some(if neg then -d else d)
  }

  function ScaleBy10(m: real, e: int): real {
    if e >= 0 then m * (Pow10(e) as real) else m / (Pow10(-e) as real)
  }

  /** The digits before and after an optional '.', read as one decimal
      number; None unless both runs are digits and not both empty. */
  function ParseMantissa(mantissa: string): Option<real> {
    var dot := Find(mantissa, '.');
    if dot == |mantissa| then ParseFraction(mantissa, "")
    else ParseFraction(mantissa[..dot], mantissa[dot + 1..])
  }

  function ParseFraction(whole: string, frac: string): Option<real> {
    if !AllDigits(whole) || !AllDigits(frac) || |whole| + |frac| == 0 then None
    else Some((DigitsValue(whole + frac) as real) / (Pow10(|frac|) as real))
  }

  /** An unsigned decimal literal: a mantissa with an optional exponent
      after the first 'e' or 'E'. */
  function ParseUnsigned(body: string): Option<real> {
    var e := if Find(body, 'e') <= Find(body, 'E') then Find(body, 'e') else Find(body, 'E');
    match ParseMantissa(body[..e])
    case None => None
    case Some(m) =>
      if e == |body| then Some(m)
      else match ParseExponent(body[e + 1..])
        case None => None
        case Some(x) => Some(ScaleBy10(m, x))
  }

  /** The text after a leading '-' or '+', if there is one. */
  function WithoutSign(t: string): string {
    if |t| > 0 && (t[0] == '-' || t[0] == '+') then t[1..] else t
  }

  /** The text before a trailing type suffix f, F, d or D, if there is one. */
  function WithoutSuffix(u: string): string {
    if |u| > 0 && u[|u| - 1] in "fFdD" then u[..|u| - 1] else u
  }

  /** Double.parseDouble on decimal notation, exactly: surrounding whitespace
      is trimmed, then an optional sign, digits with an optional fraction,
      an optional exponent and an optional f/F/d/D suffix. */
  function ParseDouble(s: string): Option<real> {
    var t := Trim(s);
    var neg := |t| > 0 && t[0] == '-';
    match ParseUnsigned(WithoutSuffix(WithoutSign(t)))
    case None => None
    case Some(v) => Some(if neg then -v else v)
  }

  lemma AllDigitsNoneTrimmable(s: string)
    requires AllDigits(s)
    ensures Trim(s) == s
  {
    if |s| > 0 {
      assert !IsTrimmable(s[0]) && !IsTrimmable(s[|s| - 1]);
      assert SpanFrom(s, IsTrimmable, 0) == 0;
      assert s[0..] == s;
      assert SpanBack(s, IsTrimmable, |s|) == |s|;
      assert s[..|s|] == s;
    }
  }

  /** A non-empty run of digits reads as its decimal value. */
  lemma ParseDoubleOfDigits(s: string)
    requires |s| > 0 && AllDigits(s)
    ensures ParseDouble(s) == Some(DigitsValue(s) as real)
  {
    AllDigitsNoneTrimmable(s);
    DigitsCarryNoSignOrSuffix(s);
    ParseUnsignedOfDigits(s);
  }

  lemma DigitsCarryNoSignOrSuffix(s: string)
    requires |s| > 0 && AllDigits(s)
    ensures s[0] != '-' && WithoutSign(s) == s && WithoutSuffix(s) == s
  {
    assert IsDigit(s[0]) && IsDigit(s[|s| - 1]);
    assert s[|s| - 1] !in "fFdD";
  }

  lemma ParseUnsignedOfDigits(s: string)
    requires |s| > 0 && AllDigits(s)
    ensures ParseUnsigned(s) == Some(DigitsValue(s) as real)
  {
    assert 'e' !in s && 'E' !in s;
    assert s[..|s|] == s;
    ParseMantissaOfDigits(s);
  }

  lemma ParseMantissaOfDigits(s: string)
    requires |s| > 0 && AllDigits(s)
    ensures ParseMantissa(s) == Some(DigitsValue(s) as real)
  {
    assert '.' !in s;
    assert s + "" == s;
    assert Pow10(0) == 1;
  }

  /** A decimal integer written by Integer.toString reads back as that
      number through Double.parseDouble. */
  lemma ParseDoubleOfNatToString(n: nat)
    ensures ParseDouble(NatToString(n)) == Some(n as real)
  {
    NatToStringValue(n);
    ParseDoubleOfDigits(NatToString(n));
  }

  // ---------------------------------------------------------------------
  // Booleans
  // ---------------------------------------------------------------------

  predicate SameLetterIgnoringCase(c: char, lower: char)
    requires 'a' <= lower <= 'z'
  {
    c == lower || (c as int) == (lower as int) - 32
  }

  /** Boolean.parseBoolean(s.trim()): true exactly for "true" in any letter
      case, false for everything else. */
  predicate ParseBoolean(s: string) {
    var t := Trim(s);
    |t| == 4 && SameLetterIgnoringCase(t[0], 't') && SameLetterIgnoringCase(t[1], 'r')
    && SameLetterIgnoringCase(t[2], 'u') && SameLetterIgnoringCase(t[3], 'e')
  }

  // ---------------------------------------------------------------------
  // String.split
  // ---------------------------------------------------------------------

  /** The pieces of `s` between occurrences of `c`, empty pieces included. */
  function SplitChar(s: string, c: char): (r: seq<string>)
    ensures |r| >= 1
    ensures forall i | 0 <= i < |r| :: c !in r[i]
    ensures c !in s ==> r == [s]
    decreases |s|
  {
    var k := Find(s, c);
    if k == |s| then [s] else [s[..k]] + SplitChar(s[k + 1..], c)
  }

  /** The pieces joined with `sep` between neighbours. */
  function Join(parts: seq<string>, sep: string): string
    decreases |parts|
  {
    if |parts| == 0 then ""
    else if |parts| == 1 then parts[0]
    else parts[0] + sep + Join(parts[1..], sep)
  }

  /** What String.split does with limit 0 after splitting: trailing empty
      strings are removed. */
  function DropTrailingEmpty(parts: seq<string>): (r: seq<string>)
    ensures |r| <= |parts| && r == parts[..|r|]
    ensures |r| > 0 ==> r[|r| - 1] != ""
    ensures forall i | |r| <= i < |parts| :: parts[i] == ""
    decreases |parts|
  {
    if |parts| > 0 && parts[|parts| - 1] == "" then DropTrailingEmpty(parts[..|parts| - 1])
    else parts
  }

  /** The pieces between commas once the whitespace next to each comma has
      been consumed by the separator: leading whitespace goes from every
      piece but the first, trailing whitespace from every piece but the last. */
  function TrimAroundSeparators(parts: seq<string>): (r: seq<string>)
    ensures |r| == |parts|
    ensures forall i | 0 <= i < |parts| :: r[i] == TrimPiece(parts, i)
  {
    seq(|parts|, i requires 0 <= i < |parts| => TrimPiece(parts, i))
  }

  /** Piece `i` without the whitespace next to its neighbouring commas. */
  function TrimPiece(parts: seq<string>, i: nat): string
    requires i < |parts|
  {
    var p := if i > 0 then DropWhileStart(parts[i], IsSpace) else parts[i];
    if i < |parts| - 1 then DropWhileEnd(p, IsSpace) else p
  }

  /** s.split("\\s*,\\s*"): without a comma the whole string is the only
      piece; otherwise the pieces between commas, with the whitespace
      around each comma removed and trailing empty pieces dropped. */
  function SplitCommaList(s: string): seq<string> {
    if ',' !in s then [s]
    else DropTrailingEmpty(TrimAroundSeparators(SplitChar(s, ',')))
  }

  /** s.split("\\."): the dot-separated fields, trailing empty fields dropped. */
  function SplitDots(s: string): seq<string> {
    if '.' !in s then [s] else DropTrailingEmpty(SplitChar(s, '.'))
  }

  /** The pieces of `s` separated by runs of whitespace, empty pieces
      included. */
  function SplitSpaceRuns(s: string): (r: seq<string>)
    ensures |r| >= 1
    decreases |s|
  {
    var k := FirstSpace(s);
    if k == |s| then [s]
    else [s[..k]] + SplitSpaceRuns(DropWhileStart(s[k..], IsSpace))
  }

  function FirstSpace(s: string): (k: nat)
    ensures k <= |s|
    ensures k < |s| ==> IsSpace(s[k])
    ensures forall i | 0 <= i < k :: !IsSpace(s[i])
    decreases |s|
  {
    if |s| == 0 then 0 else if IsSpace(s[0]) then 0 else 1 + FirstSpace(s[1..])
  }

  /** s.split("\\s+"). */
  function SplitWhitespace(s: string): seq<string> {
    if FirstSpace(s) == |s| then [s] else DropTrailingEmpty(SplitSpaceRuns(s))
  }

  // ---------------------------------------------------------------------
  // Properties of the splits
  // ---------------------------------------------------------------------

  /** Splitting at a separator character undoes joining with it. */
  lemma {:induction false} SplitCharJoin(parts: seq<string>, c: char)
    requires |parts| >= 1
    requires forall i | 0 <= i < |parts| :: c !in parts[i]
    ensures SplitChar(Join(parts, [c]), c) == parts
    decreases |parts|
  {
    if |parts| > 1 {
      var s := Join(parts, [c]);
      var rest := Join(parts[1..], [c]);
      assert s == parts[0] + [c] + rest;
      assert Find(s, c) == |parts[0]| by {
        assert s[|parts[0]|] == c;
        forall i | 0 <= i < |parts[0]| ensures s[i] != c {
          assert s[i] == parts[0][i];
        }
      }
      assert s[..|parts[0]|] == parts[0];
      assert s[|parts[0]| + 1..] == rest;
      SplitCharJoin(parts[1..], c);
    }
  }

  /** A field that survives a comma-list split unchanged: no comma inside,
      no whitespace at either end. */
  predicate CleanField(f: string) {
    ',' !in f && (|f| > 0 ==> !IsSpace(f[0]) && !IsSpace(f[|f| - 1]))
  }

  function PadLeft(parts: seq<string>): (r: seq<string>)
    ensures |r| == |parts|
  {
    seq(|parts|, i requires 0 <= i < |parts| => if i == 0 then parts[0] else " " + parts[i])
  }

  lemma {:induction false} JoinPadded(parts: seq<string>)
    requires |parts| >= 1
    ensures Join(parts, ", ") == Join(PadLeft(parts), ",")
    decreases |parts|
  {
    if |parts| > 1 {
      var tail := PadLeft(parts[1..]);
      var padded := PadLeft(parts);
      JoinPadded(parts[1..]);
      PadLeftTail(parts);
      JoinPrefixFirst(" ", tail, ",");
      assert Join(padded, ",") == parts[0] + "," + Join(padded[1..], ",");
    }
  }

  lemma PadLeftTail(parts: seq<string>)
    requires |parts| > 1
    ensures PadLeft(parts)[1..] == [" " + PadLeft(parts[1..])[0]] + PadLeft(parts[1..])[1..]
  {
    var padded, tail := PadLeft(parts), PadLeft(parts[1..]);
    forall i | 1 <= i < |padded| ensures padded[i] == " " + parts[i] {}
    forall i | 1 <= i < |tail| ensures tail[i] == " " + parts[i + 1] {}
  }

  /** Prefixing the first piece prefixes the joined text. */
  lemma JoinPrefixFirst(p: string, parts: seq<string>, sep: string)
    requires |parts| >= 1
    ensures Join([p + parts[0]] + parts[1..], sep) == p + Join(parts, sep)
  {
    var q := [p + parts[0]] + parts[1..];
    assert q[1..] == parts[1..];
  }

  lemma TrimPadded(f: string)
    requires CleanField(f)
    ensures DropWhileStart(" " + f, IsSpace) == f
    ensures DropWhileEnd(f, IsSpace) == f
  {
    var g := " " + f;
    assert SpanFrom(g, IsSpace, 1) == 1 by {
      if 1 < |g| { assert g[1] == f[0]; }
    }
    assert g[1..] == f;
    assert SpanBack(f, IsSpace, |f|) == |f|;
    assert f[..|f|] == f;
  }

  lemma SplitJoinedFields(fields: seq<string>)
    requires |fields| >= 1
    requires forall i | 0 <= i < |fields| :: CleanField(fields[i])
    ensures SplitChar(Join(fields, ", "), ',') == PadLeft(fields)
  {
    var padded := PadLeft(fields);
    JoinPadded(fields);
    forall i | 0 <= i < |padded| ensures ',' !in padded[i] {
      if i > 0 {
        assert padded[i] == " " + fields[i];
      }
    }
    SplitCharJoin(padded, ',');
  }

  lemma JoinedFieldsHaveComma(fields: seq<string>)
    requires |fields| > 1
    ensures ',' in Join(fields, ", ")
  {
    var s := Join(fields, ", ");
    assert s == fields[0] + ", " + Join(fields[1..], ", ");
    assert s[|fields[0]|] == ',';
  }

  lemma TrimPaddedFields(fields: seq<string>)
    requires forall i | 0 <= i < |fields| :: CleanField(fields[i])
    ensures TrimAroundSeparators(PadLeft(fields)) == fields
  {
    forall i | 0 <= i < |fields| ensures TrimPiece(PadLeft(fields), i) == fields[i] {
      TrimPaddedPiece(fields, i);
    }
  }

  lemma TrimPaddedPiece(fields: seq<string>, i: nat)
    requires i < |fields| && CleanField(fields[i])
    ensures TrimPiece(PadLeft(fields), i) == fields[i]
  {
    var padded := PadLeft(fields);
    assert padded[i] == if i == 0 then fields[0] else " " + fields[i];
    TrimPadded(fields[i]);
  }

  /** Util.parseStringArray returns the fields of a list written with ", "
      between them, as long as the fields are clean and the list does not
      end in an empty field. */
  lemma SplitCommaListOfJoin(fields: seq<string>)
    requires |fields| >= 1
    requires forall i | 0 <= i < |fields| :: CleanField(fields[i])
    requires |fields| == 1 || fields[|fields| - 1] != ""
    ensures SplitCommaList(Join(fields, ", ")) == fields
  {
    if |fields| > 1 {
      JoinedFieldsHaveComma(fields);
      SplitJoinedFields(fields);
      TrimPaddedFields(fields);
    }
  }
}
