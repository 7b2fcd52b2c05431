// A reader for JSON texts, following sections 2 to 7 of RFC 8259 (whitespace, literals, objects, arrays,
// numbers, strings). It is written from the grammar alone and knows nothing of the printer.
module JsonGrammar {
  import opened Decimal

  /** A `google.protobuf.Value` number is a double: finite or one of the three non-finite values. */
  datatype Number = NaN | PosInfinity | NegInfinity | Finite(value: real)

  datatype Field = Field(key: string, value: Value)

  /** `google.protobuf.Value`: `Unset` is a value whose kind was never filled in. */
  datatype Value =
    | Unset
    | Null
    | Bool(flag: bool)
    | Num(number: Number)
    | Str(text: string)
    | List(items: seq<Value>)
    | Struct(fields: seq<Field>)

  /** What reading a prefix of a text yields: a value and the text after it. */
  datatype Parse<+T> = Match(value: T, rest: string) | Mismatch

  // --- section 2: whitespace ------------------------------------------------

  predicate IsSpace(c: char) {
    c == ' ' || c == '\t' || c == '\n' || c == '\r'
  }

  function SkipSpace(s: string): (r: string)
    ensures |r| <= |s|
  {
    if s != "" && IsSpace(s[0]) then SkipSpace(s[1..]) else s
  }

  predicate StartsWith(s: string, c: char) {
    s != "" && s[0] == c
  }

  // --- section 6: numbers -----------------------------------------------------

  function Pow10(n: nat): (p: real)
    ensures p > 0.0
  {
    if n == 0 then 1.0 else 10.0 * Pow10(n - 1)
  }

  function Scale(x: real, exponent: int): real {
    if exponent >= 0 then x * Pow10(exponent) else x / Pow10(-exponent)
  }

  /** `int = zero / ( digit1-9 *DIGIT )` */
  function ParseInteger(s: string): (p: Parse<nat>)
    ensures p.Match? ==> |p.rest| < |s|
  {
    var k := DigitRun(s);
    if k == 0 then Mismatch
    else if s[0] == '0' then Match(0, s[1..])
    else Match(ValueOf(s[..k]), s[k..])
  }

  /** `frac = decimal-point 1*DIGIT`, optional */
  function ParseFraction(s: string): (p: Parse<real>)
    ensures p.Match? ==> |p.rest| <= |s|
  {
    if !StartsWith(s, '.') then Match(0.0, s)
    else
      var k := DigitRun(s[1..]);
      if k == 0 then Mismatch
      else Match(ValueOf(s[1..][..k]) as real / Pow10(k), s[1..][k..])
  }

  predicate StartsExponent(s: string) {
    StartsWith(s, 'e') || StartsWith(s, 'E')
  }

  predicate StartsWithSign(s: string) {
    StartsWith(s, '+') || StartsWith(s, '-')
  }

  function SkipSign(s: string): string {
    if StartsWithSign(s) then s[1..] else s
  }

  /** `1*DIGIT`, negated after a minus. */
  function ParseSigned(digits: string, negative: bool): (p: Parse<int>)
    ensures p.Match? ==> |p.rest| <= |digits|
  {
    var k := DigitRun(digits);
    if k == 0 then Mismatch
    else
      var n: int := ValueOf(digits[..k]);
      Match(if negative then -n else n, digits[k..])
  }

  /** `exp = e [ minus / plus ] 1*DIGIT`, optional */
  function ParseExponent(s: string): (p: Parse<int>)
    ensures p.Match? ==> |p.rest| <= |s|
  {
    if !StartsExponent(s) then Match(0, s)
    else ParseSigned(SkipSign(s[1..]), StartsWith(s[1..], '-'))
  }

  /** The parts of an unsigned number. */
  datatype Parts = Parts(integer: nat, fraction: real, exponent: int) {
    function Value(): real {
      Scale(integer as real + fraction, exponent)
    }
  }

  /** `int [ frac ] [ exp ]` */
  function ParseUnsigned(s: string): (p: Parse<Parts>)
    ensures p.Match? ==> |p.rest| < |s|
  {
    match ParseInteger(s)
    case Mismatch => Mismatch
    case Match(n, afterInt) =>
      match ParseFraction(afterInt)
      case Mismatch => Mismatch
      case Match(f, afterFrac) =>
        match ParseExponent(afterFrac)
        case Mismatch => Mismatch
        case Match(e, rest) => Match(Parts(n, f, e), rest)
  }

  /** The number with these parts, negated after a minus. */
  function NumberOf(p: Parse<Parts>, negative: bool): Parse<real> {
    match p
    case Mismatch => Mismatch
    case Match(parts, rest) => Match(if negative then -parts.Value() else parts.Value(), rest)
  }

  function SkipMinus(s: string): string {
    if StartsWith(s, '-') then s[1..] else s
  }

  /** `number = [ minus ] int [ frac ] [ exp ]` */
  function ParseNumber(s: string): (p: Parse<real>)
    ensures p.Match? ==> |p.rest| < |s|
  {
    NumberOf(ParseUnsigned(SkipMinus(s)), StartsWith(s, '-'))
  }

  /** Text after which a number cannot go on. */
  predicate EndsNumber(rest: string) {
    !StartsWithDigit(rest) && !StartsWith(rest, '.') && !StartsExponent(rest)
  }

  // --- section 7: strings -------------------------------------------------------

  function HexValue(c: char): int {
    if '0' <= c <= '9' then c as int - '0' as int
    else if 'a' <= c <= 'f' then c as int - 'a' as int + 10
    else if 'A' <= c <= 'F' then c as int - 'A' as int + 10
    else -1
  }

  /** Four hexadecimal digits as one UTF-16 code unit, or -1. */
  function CodeUnit(s: string): (u: int)
    ensures -1 <= u < 0x10000
    ensures u >= 0 ==> |s| >= 4
  {
    if |s| < 4 || HexValue(s[0]) < 0 || HexValue(s[1]) < 0 || HexValue(s[2]) < 0 || HexValue(s[3]) < 0 then -1
    else ((HexValue(s[0]) * 16 + HexValue(s[1])) * 16 + HexValue(s[2])) * 16 + HexValue(s[3])
  }

  /** The text after a backslash: the character it stands for and what follows. */
  function ParseEscape(s: string): (p: Parse<char>)
    ensures p.Match? ==> |p.rest| < |s|
  {
    if s == "" then Mismatch
    else match s[0]
      case '"' => Match('"', s[1..])
      case '\\' => Match('\\', s[1..])
      case '/' => Match('/', s[1..])
      case 'b' => Match('\U{0008}', s[1..])
      case 'f' => Match('\U{000C}', s[1..])
      case 'n' => Match('\n', s[1..])
      case 'r' => Match('\r', s[1..])
      case 't' => Match('\t', s[1..])
      case 'u' => ParseUnicode(s[1..])
      case _ => Mismatch
  }

  /** `uXXXX`, or a surrogate pair `uXXXX\uXXXX`; a lone surrogate is rejected. */
  function ParseUnicode(s: string): (p: Parse<char>)
    ensures p.Match? ==> |p.rest| <= |s|
  {
    var u := CodeUnit(s);
    if u < 0 || 0xDC00 <= u < 0xE000 then Mismatch
    else if u < 0xD800 || 0xE000 <= u then Match(u as char, s[4..])
    else if !("\\u" <= s[4..]) then Mismatch
    else
      var low := CodeUnit(s[6..]);
      if low < 0xDC00 || 0xE000 <= low then Mismatch
      else Match((0x10000 + (u - 0xD800) * 0x400 + (low - 0xDC00)) as char, s[10..])
  }

  /** The characters of a string up to and including its closing quotation mark. */
  function ParseChars(s: string): (p: Parse<string>)
    ensures p.Match? ==> |p.rest| < |s| && |p.value| + |p.rest| < |s|
  {
    if s == "" || s[0] < ' ' then Mismatch
    else if s[0] == '"' then Match("", s[1..])
    else
      var first := if s[0] == '\\' then ParseEscape(s[1..]) else Match(s[0], s[1..]);
      match first
      case Mismatch => Mismatch
      case Match(c, rest) =>
        match ParseChars(rest)
        case Mismatch => Mismatch
        case Match(cs, rest') => Match([c] + cs, rest')
  }

  // --- sections 3 to 5: values, objects, arrays -----------------------------------

  /** The three literal names and numbers. */
  function ParseScalar(s: string): (p: Parse<Value>)
    ensures p.Match? ==> |p.rest| < |s| && !p.value.Str?
  {
    if "null" <= s then Match(Null, s[4..])
    else if "true" <= s then Match(Bool(true), s[4..])
    else if "false" <= s then Match(Bool(false), s[5..])
    else AsValue(ParseNumber(s))
  }

  function AsValue(p: Parse<real>): Parse<Value> {
    match p
    case Mismatch => Mismatch
    case Match(x, rest) => Match(Num(Finite(x)), rest)
  }

  function ParseValue(s: string): (p: Parse<Value>)
    ensures p.Match? ==> |p.rest| < |s|
    decreases |s|, 0
  {
    if s == "" then Mismatch
    else if s[0] == '"' then
      match ParseChars(s[1..])
      case Mismatch => Mismatch
      case Match(text, rest) => Match(Str(text), rest)
    else if s[0] == '[' then
      var inner := SkipSpace(s[1..]);
      if StartsWith(inner, ']') then Match(List([]), inner[1..])
      else match ParseItems(inner)
        case Mismatch => Mismatch
        case Match(items, rest) => Match(List(items), rest)
    else if s[0] == '{' then
      var inner := SkipSpace(s[1..]);
      if StartsWith(inner, '}') then Match(Struct([]), inner[1..])
      else match ParseFields(inner)
        case Mismatch => Mismatch
        case Match(fields, rest) => Match(Struct(fields), rest)
    else ParseScalar(s)
  }

  /** One or more comma-separated values and the closing bracket. */
  function ParseItems(s: string): (p: Parse<seq<Value>>)
    ensures p.Match? ==> |p.rest| < |s|
    decreases |s|, 1
  {
    match ParseValue(SkipSpace(s))
    case Mismatch => Mismatch
    case Match(item, afterItem) =>
      var next := SkipSpace(afterItem);
      if StartsWith(next, ']') then Match([item], next[1..])
      else if StartsWith(next, ',') then
        match ParseItems(next[1..])
        case Mismatch => Mismatch
        case Match(items, rest) => Match([item] + items, rest)
      else Mismatch
  }

  /** `member = string name-separator value` */
  function ParseField(s: string): (p: Parse<Field>)
    ensures p.Match? ==> |p.rest| < |s|
    decreases |s|, 0
  {
    if !StartsWith(s, '"') then Mismatch
    else match ParseChars(s[1..])
      case Mismatch => Mismatch
      case Match(key, afterKey) =>
        var separator := SkipSpace(afterKey);
        if !StartsWith(separator, ':') then Mismatch
        else match ParseValue(SkipSpace(separator[1..]))
          case Mismatch => Mismatch
          case Match(value, rest) => Match(Field(key, value), rest)
  }

  /** One or more comma-separated members and the closing brace. */
  function ParseFields(s: string): (p: Parse<seq<Field>>)
    ensures p.Match? ==> |p.rest| < |s|
    decreases |s|, 1
  {
    match ParseField(SkipSpace(s))
    case Mismatch => Mismatch
    case Match(field, afterField) =>
      var next := SkipSpace(afterField);
      if StartsWith(next, '}') then Match([field], next[1..])
      else if StartsWith(next, ',') then
        match ParseFields(next[1..])
        case Mismatch => Mismatch
        case Match(fields, rest) => Match([field] + fields, rest)
      else Mismatch
  }

  /** `JSON-text = ws value ws`, with nothing left over. */
  function ParseText(s: string): Parse<Value> {
    match ParseValue(SkipSpace(s))
    case Mismatch => Mismatch
    case Match(v, rest) => if SkipSpace(rest) == "" then Match(v, "") else Mismatch
  }

  // --- whole numbers -------------------------------------------------------------------

  /** Decimal digits are an unsigned number. */
  lemma NaturalReads(n: nat)
    ensures ParseInteger(NatText(n)) == Match(n, "") && !StartsWith(NatText(n), '-')
  {
    NatTextReads(n);
    var t := NatText(n);
    DigitRunOfDigits(t);
    assert t[..|t|] == t && t[|t|..] == "";
  }

  lemma WholeParts(integer: nat, fraction: real)
    ensures Parts(integer, fraction, 0).Value() == integer as real + fraction
  {
    assert Pow10(0) == 1.0;
  }

  lemma WholeNumberReads(n: nat)
    ensures ParseUnsigned(NatText(n)) == Match(Parts(n, 0.0, 0), "")
    ensures ParseNumber(NatText(n)) == Match(n as real, "")
  {
    NaturalReads(n);
    WholeParts(n, 0.0);
  }

  lemma NegativeReads(t: string, parts: Parts)
    requires ParseUnsigned(t) == Match(parts, "")
    ensures ParseNumber("-" + t) == Match(-parts.Value(), "")
  {
    assert ("-" + t)[1..] == t;
  }

  // --- numbers read the same in front of any text that ends them -------------------

  lemma IntegerExtends(s: string, rest: string)
    requires ParseInteger(s).Match? && !StartsWithDigit(rest)
    ensures ParseInteger(s + rest) == Match(ParseInteger(s).value, ParseInteger(s).rest + rest)
  {
    DigitRunExtends(s, rest);
    assert (s + rest)[1..] == s[1..] + rest;
  }

  lemma FractionExtends(s: string, rest: string)
    requires ParseFraction(s).Match? && !StartsWithDigit(rest) && !StartsWith(rest, '.')
    ensures ParseFraction(s + rest) == Match(ParseFraction(s).value, ParseFraction(s).rest + rest)
  {
    if StartsWith(s, '.') {
      assert (s + rest)[1..] == s[1..] + rest;
      DigitRunExtends(s[1..], rest);
    } else if s == "" {
      assert s + rest == rest;
    }
  }

  lemma FractionFollows(whole: string, tail: string, n: nat, x: real)
    requires ParseInteger(whole) == Match(n, "") && ParseFraction(tail) == Match(x, "") && StartsWith(tail, '.')
    ensures ParseUnsigned(whole + tail) == Match(Parts(n, x, 0), "")
  {
    IntegerExtends(whole, tail);
    assert "" + tail == tail;
    assert ParseExponent("") == Match(0, "");
  }

  lemma SignedExtends(digits: string, negative: bool, rest: string)
    requires ParseSigned(digits, negative).Match? && !StartsWithDigit(rest)
    ensures ParseSigned(digits + rest, negative) ==
      Match(ParseSigned(digits, negative).value, ParseSigned(digits, negative).rest + rest)
  {
    DigitRunExtends(digits, rest);
  }

  lemma SignExtends(s: string, rest: string)
    requires s != ""
    ensures SkipSign(s + rest) == SkipSign(s) + rest && StartsWith(s + rest, '-') == StartsWith(s, '-')
  {
    assert (s + rest)[0] == s[0];
    assert (s + rest)[1..] == s[1..] + rest;
  }

  lemma ExponentExtends(s: string, rest: string)
    requires ParseExponent(s).Match? && EndsNumber(rest)
    ensures ParseExponent(s + rest) == Match(ParseExponent(s).value, ParseExponent(s).rest + rest)
  {
    if StartsExponent(s) {
      assert (s + rest)[0] == s[0] && (s + rest)[1..] == s[1..] + rest;
      SignExtends(s[1..], rest);
      SignedExtends(SkipSign(s[1..]), StartsWith(s[1..], '-'), rest);
    } else if s == "" {
      assert s + rest == rest;
    }
  }

  lemma UnsignedExtends(s: string, rest: string)
    requires ParseUnsigned(s).Match? && EndsNumber(rest)
    ensures ParseUnsigned(s + rest) == Match(ParseUnsigned(s).value, ParseUnsigned(s).rest + rest)
  {
    var Match(n, afterInt) := ParseInteger(s);
    var Match(f, afterFrac) := ParseFraction(afterInt);
    var Match(e, afterExp) := ParseExponent(afterFrac);
    assert ParseInteger(s + rest) == Match(n, afterInt + rest) by { IntegerExtends(s, rest); }
    assert ParseFraction(afterInt + rest) == Match(f, afterFrac + rest) by { FractionExtends(afterInt, rest); }
    assert ParseExponent(afterFrac + rest) == Match(e, afterExp + rest) by { ExponentExtends(afterFrac, rest); }
  }

  lemma NumberOfExtends(p: Parse<Parts>, q: Parse<Parts>, negative: bool, more: string)
    requires p.Match? && q == Match(p.value, p.rest + more)
    ensures var n := NumberOf(p, negative); NumberOf(q, negative) == Match(n.value, n.rest + more)
  {
  }

  lemma MinusExtends(s: string, rest: string)
    requires s != ""
    ensures SkipMinus(s + rest) == SkipMinus(s) + rest && StartsWith(s + rest, '-') == StartsWith(s, '-')
  {
    assert (s + rest)[0] == s[0];
    assert (s + rest)[1..] == s[1..] + rest;
  }

  lemma NumberExtends(s: string, rest: string)
    requires ParseNumber(s).Match? && EndsNumber(rest)
    ensures ParseNumber(s + rest) == Match(ParseNumber(s).value, ParseNumber(s).rest + rest)
  {
    var digits := SkipMinus(s);
    MinusExtends(s, rest);
    UnsignedExtends(digits, rest);
    NumberOfExtends(ParseUnsigned(digits), ParseUnsigned(digits + rest), StartsWith(s, '-'), rest);
  }

  // --- one step of each list reader ------------------------------------------------

  lemma SkipsNothing(s: string)
    requires s == "" || !IsSpace(s[0])
    ensures SkipSpace(s) == s
  {
  }

  lemma LastItem(s: string, rest: string)
    requires SkipSpace(s) == s
    requires ParseValue(s).Match? ==> ParseValue(s).rest == "]" + rest
    ensures ParseItems(s) == match ParseValue(s) { case Mismatch => Mismatch case Match(v, _) => Match([v], rest) }
  {
    SkipsNothing("]" + rest);
    assert ("]" + rest)[1..] == rest;
  }

  lemma MoreItems(s: string, tail: string)
    requires SkipSpace(s) == s
    requires ParseValue(s).Match? ==> ParseValue(s).rest == "," + tail
    ensures ParseItems(s) ==
      if ParseValue(s).Mismatch? || ParseItems(tail).Mismatch? then Mismatch
      else Match([ParseValue(s).value] + ParseItems(tail).value, ParseItems(tail).rest)
  {
    SkipsNothing("," + tail);
    assert ("," + tail)[1..] == tail;
  }

  lemma LastField(s: string, rest: string)
    requires SkipSpace(s) == s
    requires ParseField(s).Match? ==> ParseField(s).rest == "}" + rest
    ensures ParseFields(s) == match ParseField(s) { case Mismatch => Mismatch case Match(f, _) => Match([f], rest) }
  {
    SkipsNothing("}" + rest);
    assert ("}" + rest)[1..] == rest;
  }

  lemma MoreFields(s: string, tail: string)
    requires SkipSpace(s) == s
    requires ParseField(s).Match? ==> ParseField(s).rest == "," + tail
    ensures ParseFields(s) ==
      if ParseField(s).Mismatch? || ParseFields(tail).Mismatch? then Mismatch
      else Match([ParseField(s).value] + ParseFields(tail).value, ParseFields(tail).rest)
  {
    SkipsNothing("," + tail);
    assert ("," + tail)[1..] == tail;
  }

  lemma OneField(key: string, s: string, afterKey: string, valueText: string)
    requires StartsWith(s, '"') && ParseChars(s[1..]) == Match(key, afterKey)
    requires afterKey == ":" + valueText && SkipSpace(valueText) == valueText
    ensures ParseField(s) ==
      match ParseValue(valueText) { case Mismatch => Mismatch case Match(v, rest) => Match(Field(key, v), rest) }
  {
    SkipsNothing(afterKey);
    assert afterKey[1..] == valueText;
  }

  lemma NonEmptyList(s: string, inner: string)
    requires s == "[" + inner && inner != "" && !IsSpace(inner[0]) && inner[0] != ']'
    ensures ParseValue(s) ==
      match ParseItems(inner) { case Mismatch => Mismatch case Match(items, rest) => Match(List(items), rest) }
  {
    assert s[1..] == inner;
    SkipsNothing(inner);
  }

  lemma NonEmptyStruct(s: string, inner: string)
    requires s == "{" + inner && inner != "" && !IsSpace(inner[0]) && inner[0] != '}'
    ensures ParseValue(s) ==
      match ParseFields(inner) { case Mismatch => Mismatch case Match(fields, rest) => Match(Struct(fields), rest) }
  {
    assert s[1..] == inner;
    SkipsNothing(inner);
  }

  lemma NumberStarts(s: string)
    requires ParseNumber(s).Match?
    ensures s != "" && (s[0] == '-' || IsDigit(s[0]))
  {
  }

  lemma NotALiteral(s: string)
    requires s != "" && (s[0] == '-' || IsDigit(s[0]))
    ensures ParseScalar(s) == AsValue(ParseNumber(s))
  {
    assert "null"[0] == 'n' && "true"[0] == 't' && "false"[0] == 'f';
  }

  lemma NotAContainer(s: string)
    requires s != "" && (s[0] == '-' || IsDigit(s[0]))
    ensures ParseValue(s) == ParseScalar(s)
  {
  }

  /** Text that starts like a number is left to the number reader. */
  lemma NumbersAreNotLiterals(s: string)
    requires s != "" && (s[0] == '-' || IsDigit(s[0]))
    ensures ParseValue(s) == AsValue(ParseNumber(s))
  {
    NotALiteral(s);
    NotAContainer(s);
  }

  /** A number in front of text that cannot continue it is a value. */
  lemma NumberInFront(t: string, x: real, rest: string)
    requires ParseNumber(t) == Match(x, "") && EndsNumber(rest)
    ensures ParseValue(t + rest) == Match(Num(Finite(x)), rest)
  {
    NumberStarts(t);
    NumberExtends(t, rest);
    assert (t + rest)[0] == t[0] && "" + rest == rest;
    NumbersAreNotLiterals(t + rest);
  }

  lemma ClosingQuote(rest: string)
    ensures ParseChars("\"" + rest) == Match("", rest)
  {
    assert ("\"" + rest)[1..] == rest;
  }
}
