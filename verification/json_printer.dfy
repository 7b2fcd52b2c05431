// The hand-written JSON printer of the gRPC inbound provider: how CloudEvent extension attributes, which
// arrive as `google.protobuf.Value` trees, become text.
module JsonPrinter {
  import opened Common
  import opened Decimal
  import opened JsonGrammar

  // --- strings -----------------------------------------------------------------

  function HexDigit(d: nat): char
    requires d < 16
  {
    "0123456789abcdef"[d]
  }

  /** The text printed for one character: a short escape, a four-digit escape, or the character itself. */
  function EscapeChar(c: char): string {
    match c
    case '"' => "\\\""
    case '\\' => "\\\\"
    case '\n' => "\\n"
    case '\r' => "\\r"
    case '\t' => "\\t"
    case _ =>
      if c < ' ' then "\\u00" + [HexDigit(c as int / 16), HexDigit(c as int % 16)] else [c]
  }

  function Escape(text: string): string {
    if text == "" then "" else EscapeChar(text[0]) + Escape(text[1..])
  }

  function Quote(text: string): string {
    "\"" + Escape(text) + "\""
  }

  /** Only the five characters with a short escape are printed as two, other control characters as six and everything
      else as itself. */
  lemma EscapesAreShort(c: char)
    ensures |EscapeChar(c)| ==
      if c == '"' || c == '\\' || c == '\n' || c == '\r' || c == '\t' then 2 else if c < ' ' then 6 else 1
    ensures |EscapeChar(c)| == 1 ==> EscapeChar(c) == [c]
  {
  }

  lemma {:induction false} EscapeAppends(text: string, c: char)
    ensures Escape(text + [c]) == Escape(text) + EscapeChar(c)
  {
    if text == "" {
      assert text + [c] == [c];
    } else {
      assert (text + [c])[1..] == text[1..] + [c];
      EscapeAppends(text[1..], c);
    }
  }

  lemma NextEscape(text: string, i: nat, out: string, piece: string)
    requires i < |text| && out == "\"" + Escape(text[..i]) && piece == EscapeChar(text[i])
    ensures out + piece == "\"" + Escape(text[..i + 1])
  {
    EscapeAppends(text[..i], text[i]);
    assert text[..i + 1] == text[..i] + [text[i]];
    Associative("\"", Escape(text[..i]), piece);
  }

  lemma Associative(a: string, b: string, c: string)
    ensures (a + b) + c == a + (b + c)
  {
  }

  /** `json_string`: push the quotes and the escaped characters onto an output buffer. */
  method JsonString(text: string) returns (out: string)
    ensures out == Quote(text)
  {
    out := "\"";
    for i := 0 to |text|
      invariant out == "\"" + Escape(text[..i])
    {
      var piece := EscapedChar(text[i]);
      NextEscape(text, i, out, piece);
      out := out + piece;
    }
    assert text[..|text|] == text;
    out := out + "\"";
  }

  /** The match in the loop of `json_string`. */
  method EscapedChar(c: char) returns (piece: string)
    ensures piece == EscapeChar(c)
  {
    match c {
      case '"' => piece := "\\\"";
      case '\\' => piece := "\\\\";
      case '\n' => piece := "\\n";
      case '\r' => piece := "\\r";
      case '\t' => piece := "\\t";
      case _ =>
        if c < ' ' {
          piece := "\\u00" + [HexDigit(c as int / 16), HexDigit(c as int % 16)];
        } else {
          piece := [c];
        }
    }
  }

  // --- values ------------------------------------------------------------------

  const INTEGER_LIMIT := 1000000000000000

  /** The guard under which a number is printed through its integer value. */
  predicate PrintsAsInteger(r: real) {
    r == r.Floor as real && -(INTEGER_LIMIT as real) < r < INTEGER_LIMIT as real
  }

  /** `floatText` is the language's own float formatter, used for every other finite number. */
  function NumberText(n: Number, floatText: real -> string): string {
    match n
    case Finite(r) => if PrintsAsInteger(r) then IntText(r.Floor) else floatText(r)
    case NaN => "NaN"
    case PosInfinity => "inf"
    case NegInfinity => "-inf"
  }

  function Join(texts: seq<string>): string {
    if |texts| == 0 then ""
    else if |texts| == 1 then texts[0]
    else texts[0] + "," + Join(texts[1..])
  }

  /** Strings pass through verbatim, everything else is rendered as JSON text. */
  function ValueToString(v: Value, floatText: real -> string): string
    decreases v, 0
  {
    match v
    case Str(text) => text
    case Num(n) => NumberText(n, floatText)
    case Bool(flag) => if flag then "true" else "false"
    case Unset => "null"
    case Null => "null"
    case Struct(fields) => "{" + Join(FieldTexts(fields, floatText)) + "}"
    case List(items) => "[" + Join(ItemTexts(items, floatText)) + "]"
  }

  /** The form used inside a list or a struct: strings are quoted. */
  function ValueToJson(v: Value, floatText: real -> string): string
    decreases v, 1
  {
    if v.Str? then Quote(v.text) else ValueToString(v, floatText)
  }

  function ItemTexts(items: seq<Value>, floatText: real -> string): (texts: seq<string>)
    ensures |texts| == |items|
    decreases items
  {
    if items == [] then [] else [ValueToJson(items[0], floatText)] + ItemTexts(items[1..], floatText)
  }

  function FieldText(field: Field, floatText: real -> string): string
    decreases field
  {
    Quote(field.key) + ":" + ValueToJson(field.value, floatText)
  }

  function FieldTexts(fields: seq<Field>, floatText: real -> string): (texts: seq<string>)
    ensures |texts| == |fields|
    decreases fields
  {
    if fields == [] then [] else [FieldText(fields[0], floatText)] + FieldTexts(fields[1..], floatText)
  }

  function Lengths(texts: seq<string>): nat {
    if texts == [] then 0 else |texts[0]| + Lengths(texts[1..])
  }

  lemma {:induction false} JoinLength(texts: seq<string>)
    requires texts != []
    ensures |Join(texts)| == Lengths(texts) + |texts| - 1
  {
    if |texts| > 1 {
      JoinLength(texts[1..]);
    } else {
      assert texts[1..] == [];
    }
  }

  /** The text is compact: besides the texts of its parts a list or struct has its brackets, one comma between two parts
      and one colon in each field. */
  lemma TextIsCompact(v: Value, floatText: real -> string)
    ensures v == List([]) || v == Struct([]) ==> |ValueToJson(v, floatText)| == 2
    ensures v.List? && v.items != [] ==>
      |ValueToJson(v, floatText)| == Lengths(ItemTexts(v.items, floatText)) + |v.items| + 1
    ensures v.Struct? && v.fields != [] ==>
      |ValueToJson(v, floatText)| == Lengths(FieldTexts(v.fields, floatText)) + |v.fields| + 1
    ensures forall field: Field ::
      |FieldText(field, floatText)| == |Quote(field.key)| + 1 + |ValueToJson(field.value, floatText)|
  {
    if v.List? && v.items != [] {
      JoinLength(ItemTexts(v.items, floatText));
    } else if v.Struct? && v.fields != [] {
      JoinLength(FieldTexts(v.fields, floatText));
    }
  }

  // --- what the text means --------------------------------------------------------

  /** The float formatter's contract: its output is one number of the grammar. */
  ghost predicate PrintsNumbers(floatText: real -> string) {
    forall r: real :: !PrintsAsInteger(r) ==>
      ParseNumber(floatText(r)).Match? && ParseNumber(floatText(r)).rest == ""
  }

  /** No number in the tree is NaN or an infinity. */
  predicate AllFinite(v: Value)
    decreases v
  {
    match v
    case Num(n) => n.Finite?
    case List(items) => ItemsFinite(items)
    case Struct(fields) => FieldsFinite(fields)
    case _ => true
  }

  predicate ItemsFinite(items: seq<Value>)
    decreases items
  {
    items != [] ==> AllFinite(items[0]) && ItemsFinite(items[1..])
  }

  predicate FieldsFinite(fields: seq<Field>)
    decreases fields
  {
    fields != [] ==> AllFinite(fields[0].value) && FieldsFinite(fields[1..])
  }

  /** The number the text of a finite number denotes. */
  function ReadNumber(r: real, floatText: real -> string): real {
    if PrintsAsInteger(r) then r
    else if ParseNumber(floatText(r)).Match? then ParseNumber(floatText(r)).value
    else r
  }

  /** The tree a reader of the printed text sees: an unset kind is null, and a number left to the float
      formatter is what that formatter's text denotes. */
  function Reading(v: Value, floatText: real -> string): Value
    decreases v
  {
    match v
    case Unset => Null
    case Num(Finite(r)) => Num(Finite(ReadNumber(r, floatText)))
    case List(items) => List(Readings(items, floatText))
    case Struct(fields) => Struct(FieldReadings(fields, floatText))
    case _ => v
  }

  function Readings(items: seq<Value>, floatText: real -> string): seq<Value>
    decreases items
  {
    if items == [] then [] else [Reading(items[0], floatText)] + Readings(items[1..], floatText)
  }

  function FieldReadings(fields: seq<Field>, floatText: real -> string): seq<Field>
    decreases fields
  {
    if fields == [] then []
    else
      var first := fields[0];
      [Field(first.key, Reading(first.value, floatText))] + FieldReadings(fields[1..], floatText)
  }

  // --- strings read back -------------------------------------------------------------

  lemma HexDigitReads(d: nat)
    requires d < 16
    ensures HexValue(HexDigit(d)) == d
  {
  }

  /** The four hexadecimal digits printed for a control character are its code unit. */
  lemma ControlCodeReads(c: char, rest: string)
    requires c < ' '
    ensures var digits := ['0', '0', HexDigit(c as int / 16), HexDigit(c as int % 16)];
      CodeUnit(digits + rest) == c as int && (digits + rest)[4..] == rest
  {
    HexDigitReads(c as int / 16);
    HexDigitReads(c as int % 16);
  }

  lemma EscapeReads(c: char, rest: string)
    requires EscapeChar(c) != [c]
    ensures EscapeChar(c)[0] == '\\'
    ensures ParseEscape(EscapeChar(c)[1..] + rest) == Match(c, rest)
  {
    var e := EscapeChar(c)[1..];
    assert (e + rest)[0] == e[0];
    if |e| == 1 {
      assert (e + rest)[1..] == rest;
    } else {
      var digits := ['0', '0', HexDigit(c as int / 16), HexDigit(c as int % 16)];
      assert (e + rest)[1..] == digits + rest;
      ControlCodeReads(c, rest);
    }
  }

  lemma BackslashReads(e: string, c: char, rest: string)
    requires e != "" && e[0] == '\\' && ParseEscape(e[1..] + rest) == Match(c, rest)
    requires ParseChars(rest).Match?
    ensures ParseChars(e + rest) == Match([c] + ParseChars(rest).value, ParseChars(rest).rest)
  {
    assert (e + rest)[1..] == e[1..] + rest;
  }

  lemma PlainCharReads(c: char, rest: string)
    requires c >= ' ' && c != '"' && c != '\\' && ParseChars(rest).Match?
    ensures ParseChars([c] + rest) == Match([c] + ParseChars(rest).value, ParseChars(rest).rest)
  {
    assert ([c] + rest)[1..] == rest;
  }

  lemma PlainOrEscaped(c: char)
    ensures EscapeChar(c) == [c] <==> c >= ' ' && c != '"' && c != '\\'
    ensures EscapeChar(c) != ""
  {
  }

  lemma EscapedCharReads(c: char, rest: string)
    requires ParseChars(rest).Match?
    ensures ParseChars(EscapeChar(c) + rest) == Match([c] + ParseChars(rest).value, ParseChars(rest).rest)
  {
    PlainOrEscaped(c);
    if EscapeChar(c) == [c] {
      PlainCharReads(c, rest);
    } else {
      EscapeReads(c, rest);
      BackslashReads(EscapeChar(c), c, rest);
    }
  }

  lemma {:induction false} EscapedTextReads(text: string, rest: string)
    ensures ParseChars(Escape(text) + "\"" + rest) == Match(text, rest)
  {
    if text == "" {
      assert Escape(text) + "\"" + rest == "\"" + rest;
      ClosingQuote(rest);
    } else {
      var tail := Escape(text[1..]) + "\"" + rest;
      assert Escape(text) + "\"" + rest == EscapeChar(text[0]) + tail;
      assert ParseChars(tail) == Match(text[1..], rest) by {
        EscapedTextReads(text[1..], rest);
      }
      EscapedCharReads(text[0], tail);
      assert text == [text[0]] + text[1..];
    }
  }

  // --- numbers read back ---------------------------------------------------------------

  lemma IntTextParses(n: int)
    ensures ParseNumber(IntText(n)) == Match(n as real, "")
  {
    if n < 0 {
      WholeNumberReads(-n);
      WholeParts(-n, 0.0);
      NegativeReads(NatText(-n), Parts(-n, 0.0, 0));
    } else {
      WholeNumberReads(n);
    }
  }

  /** Integral numbers below 10^15 do not pass through the float formatter: their text denotes them whatever that prints.
      Exactly the other finite numbers are left to it. */
  lemma IntegralTextParses(r: real, floatText: real -> string)
    ensures r == r.Floor as real && -1000000000000000.0 < r < 1000000000000000.0 ==>
      && ParseNumber(NumberText(Finite(r), floatText)) == Match(r, "")
      && (forall c | c in NumberText(Finite(r), floatText) :: IsDigit(c) || c == '-')
    ensures r != r.Floor as real || r <= -1000000000000000.0 || 1000000000000000.0 <= r ==>
      NumberText(Finite(r), floatText) == floatText(r)
  {
    IntTextParses(r.Floor);
    IntTextIsDigits(r.Floor);
  }

  lemma IntTextIsDigits(n: int)
    ensures forall c | c in IntText(n) :: IsDigit(c) || c == '-'
  {
    var m := if n < 0 then -n else n;
    NatTextReads(m);
    assert forall c | c in NatText(m) :: IsDigit(c);
  }

  lemma FiniteTextParses(r: real, floatText: real -> string)
    requires PrintsNumbers(floatText)
    ensures ParseNumber(NumberText(Finite(r), floatText)) == Match(ReadNumber(r, floatText), "")
  {
    if PrintsAsInteger(r) {
      IntTextParses(r.Floor);
    }
  }

  lemma NonFiniteTextFails(n: Number, floatText: real -> string, rest: string)
    requires !n.Finite?
    ensures ParseValue(NumberText(n, floatText) + rest) == Mismatch
  {
    var t := NumberText(n, floatText);
    if n.NegInfinity? {
      assert (t + rest)[1..] == "inf" + rest;
      assert DigitRun("inf" + rest) == 0;
      NumbersAreNotLiterals(t + rest);
    } else {
      assert DigitRun(t + rest) == 0;
    }
  }

  lemma NumberTextReads(n: Number, floatText: real -> string, rest: string)
    requires PrintsNumbers(floatText) && EndsNumber(rest)
    ensures n.Finite? ==>
      ParseValue(NumberText(n, floatText) + rest) == Match(Reading(Num(n), floatText), rest)
    ensures !n.Finite? ==> ParseValue(NumberText(n, floatText) + rest) == Mismatch
  {
    if n.Finite? {
      FiniteTextParses(n.value, floatText);
      NumberInFront(NumberText(n, floatText), ReadNumber(n.value, floatText), rest);
    } else {
      NonFiniteTextFails(n, floatText, rest);
    }
  }

  // --- trees read back --------------------------------------------------------------------

  /** What the reader makes of a printed value in front of `rest`. */
  ghost function Outcome<T>(readable: bool, value: T, rest: string): Parse<T> {
    if readable then Match(value, rest) else Mismatch
  }

  lemma {:induction false} ValueReads(v: Value, floatText: real -> string, rest: string)
    requires PrintsNumbers(floatText) && EndsNumber(rest)
    ensures ParseValue(ValueToJson(v, floatText) + rest) == Outcome(AllFinite(v), Reading(v, floatText), rest)
    decreases v, 1
  {
    match v {
      case Str(text) => QuotedTextReads(text, rest);
      case Num(n) => NumberTextReads(n, floatText, rest);
      case List(items) => ListReads(items, floatText, rest);
      case Struct(fields) => StructReads(fields, floatText, rest);
      case _ => LiteralsRead(rest);
    }
  }

  lemma {:induction false} ListReads(items: seq<Value>, floatText: real -> string, rest: string)
    requires PrintsNumbers(floatText) && EndsNumber(rest)
    ensures ParseValue(ValueToJson(List(items), floatText) + rest) ==
      Outcome(ItemsFinite(items), List(Readings(items, floatText)), rest)
    decreases items, 1
  {
    var printed := ValueToJson(List(items), floatText) + rest;
    assert ValueToString(List(items), floatText) == "[" + Join(ItemTexts(items, floatText)) + "]";
    if items == [] {
      assert printed == "[]" + rest;
      EmptyContainersRead(rest);
    } else {
      var inner := Join(ItemTexts(items, floatText)) + ("]" + rest);
      assert printed == "[" + inner;
      ValueTextStarts(items[0], floatText);
      JoinStarts(ItemTexts(items, floatText), "]" + rest);
      NonEmptyList(printed, inner);
      ItemsRead(items, floatText, rest);
    }
  }

  lemma {:induction false} StructReads(fields: seq<Field>, floatText: real -> string, rest: string)
    requires PrintsNumbers(floatText) && EndsNumber(rest)
    ensures ParseValue(ValueToJson(Struct(fields), floatText) + rest) ==
      Outcome(FieldsFinite(fields), Struct(FieldReadings(fields, floatText)), rest)
    decreases fields, 1
  {
    var printed := ValueToJson(Struct(fields), floatText) + rest;
    assert ValueToString(Struct(fields), floatText) == "{" + Join(FieldTexts(fields, floatText)) + "}";
    if fields == [] {
      assert printed == "{}" + rest;
      EmptyContainersRead(rest);
    } else {
      var inner := Join(FieldTexts(fields, floatText)) + ("}" + rest);
      assert printed == "{" + inner;
      assert FieldTexts(fields, floatText)[0][0] == '"';
      JoinStarts(FieldTexts(fields, floatText), "}" + rest);
      NonEmptyStruct(printed, inner);
      FieldsRead(fields, floatText, rest);
    }
  }

  lemma QuotedTextReads(text: string, rest: string)
    ensures ParseValue(Quote(text) + rest) == Match(Str(text), rest)
  {
    assert (Quote(text) + rest)[1..] == Escape(text) + "\"" + rest;
    EscapedTextReads(text, rest);
  }

  lemma LiteralsRead(rest: string)
    ensures ParseValue("null" + rest) == Match(Null, rest)
    ensures ParseValue("true" + rest) == Match(Bool(true), rest)
    ensures ParseValue("false" + rest) == Match(Bool(false), rest)
  {
    assert ("null" + rest)[4..] == rest;
    assert ("true" + rest)[4..] == rest;
    assert ("false" + rest)[5..] == rest;
  }

  lemma EmptyContainersRead(rest: string)
    ensures ParseValue("[]" + rest) == Match(List([]), rest)
    ensures ParseValue("{}" + rest) == Match(Struct([]), rest)
  {
    assert ("[]" + rest)[1..] == "]" + rest;
    assert ("{}" + rest)[1..] == "}" + rest;
    SkipsNothing("]" + rest);
    SkipsNothing("}" + rest);
    assert ("]" + rest)[1..] == rest;
    assert ("}" + rest)[1..] == rest;
  }

  /** No printed value is empty or starts with whitespace or a closing bracket. */
  lemma ValueTextStarts(v: Value, floatText: real -> string)
    requires PrintsNumbers(floatText)
    ensures var t := ValueToJson(v, floatText); t != "" && !IsSpace(t[0]) && t[0] != ']' && t[0] != '}'
  {
    match v {
      case Num(n) => NumberTextStarts(n, floatText);
      case Struct(fields) =>
        assert ValueToString(v, floatText) == "{" + Join(FieldTexts(fields, floatText)) + "}";
      case List(items) =>
        assert ValueToString(v, floatText) == "[" + Join(ItemTexts(items, floatText)) + "]";
      case _ =>
    }
  }

  lemma NumberTextStarts(n: Number, floatText: real -> string)
    requires PrintsNumbers(floatText)
    ensures var t := NumberText(n, floatText); t != "" && !IsSpace(t[0]) && t[0] != ']' && t[0] != '}'
  {
    if n.Finite? {
      if PrintsAsInteger(n.value) {
        IntTextParses(n.value.Floor);
      }
      NumberStarts(NumberText(n, floatText));
    }
  }

  lemma JoinStarts(texts: seq<string>, rest: string)
    requires |texts| > 0 && texts[0] != ""
    ensures Join(texts) + rest != "" && (Join(texts) + rest)[0] == texts[0][0]
  {
  }

  lemma {:induction false} ItemsRead(items: seq<Value>, floatText: real -> string, rest: string)
    requires PrintsNumbers(floatText) && items != []
    ensures ParseItems(Join(ItemTexts(items, floatText)) + ("]" + rest)) ==
      Outcome(ItemsFinite(items), Readings(items, floatText), rest)
    decreases items, 0
  {
    var texts := ItemTexts(items, floatText);
    var t := ValueToJson(items[0], floatText);
    ValueTextStarts(items[0], floatText);
    if |items| == 1 {
      ValueReads(items[0], floatText, "]" + rest);
      SkipsNothing(t + ("]" + rest));
      LastItem(t + ("]" + rest), rest);
      assert Join(texts) == t;
      assert items[1..] == [] && Readings(items, floatText) == [Reading(items[0], floatText)];
      assert ItemsFinite(items) == AllFinite(items[0]);
    } else {
      var tail := Join(texts[1..]) + ("]" + rest);
      assert Join(texts) + ("]" + rest) == t + ("," + tail);
      ValueReads(items[0], floatText, "," + tail);
      SkipsNothing(t + ("," + tail));
      MoreItems(t + ("," + tail), tail);
      ItemsRead(items[1..], floatText, rest);
    }
  }

  lemma {:induction false} FieldReads(field: Field, floatText: real -> string, rest: string)
    requires PrintsNumbers(floatText) && EndsNumber(rest)
    ensures ParseField(FieldText(field, floatText) + rest) ==
      Outcome(AllFinite(field.value), Field(field.key, Reading(field.value, floatText)), rest)
    decreases field, 0
  {
    var s := FieldText(field, floatText) + rest;
    var valueText := ValueToJson(field.value, floatText) + rest;
    KeyReads(field, floatText, rest);
    ValueTextStarts(field.value, floatText);
    SkipsNothing(valueText);
    OneField(field.key, s, ":" + valueText, valueText);
    ValueReads(field.value, floatText, rest);
  }

  lemma KeyReads(field: Field, floatText: real -> string, rest: string)
    ensures var s := FieldText(field, floatText) + rest;
      StartsWith(s, '"') && ParseChars(s[1..]) == Match(field.key, ":" + (ValueToJson(field.value, floatText) + rest))
  {
    var valueText := ValueToJson(field.value, floatText);
    Reassociate("\"", Escape(field.key), ":", valueText, rest);
    EscapedTextReads(field.key, ":" + (valueText + rest));
  }

  lemma Reassociate(quote: string, key: string, colon: string, value: string, rest: string)
    requires |quote| == 1
    ensures quote + key + quote + colon + value + rest == quote + (key + quote + (colon + (value + rest)))
    ensures (quote + key + quote + colon + value + rest)[1..] == key + quote + (colon + (value + rest))
  {
  }

  lemma {:induction false} FieldsRead(fields: seq<Field>, floatText: real -> string, rest: string)
    requires PrintsNumbers(floatText) && fields != []
    ensures ParseFields(Join(FieldTexts(fields, floatText)) + ("}" + rest)) ==
      Outcome(FieldsFinite(fields), FieldReadings(fields, floatText), rest)
    decreases fields, 0
  {
    var texts := FieldTexts(fields, floatText);
    var t := FieldText(fields[0], floatText);
    if |fields| == 1 {
      FieldReads(fields[0], floatText, "}" + rest);
      SkipsNothing(t + ("}" + rest));
      LastField(t + ("}" + rest), rest);
      assert Join(texts) == t;
      assert fields[1..] == [] && FieldsFinite(fields) == AllFinite(fields[0].value);
      assert FieldReadings(fields, floatText) == [Field(fields[0].key, Reading(fields[0].value, floatText))];
    } else {
      var tail := Join(texts[1..]) + ("}" + rest);
      assert Join(texts) + ("}" + rest) == t + ("," + tail);
      FieldReads(fields[0], floatText, "," + tail);
      SkipsNothing(t + ("," + tail));
      MoreFields(t + ("," + tail), tail);
      FieldsRead(fields[1..], floatText, rest);
    }
  }

  // --- main results ---------------------------------------------------------------------------

  /** The printed text of a nested value is a JSON text exactly when the tree holds no NaN and no infinity, and
      then it reads back as the tree itself. */
  lemma PrintedJsonReads(v: Value, floatText: real -> string)
    requires PrintsNumbers(floatText)
    ensures ParseText(ValueToJson(v, floatText)) == Outcome(AllFinite(v), Reading(v, floatText), "")
  {
    var t := ValueToJson(v, floatText);
    ValueTextStarts(v, floatText);
    SkipsNothing(t);
    ValueReads(v, floatText, "");
    assert t + "" == t;
  }

  /** The three non-finite numbers are printed as words, and a list with one of them is not JSON. */
  lemma NonFiniteIsNotJson(floatText: real -> string)
    requires PrintsNumbers(floatText)
    ensures ValueToJson(List([Num(NaN)]), floatText) == "[NaN]" && ParseText("[NaN]") == Mismatch
    ensures ValueToJson(List([Num(PosInfinity)]), floatText) == "[inf]" && ParseText("[inf]") == Mismatch
    ensures ValueToJson(List([Num(NegInfinity)]), floatText) == "[-inf]" && ParseText("[-inf]") == Mismatch
  {
    SingletonText(NaN, floatText);
    SingletonText(PosInfinity, floatText);
    SingletonText(NegInfinity, floatText);
  }

  lemma OneItemFinite(v: Value)
    ensures ItemsFinite([v]) <==> AllFinite(v)
  {
    assert [v][1..] == [];
  }

  lemma SingletonText(n: Number, floatText: real -> string)
    requires PrintsNumbers(floatText)
    ensures ValueToJson(List([Num(n)]), floatText) == "[" + NumberText(n, floatText) + "]"
    ensures !n.Finite? ==> ParseText("[" + NumberText(n, floatText) + "]") == Mismatch
  {
    PrintedJsonReads(List([Num(n)]), floatText);
    var items := [Num(n)];
    assert items[1..] == [];
    assert ValueToJson(items[0], floatText) == NumberText(n, floatText);
    assert ItemTexts(items, floatText) == [NumberText(n, floatText)] + ItemTexts(items[1..], floatText);
    OneItemFinite(Num(n));
  }

  /** Every number in the tree is one the printer renders through its integer value. */
  predicate AllIntegers(v: Value)
    decreases v
  {
    match v
    case Num(n) => n.Finite? && PrintsAsInteger(n.value)
    case List(items) => forall item | item in items :: AllIntegers(item)
    case Struct(fields) => forall field | field in fields :: AllIntegers(field.value)
    case _ => true
  }

  predicate AllSet(v: Value)
    decreases v
  {
    match v
    case Unset => false
    case List(items) => forall item | item in items :: AllSet(item)
    case Struct(fields) => forall field | field in fields :: AllSet(field.value)
    case _ => true
  }

  lemma {:induction false} ReadingIsExact(v: Value, floatText: real -> string)
    requires AllIntegers(v) && AllSet(v)
    ensures AllFinite(v) && Reading(v, floatText) == v
    decreases v, 1
  {
    match v {
      case List(items) => ReadingsAreExact(items, floatText);
      case Struct(fields) => FieldReadingsAreExact(fields, floatText);
      case _ =>
    }
  }

  lemma {:induction false} ReadingsAreExact(items: seq<Value>, floatText: real -> string)
    requires forall item | item in items :: AllIntegers(item) && AllSet(item)
    ensures ItemsFinite(items) && Readings(items, floatText) == items
    decreases items, 0
  {
    if items != [] {
      ReadingIsExact(items[0], floatText);
      ReadingsAreExact(items[1..], floatText);
      assert items == [items[0]] + items[1..];
    }
  }

  lemma {:induction false} FieldReadingsAreExact(fields: seq<Field>, floatText: real -> string)
    requires forall field | field in fields :: AllIntegers(field.value) && AllSet(field.value)
    ensures FieldsFinite(fields) && FieldReadings(fields, floatText) == fields
    decreases fields, 0
  {
    if fields != [] {
      ReadingIsExact(fields[0].value, floatText);
      FieldReadingsAreExact(fields[1..], floatText);
      assert fields == [fields[0]] + fields[1..];
    }
  }

  /** Two trees of integral numbers with every kind set that print alike are the same tree. */
  lemma PrinterIsInjective(v: Value, w: Value, floatText: real -> string)
    requires PrintsNumbers(floatText)
    requires AllIntegers(v) && AllSet(v) && AllIntegers(w) && AllSet(w)
    requires ValueToJson(v, floatText) == ValueToJson(w, floatText)
    ensures v == w
  {
    PrintedJsonReads(v, floatText);
    PrintedJsonReads(w, floatText);
    ReadingIsExact(v, floatText);
    ReadingIsExact(w, floatText);
  }

  // --- numbers as doubles ------------------------------------------------------------

  /** Every number in the tree is finite and the double nearest to what its text denotes, and every kind is set. It
      holds of all trees of finite doubles when the float formatter prints texts that round back. */
  predicate RoundsBack(v: Value, floatText: real -> string, nearest: real -> real)
    decreases v
  {
    match v
    case Unset => false
    case Num(n) => n.Finite? && nearest(ReadNumber(n.value, floatText)) == n.value
    case List(items) => forall item | item in items :: RoundsBack(item, floatText, nearest)
    case Struct(fields) => forall field | field in fields :: RoundsBack(field.value, floatText, nearest)
    case _ => true
  }

  /** A tree read from text, with every number rounded to a double. */
  function Rounded(v: Value, nearest: real -> real): Value
    decreases v
  {
    match v
    case Num(Finite(r)) => Num(Finite(nearest(r)))
    case List(items) => List(RoundedItems(items, nearest))
    case Struct(fields) => Struct(RoundedFields(fields, nearest))
    case _ => v
  }

  function RoundedItems(items: seq<Value>, nearest: real -> real): seq<Value>
    decreases items
  {
    if items == [] then [] else [Rounded(items[0], nearest)] + RoundedItems(items[1..], nearest)
  }

  function RoundedFields(fields: seq<Field>, nearest: real -> real): seq<Field>
    decreases fields
  {
    if fields == [] then []
    else [Field(fields[0].key, Rounded(fields[0].value, nearest))] + RoundedFields(fields[1..], nearest)
  }

  lemma {:induction false} RoundedReading(v: Value, floatText: real -> string, nearest: real -> real)
    requires RoundsBack(v, floatText, nearest)
    ensures AllFinite(v) && Rounded(Reading(v, floatText), nearest) == v
    decreases v, 1
  {
    match v {
      case List(items) => RoundedReadings(items, floatText, nearest);
      case Struct(fields) => RoundedFieldReadings(fields, floatText, nearest);
      case _ =>
    }
  }

  lemma {:induction false} RoundedReadings(items: seq<Value>, floatText: real -> string, nearest: real -> real)
    requires forall item | item in items :: RoundsBack(item, floatText, nearest)
    ensures ItemsFinite(items) && RoundedItems(Readings(items, floatText), nearest) == items
    decreases items, 0
  {
    if items != [] {
      RoundedReading(items[0], floatText, nearest);
      RoundedReadings(items[1..], floatText, nearest);
      assert Readings(items, floatText)[1..] == Readings(items[1..], floatText);
      assert items == [items[0]] + items[1..];
    }
  }

  lemma {:induction false} RoundedFieldReadings(fields: seq<Field>, floatText: real -> string, nearest: real -> real)
    requires forall field | field in fields :: RoundsBack(field.value, floatText, nearest)
    ensures FieldsFinite(fields) && RoundedFields(FieldReadings(fields, floatText), nearest) == fields
    decreases fields, 0
  {
    if fields != [] {
      RoundedReading(fields[0].value, floatText, nearest);
      RoundedFieldReadings(fields[1..], floatText, nearest);
      assert FieldReadings(fields, floatText)[1..] == FieldReadings(fields[1..], floatText);
      assert fields == [fields[0]] + fields[1..];
    }
  }

  /** A reader that rounds every number to the nearest double gets back the very tree that was printed. */
  lemma PrintedJsonRoundTrips(v: Value, floatText: real -> string, nearest: real -> real)
    requires PrintsNumbers(floatText) && RoundsBack(v, floatText, nearest)
    ensures
      var p := ParseText(ValueToJson(v, floatText));
      p.Match? && p.rest == "" && Rounded(p.value, nearest) == v
  {
    PrintedJsonReads(v, floatText);
    RoundedReading(v, floatText, nearest);
  }

  /** Trees whose numbers round back and which print alike are the same tree. */
  lemma DoublesPrintInjectively(v: Value, w: Value, floatText: real -> string, nearest: real -> real)
    requires PrintsNumbers(floatText)
    requires RoundsBack(v, floatText, nearest) && RoundsBack(w, floatText, nearest)
    requires ValueToJson(v, floatText) == ValueToJson(w, floatText)
    ensures v == w
  {
    PrintedJsonRoundTrips(v, floatText, nearest);
    PrintedJsonRoundTrips(w, floatText, nearest);
  }

  // --- attributes ------------------------------------------------------------------------

  /** At the top level strings are not quoted: the text of an attribute reads back as that attribute exactly when
      the attribute is not a string and holds only finite numbers. */
  lemma AttributeTextReads(v: Value, floatText: real -> string)
    requires PrintsNumbers(floatText)
    ensures ParseText(ValueToString(v, floatText)) == Match(Reading(v, floatText), "")
      <==> !v.Str? && AllFinite(v)
  {
    if v.Str? {
      if ParseText(v.text) == Match(v, "") {
        QuotesAreLonger(SkipSpace(v.text));
      }
    } else {
      PrintedJsonReads(v, floatText);
    }
  }

  /** `extensions_from_struct`: the extension attributes of a CloudEvent, by name. */
  method ExtensionAttributes(extensions: Option<seq<Field>>, floatText: real -> string)
    returns (attributes: seq<(string, string)>)
    requires PrintsNumbers(floatText)
    ensures extensions.None? ==> attributes == []
    ensures extensions.Some? ==> |attributes| == |extensions.value|
    ensures extensions.Some? ==> forall i | 0 <= i < |attributes| ::
      var value := extensions.value[i].value;
      && attributes[i].0 == extensions.value[i].key
      && (value.Str? ==> attributes[i].1 == value.text)
      && (!value.Str? && AllFinite(value) ==> ParseText(attributes[i].1) == Match(Reading(value, floatText), ""))
      && (!value.Str? && !AllFinite(value) ==> ParseText(attributes[i].1) == Mismatch)
  {
    attributes := [];
    if extensions.None? {
      return;
    }
    var fields := extensions.value;
    for i := 0 to |fields|
      invariant |attributes| == i
      invariant forall k | 0 <= k < i :: attributes[k] == (fields[k].key, ValueToString(fields[k].value, floatText))
    {
      attributes := attributes + [(fields[i].key, ValueToString(fields[i].value, floatText))];
    }
    forall i | 0 <= i < |fields|
      ensures AttributeIs(fields[i].value, attributes[i].1, floatText)
    {
      AttributeTextIs(fields[i].value, floatText);
    }
  }

  /** What the text of an attribute must be: a string verbatim, any other value as JSON that reads back as it. */
  predicate AttributeIs(v: Value, text: string, floatText: real -> string) {
    && (v.Str? ==> text == v.text)
    && (!v.Str? ==> ParseText(text) == if AllFinite(v) then Match(Reading(v, floatText), "") else Mismatch)
  }

  lemma AttributeTextIs(v: Value, floatText: real -> string)
    requires PrintsNumbers(floatText)
    ensures AttributeIs(v, ValueToString(v, floatText), floatText)
  {
    if !v.Str? {
      PrintedJsonReads(v, floatText);
    }
  }

  lemma QuotesAreLonger(s: string)
    requires ParseValue(s).Match? && ParseValue(s).value.Str?
    ensures |ParseValue(s).value.text| < |s|
  {
  }
}
