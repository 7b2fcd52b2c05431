// JSON documents as `google.protobuf.Value` and back: the Rust conversions as functions, the Go conversions as the
// loops they are, shown to build the same trees, and exactly when the two `pack` operations agree.
module AnyJson {
  import opened Common

  /** A double: a finite value, NaN or an infinity. */
  datatype Double = Finite(value: real) | NaN | Infinite

  /** A parsed document; a number is still the exact decimal value of its text. */
  datatype Json =
    | Null
    | Bool(flag: bool)
    | Number(exact: real)
    | Str(text: string)
    | Array(items: seq<Json>)
    | Object(members: map<string, Json>)

  /** `google.protobuf.Value`; `Unset` has no kind. */
  datatype Value =
    | Unset
    | NullValue
    | BoolValue(flag: bool)
    | NumberValue(number: Double)
    | StringValue(text: string)
    | ListValue(values: seq<Value>)
    | StructValue(fields: map<string, Value>)

  /** `nearest` rounds a decimal value to a double; an infinity when it does not fit. It leaves doubles alone. */
  ghost predicate IsRounding(nearest: real -> Double) {
    && (forall r: real :: !nearest(r).NaN?)
    && (forall r: real :: nearest(r).Finite? ==> nearest(nearest(r).value) == nearest(r))
  }

  predicate AllFit(j: Json, nearest: real -> Double)
    decreases j
  {
    match j
    case Number(r) => nearest(r).Finite?
    case Array(items) => forall item | item in items :: AllFit(item, nearest)
    case Object(members) => forall k | k in members :: AllFit(members[k], nearest)
    case _ => true
  }

  /** The double of a number: NaN when it fits none. */
  function DoubleOf(r: real, nearest: real -> Double): Double {
    if nearest(r).Finite? then nearest(r) else NaN
  }

  // --- Rust ----------------------------------------------------------------------

  /** `json_to_value`. The parser only lets numbers through that fit a finite double; for others this is NaN. */
  function JsonToValue(j: Json, nearest: real -> Double): Value
    decreases j
  {
    match j
    case Null => NullValue
    case Bool(b) => BoolValue(b)
    case Number(r) => NumberValue(DoubleOf(r, nearest))
    case Str(s) => StringValue(s)
    case Array(items) =>
      ListValue(seq(|items|, i requires 0 <= i < |items| => JsonToValue(items[i], nearest)))
    case Object(members) => StructValue(map k | k in members :: JsonToValue(members[k], nearest))
  }

  /** `value_to_json`: a non-finite number has no JSON form and becomes null. */
  function ValueToJson(v: Value): Json
    decreases v
  {
    match v
    case Unset => Null
    case NullValue => Null
    case BoolValue(b) => Bool(b)
    case NumberValue(n) => if n.Finite? then Number(n.value) else Null
    case StringValue(s) => Str(s)
    case ListValue(values) => Array(seq(|values|, i requires 0 <= i < |values| => ValueToJson(values[i])))
    case StructValue(fields) => Object(map k | k in fields :: ValueToJson(fields[k]))
  }

  /** `pack_json` on a syntactically valid text: the parser gives the whole text up at a number out of range. */
  function RustPack(j: Json, nearest: real -> Double): Option<Value>
    decreases j
  {
    match j
    case Null => Some(NullValue)
    case Bool(b) => Some(BoolValue(b))
    case Number(r) => if nearest(r).Finite? then Some(NumberValue(nearest(r))) else None
    case Str(s) => Some(StringValue(s))
    case Array(items) =>
      if forall item | item in items :: RustPack(item, nearest).Some? then
        Some(ListValue(seq(|items|, i requires 0 <= i < |items| => RustPack(items[i], nearest).value)))
      else None
    case Object(members) =>
      if forall k | k in members :: RustPack(members[k], nearest).Some? then
        Some(StructValue(map k | k in members :: RustPack(members[k], nearest).value))
      else None
  }

  // --- what the trees mean --------------------------------------------------------------

  /** A proto value says what a document says: the same nulls, flags, texts, items and members, and for each number its
      double. */
  predicate Says(v: Value, j: Json, nearest: real -> Double)
    decreases j
  {
    match j
    case Null => v.NullValue?
    case Bool(b) => v.BoolValue? && (v.flag <==> b)
    case Number(r) => v.NumberValue? && (if nearest(r).Finite? then v.number == nearest(r) else v.number.NaN?)
    case Str(s) => v.StringValue? && v.text == s
    case Array(items) =>
      v.ListValue? && |v.values| == |items| && forall i | 0 <= i < |items| :: Says(v.values[i], items[i], nearest)
    case Object(members) =>
      v.StructValue? && v.fields.Keys == members.Keys && forall k | k in members :: Says(v.fields[k], members[k], nearest)
  }

  /** The conversion says what the document says, and nothing else does. */
  lemma {:induction false} ConversionSaysTheDocument(j: Json, v: Value, nearest: real -> Double)
    ensures Says(v, j, nearest) <==> v == JsonToValue(j, nearest)
    decreases j
  {
    match j {
      case Array(items) =>
        if v.ListValue? && |v.values| == |items| {
          forall i | 0 <= i < |items|
            ensures Says(v.values[i], items[i], nearest) <==> v.values[i] == JsonToValue(items[i], nearest)
          {
            ConversionSaysTheDocument(items[i], v.values[i], nearest);
          }
          var there := JsonToValue(j, nearest).values;
          assert v.values == there <==> forall i | 0 <= i < |items| :: v.values[i] == there[i];
        }
      case Object(members) =>
        if v.StructValue? && v.fields.Keys == members.Keys {
          forall k | k in members
            ensures Says(v.fields[k], members[k], nearest) <==> v.fields[k] == JsonToValue(members[k], nearest)
          {
            ConversionSaysTheDocument(members[k], v.fields[k], nearest);
          }
          var there := JsonToValue(j, nearest).fields;
          assert v.fields == there <==> forall k | k in members :: v.fields[k] == there[k];
        }
      case _ =>
    }
  }

  // --- Go ---------------------------------------------------------------------------

  /** `toValue`, filling slices and maps in loops; it builds the tree the Rust conversion builds. */
  method ToValue(j: Json, nearest: real -> Double) returns (v: Value)
    ensures v == JsonToValue(j, nearest)
    decreases j
  {
    match j {
      case Null => v := NullValue;
      case Bool(b) => v := BoolValue(b);
      case Number(r) =>
        var f := nearest(r);
        if !f.Finite? {
          f := NaN;
        }
        v := NumberValue(f);
      case Str(s) => v := StringValue(s);
      case Array(items) =>
        var values: seq<Value> := [];
        for i := 0 to |items|
          invariant |values| == i && forall k | 0 <= k < i :: values[k] == JsonToValue(items[k], nearest)
        {
          var value := ToValue(items[i], nearest);
          values := values + [value];
        }
        v := ListValue(values);
      case Object(members) =>
        var fields: map<string, Value> := map[];
        var left := members.Keys;
        while left != {}
          invariant left <= members.Keys && fields.Keys == members.Keys - left
          invariant forall k | k in fields :: fields[k] == JsonToValue(members[k], nearest)
        {
          var k :| k in left;
          var value := ToValue(members[k], nearest);
          fields := fields[k := value];
          left := left - {k};
        }
        v := StructValue(fields);
    }
  }

  /** `fromValue`, likewise. */
  method FromValue(v: Value) returns (j: Json)
    ensures j == ValueToJson(v)
    decreases v
  {
    match v {
      case BoolValue(b) => j := Bool(b);
      case NumberValue(n) =>
        if !n.Finite? {
          j := Null;
        } else {
          j := Number(n.value);
        }
      case StringValue(s) => j := Str(s);
      case ListValue(values) =>
        var out: seq<Json> := [];
        for i := 0 to |values|
          invariant |out| == i && forall k | 0 <= k < i :: out[k] == ValueToJson(values[k])
        {
          var item := FromValue(values[i]);
          out := out + [item];
        }
        j := Array(out);
      case StructValue(fields) =>
        var out: map<string, Json> := map[];
        var left := fields.Keys;
        while left != {}
          invariant left <= fields.Keys && out.Keys == fields.Keys - left
          invariant forall k | k in out :: out[k] == ValueToJson(fields[k])
        {
          var k :| k in left;
          var item := FromValue(fields[k]);
          out := out[k := item];
          left := left - {k};
        }
        j := Object(out);
      case _ => j := Null;
    }
  }

  // --- main results ----------------------------------------------------------------------

  /** A document with every number replaced by its double, and by null when it does not fit one. */
  function Normalized(j: Json, nearest: real -> Double): Json
    decreases j
  {
    match j
    case Number(r) => if nearest(r).Finite? then Number(nearest(r).value) else Null
    case Array(items) => Array(seq(|items|, i requires 0 <= i < |items| => Normalized(items[i], nearest)))
    case Object(members) => Object(map k | k in members :: Normalized(members[k], nearest))
    case _ => j
  }

  /** Converting to a proto value and back normalizes the numbers and changes nothing else. */
  lemma {:induction false} RoundTripNormalizes(j: Json, nearest: real -> Double)
    ensures ValueToJson(JsonToValue(j, nearest)) == Normalized(j, nearest)
    decreases j
  {
    match j {
      case Array(items) =>
        forall i | 0 <= i < |items|
          ensures ValueToJson(JsonToValue(items[i], nearest)) == Normalized(items[i], nearest)
        {
          RoundTripNormalizes(items[i], nearest);
        }
      case Object(members) =>
        forall k | k in members
          ensures ValueToJson(JsonToValue(members[k], nearest)) == Normalized(members[k], nearest)
        {
          RoundTripNormalizes(members[k], nearest);
        }
      case _ =>
    }
  }

  /** A proto value as JSON can carry it: an unset kind and a number that is not finite are null. */
  function AsJsonSees(v: Value): Value
    decreases v
  {
    match v
    case Unset => NullValue
    case NumberValue(n) => if n.NaN? || n.Infinite? then NullValue else v
    case ListValue(values) => ListValue(seq(|values|, i requires 0 <= i < |values| => AsJsonSees(values[i])))
    case StructValue(fields) => StructValue(map k | k in fields :: AsJsonSees(fields[k]))
    case _ => v
  }

  /** Every finite number of the value is a double, which rounding leaves alone. */
  predicate HoldsDoubles(v: Value, nearest: real -> Double)
    decreases v
  {
    match v
    case NumberValue(n) => n.Finite? ==> nearest(n.value) == n
    case ListValue(values) => forall value | value in values :: HoldsDoubles(value, nearest)
    case StructValue(fields) => forall k | k in fields :: HoldsDoubles(fields[k], nearest)
    case _ => true
  }

  /** Converting a proto value to JSON and back gives the value as JSON can carry it, when its numbers are doubles. */
  lemma {:induction false} ValuesComeBack(v: Value, nearest: real -> Double)
    requires HoldsDoubles(v, nearest)
    ensures JsonToValue(ValueToJson(v), nearest) == AsJsonSees(v)
    decreases v
  {
    match v {
      case ListValue(values) =>
        forall i | 0 <= i < |values|
          ensures JsonToValue(ValueToJson(values[i]), nearest) == AsJsonSees(values[i])
        {
          ValuesComeBack(values[i], nearest);
        }
      case StructValue(fields) =>
        forall k | k in fields
          ensures JsonToValue(ValueToJson(fields[k]), nearest) == AsJsonSees(fields[k])
        {
          ValuesComeBack(fields[k], nearest);
        }
      case _ =>
    }
  }

  /** What came back once fits and comes back unchanged the second time. */
  lemma {:induction false} SecondPassChangesNothing(j: Json, nearest: real -> Double)
    requires IsRounding(nearest)
    ensures var once := Normalized(j, nearest);
      AllFit(once, nearest) && ValueToJson(JsonToValue(once, nearest)) == once
    decreases j
  {
    match j {
      case Array(items) =>
        forall i | 0 <= i < |items|
          ensures var once := Normalized(items[i], nearest);
            AllFit(once, nearest) && ValueToJson(JsonToValue(once, nearest)) == once
        {
          SecondPassChangesNothing(items[i], nearest);
        }
      case Object(members) =>
        forall k | k in members
          ensures var once := Normalized(members[k], nearest);
            AllFit(once, nearest) && ValueToJson(JsonToValue(once, nearest)) == once
        {
          SecondPassChangesNothing(members[k], nearest);
        }
      case _ =>
    }
  }

  /** No number of a value is NaN: what a receiver can tell an exact conversion by. */
  predicate NoNaN(v: Value)
    decreases v
  {
    match v
    case NumberValue(n) => !n.NaN?
    case ListValue(values) => forall value | value in values :: NoNaN(value)
    case StructValue(fields) => forall k | k in fields :: NoNaN(fields[k])
    case _ => true
  }

  lemma {:induction false} NaNMarksMisfits(j: Json, nearest: real -> Double)
    ensures NoNaN(JsonToValue(j, nearest)) <==> AllFit(j, nearest)
    decreases j
  {
    match j {
      case Array(items) =>
        var values := JsonToValue(j, nearest).values;
        forall i | 0 <= i < |items|
          ensures NoNaN(values[i]) <==> AllFit(items[i], nearest)
        {
          NaNMarksMisfits(items[i], nearest);
        }
        if AllFit(j, nearest) {
          forall value | value in values
            ensures NoNaN(value)
          {
            var i :| 0 <= i < |values| && values[i] == value;
            assert items[i] in items;
          }
        } else {
          var item :| item in items && !AllFit(item, nearest);
          var i :| 0 <= i < |items| && items[i] == item;
          assert values[i] in values;
        }
      case Object(members) =>
        var fields := JsonToValue(j, nearest).fields;
        assert fields.Keys == members.Keys;
        forall k | k in members
          ensures NoNaN(fields[k]) <==> AllFit(members[k], nearest)
        {
          NaNMarksMisfits(members[k], nearest);
        }
        if NoNaN(StructValue(fields)) {
          forall k | k in members
            ensures AllFit(members[k], nearest)
          {
            assert k in fields;
          }
        }
      case _ =>
    }
  }

  /** `pack_json` refuses a document exactly when one of its numbers does not fit, and otherwise packs what
      `json_to_value` makes of it. */
  lemma {:induction false} PacksExactlyWhatFits(j: Json, nearest: real -> Double)
    ensures RustPack(j, nearest) == if AllFit(j, nearest) then Some(JsonToValue(j, nearest)) else None
    decreases j
  {
    match j {
      case Array(items) =>
        forall item | item in items
          ensures RustPack(item, nearest) == if AllFit(item, nearest) then Some(JsonToValue(item, nearest)) else None
        {
          PacksExactlyWhatFits(item, nearest);
        }
        if AllFit(j, nearest) {
          assert forall i | 0 <= i < |items| :: items[i] in items;
          assert RustPack(j, nearest).value.values == JsonToValue(j, nearest).values;
        }
      case Object(members) =>
        forall k | k in members
          ensures RustPack(members[k], nearest)
            == if AllFit(members[k], nearest) then Some(JsonToValue(members[k], nearest)) else None
        {
          PacksExactlyWhatFits(members[k], nearest);
        }
        if AllFit(j, nearest) {
          assert RustPack(j, nearest).value.fields == JsonToValue(j, nearest).fields;
        }
      case _ =>
    }
  }

  /** Two ways of rounding make the same doubles of the numbers of a document. */
  predicate SameDoubles(j: Json, rust: real -> Double, go: real -> Double)
    decreases j
  {
    match j
    case Number(r) => DoubleOf(r, rust) == DoubleOf(r, go)
    case Array(items) => forall item | item in items :: SameDoubles(item, rust, go)
    case Object(members) => forall k | k in members :: SameDoubles(members[k], rust, go)
    case _ => true
  }

  /** The trees depend on the rounding through the doubles only. */
  lemma {:induction false} TreesAgreeExactly(j: Json, rust: real -> Double, go: real -> Double)
    ensures JsonToValue(j, rust) == JsonToValue(j, go) <==> SameDoubles(j, rust, go)
    decreases j
  {
    match j {
      case Array(items) =>
        forall item | item in items
          ensures JsonToValue(item, rust) == JsonToValue(item, go) <==> SameDoubles(item, rust, go)
        {
          TreesAgreeExactly(item, rust, go);
        }
        var left, right := JsonToValue(j, rust).values, JsonToValue(j, go).values;
        if SameDoubles(j, rust, go) {
          assert forall i | 0 <= i < |items| :: items[i] in items && left[i] == right[i];
          assert left == right;
        } else {
          var item :| item in items && !SameDoubles(item, rust, go);
          var i :| 0 <= i < |items| && items[i] == item;
          assert left[i] != right[i];
        }
      case Object(members) =>
        forall k | k in members
          ensures JsonToValue(members[k], rust) == JsonToValue(members[k], go) <==> SameDoubles(members[k], rust, go)
        {
          TreesAgreeExactly(members[k], rust, go);
        }
        var left, right := JsonToValue(j, rust).fields, JsonToValue(j, go).fields;
        if SameDoubles(j, rust, go) {
          assert left == right;
        } else {
          var k :| k in members && !SameDoubles(members[k], rust, go);
          assert left[k] != right[k];
        }
      case _ =>
    }
  }

  /** The Go `PackJSON` of a syntactically valid text never fails; it packs what `pack_json` packs exactly when every
      number fits a double for Rust's parser and Go's parser rounds it to the same one. */
  method GoPack(j: Json, go: real -> Double, ghost rust: real -> Double) returns (r: Option<Value>)
    ensures r == Some(JsonToValue(j, go))
    ensures r == RustPack(j, rust) <==> AllFit(j, rust) && SameDoubles(j, rust, go)
    ensures NoNaN(r.value) <==> AllFit(j, go)
  {
    var v := ToValue(j, go);
    NaNMarksMisfits(j, go);
    PacksExactlyWhatFits(j, rust);
    TreesAgreeExactly(j, rust, go);
    r := Some(v);
  }

  /** A list with a number no double can hold, such as 1e400, is refused by the one and packed with a NaN by the other. */
  lemma MisfitPacksDiffer(nearest: real -> Double, huge: real)
    requires !nearest(huge).Finite?
    ensures RustPack(Array([Number(huge)]), nearest) == None
    ensures JsonToValue(Array([Number(huge)]), nearest) == ListValue([NumberValue(NaN)])
  {
    var items := [Number(huge)];
    assert items[0] in items && RustPack(items[0], nearest) == None;
    assert JsonToValue(Array(items), nearest).values == [JsonToValue(items[0], nearest)];
  }
}
