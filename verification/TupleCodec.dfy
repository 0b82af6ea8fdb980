/** Tuples of a table and their byte form. */
module TupleCodec {
  import opened StorageTypes
  import opened LittleEndian
  import opened WalCodec

  type I64 = i: int | -0x8000_0000_0000_0000 <= i < 0x8000_0000_0000_0000

  datatype ValueType = Int64Type | DoubleType | BooleanType | TextType

  /** A double is kept as its eight bytes, a text as its bytes. */
  datatype Value = Int64(i: I64) | Double(bits: Bytes) | Boolean(b: bool) | Text(text: Bytes)

  type Schema = seq<ValueType>

  const U32: nat := 0x1_0000_0000

  predicate HasType(v: Value, t: ValueType) {
    match v
    case Int64(_) => t == Int64Type
    case Double(bits) => t == DoubleType && |bits| == 8
    case Boolean(_) => t == BooleanType
    case Text(_) => t == TextType
  }

  predicate Validates(schema: Schema, values: seq<Value>) {
    |values| == |schema| && forall k :: 0 <= k < |values| ==> HasType(values[k], schema[k])
  }

  /** Two's complement. */
  function ToUnsigned(i: I64): (u: nat)
    ensures u < U64 && ToSigned(u) == i
  {
    if i < 0 then i + U64 else i
  }

  function ToSigned(u: nat): I64
    requires u < U64
  {
    if u < 0x8000_0000_0000_0000 then u else u - U64
  }

  function EncodeValue(v: Value): (b: Bytes) {
    match v
    case Int64(i) => Le(ToUnsigned(i), EIGHT)
    case Double(bits) => bits
    case Boolean(b) => [if b then 1 else 0]
    case Text(text) => Le(|text| % U32, FOUR) + text
  }

  lemma Bounded(b: Bytes)
    requires |b| == 8
    ensures Un(b) < U64
  {
    Powers();
    LeUn(b);
  }

  /** The value at the front of b, with the rest; None when b is too short. */
  function DecodeValue(t: ValueType, b: Bytes): (r: Option<(Value, Bytes)>)
    ensures r.Some? ==> |r.value.1| < |b| && HasType(r.value.0, t)
  {
    match t
    case Int64Type => if |b| < 8 then None else (Bounded(b[..8]); Some((Int64(ToSigned(Un(b[..8]))), b[8..])))
    case DoubleType => if |b| < 8 then None else Some((Double(b[..8]), b[8..]))
    case BooleanType => if |b| < 1 then None else Some((Boolean(b[0] != 0), b[1..]))
    case TextType =>
      if |b| < 4 then None
      else
        var z := Un(b[..4]);
        if |b| < 4 + z then None else Some((Text(b[4..4 + z]), b[4 + z..]))
  }

  function Serialize(values: seq<Value>): Bytes {
    if values == [] then [] else EncodeValue(values[0]) + Serialize(values[1..])
  }

  /** All the bytes must be used up. */
  function Deserialize(schema: Schema, b: Bytes): Option<seq<Value>>
    decreases |schema|
  {
    if schema == [] then if b == [] then Some([]) else None
    else
      match DecodeValue(schema[0], b)
      case None => None
      case Some((v, rest)) =>
        match Deserialize(schema[1..], rest)
        case None => None
        case Some(vs) => Some([v] + vs)
  }

  lemma ValueRoundTrip(v: Value, t: ValueType, rest: Bytes)
    requires HasType(v, t) && (v.Text? ==> |v.text| < U32)
    ensures DecodeValue(t, EncodeValue(v) + rest) == Some((v, rest))
  {
    Powers();
    var e, b := EncodeValue(v), EncodeValue(v) + rest;
    match v
    case Int64(i) =>
      UnLe(ToUnsigned(i), EIGHT);
      assert b[..8] == e && b[8..] == rest;
    case Double(bits) => assert b[..8] == bits && b[8..] == rest;
    case Boolean(_) => assert b[1..] == rest;
    case Text(text) =>
      UnLe(|text|, FOUR);
      assert b[..4] == Le(|text|, FOUR);
      assert b[4..4 + |text|] == text && b[4 + |text|..] == rest;
  }

  /** The bytes of a value: two's complement, the bytes of the double, one or zero, or a length and the text. */
  lemma ValueLayout(v: Value)
    ensures var b := EncodeValue(v);
      match v
      case Int64(i) => |b| == 8 && Un(b) == if i < 0 then i + U64 else i
      case Double(bits) => b == bits
      case Boolean(x) => b == [if x then 1 else 0]
      case Text(text) => |b| == 4 + |text| && (|text| < U32 ==> Un(b[..4]) == |text|) && b[4..] == text
  {
    match v
    case Int64(i) =>
      Powers();
      UnLe(ToUnsigned(i), EIGHT);
    case Text(text) => TextLayout(text);
    case _ =>
  }

  lemma TextLayout(text: Bytes)
    ensures var b := EncodeValue(Text(text));
      |b| == 4 + |text| && (|text| < U32 ==> Un(b[..4]) == |text|) && b[4..] == text
  {
    var b, n := EncodeValue(Text(text)), |text| % U32;
    assert b[..4] == Le(n, FOUR);
    Powers();
    UnLe(n, FOUR);
  }

  /** The bytes that are a value of the type, and which: any byte but zero is true, and a text is as long as it says. */
  lemma DecodesIff(t: ValueType, b: Bytes)
    ensures DecodeValue(t, b).Some? <==>
      if t == BooleanType then |b| >= 1 else if t == TextType then |b| >= 4 && |b| >= 4 + Un(b[..4]) else |b| >= 8
    ensures DecodeValue(t, b).Some? ==> var (v, rest) := DecodeValue(t, b).value;
      match t
      case Int64Type => b[8..] == rest && v.Int64? && Un(b[..8]) == if v.i < 0 then v.i + U64 else v.i
      case DoubleType => b[8..] == rest && v == Double(b[..8])
      case BooleanType => b[1..] == rest && v == Boolean(b[0] != 0)
      case TextType => v.Text? && |v.text| == Un(b[..4]) && b == b[..4] + v.text + rest
  {
    if |b| >= 8 { Bounded(b[..8]); }
    if DecodeValue(t, b).Some? && t == TextType {
      var z := Un(b[..4]);
      assert b == b[..4] + b[4..4 + z] + b[4 + z..];
    }
  }

  function TypeOf(v: Value): ValueType {
    match v
    case Int64(_) => Int64Type
    case Double(_) => DoubleType
    case Boolean(_) => BooleanType
    case Text(_) => TextType
  }

  /** Every tuple matches exactly one schema, that of the types of its values. */
  lemma OneSchema(schema: Schema, values: seq<Value>)
    requires forall k :: 0 <= k < |values| && values[k].Double? ==> |values[k].bits| == 8
    ensures Validates(schema, values) <==> schema == seq(|values|, k requires 0 <= k < |values| => TypeOf(values[k]))
  {
  }

  ghost predicate ShortTexts(values: seq<Value>) {
    forall k :: 0 <= k < |values| && values[k].Text? ==> |values[k].text| < U32
  }

  /** Every tuple of the schema comes back from its bytes. */
  lemma {:induction false} TupleRoundTrip(schema: Schema, values: seq<Value>)
    requires Validates(schema, values) && ShortTexts(values)
    ensures Deserialize(schema, Serialize(values)) == Some(values)
  {
    if values != [] {
      TupleRoundTrip(schema[1..], values[1..]);
      ValueRoundTrip(values[0], schema[0], Serialize(values[1..]));
      assert [values[0]] + values[1..] == values;
    }
  }

  /** No text in a tuple is longer than the tuple. */
  lemma {:induction false} TextsFit(values: seq<Value>)
    ensures forall k :: 0 <= k < |values| && values[k].Text? ==> |values[k].text| <= |Serialize(values)|
  {
    if values != [] {
      TextsFit(values[1..]);
      forall k | 0 <= k < |values| && values[k].Text? ensures |values[k].text| <= |Serialize(values)| {
        if k > 0 { assert values[k] == values[1..][k - 1]; }
      }
    }
  }

  /** A tuple that fits a page always comes back. */
  lemma FittingRoundTrip(schema: Schema, values: seq<Value>)
    requires Validates(schema, values) && |Serialize(values)| <= PAYLOAD_SIZE
    ensures Deserialize(schema, Serialize(values)) == Some(values)
  {
    TextsFit(values);
    TupleRoundTrip(schema, values);
  }

  lemma ConcatThrice(a: Bytes, b: Bytes, c: Bytes)
    ensures a + (b + c) == a + b + c
  {
  }

  lemma {:induction false} SerializeAppend(values: seq<Value>, v: Value)
    ensures Serialize(values + [v]) == Serialize(values) + EncodeValue(v)
  {
    var e := EncodeValue(v);
    if values == [] {
      assert values + [v] == [v] && [v][1..] == [];
      assert Serialize([v]) == e + [] == e;
    } else {
      SerializeAppend(values[1..], v);
      assert (values + [v])[0] == values[0] && (values + [v])[1..] == values[1..] + [v];
      ConcatThrice(EncodeValue(values[0]), Serialize(values[1..]), e);
    }
  }

  /** The encoding loop; None for a tuple that does not match the schema. */
  method SerializeTuple(schema: Schema, values: seq<Value>) returns (r: Option<Bytes>)
    ensures r == if Validates(schema, values) then Some(Serialize(values)) else None
  {
    if !Validates(schema, values) { return None; }
    var b: Bytes := [];
    for k := 0 to |values|
      invariant b == Serialize(values[..k])
    {
      assert values[..k + 1] == values[..k] + [values[k]];
      SerializeAppend(values[..k], values[k]);
      b := b + EncodeValue(values[k]);
    }
    assert values[..|values|] == values;
    r := Some(b);
  }

  /** The decoding loop. */
  method DeserializeTuple(schema: Schema, b: Bytes) returns (r: Option<seq<Value>>)
    ensures r == Deserialize(schema, b)
  {
    var rest, out := b, [];
    assert schema[0..] == schema;
    assert forall vs: seq<Value> :: [] + vs == vs;
    for k := 0 to |schema|
      invariant Deserialize(schema, b) == Prefixed(out, Deserialize(schema[k..], rest))
    {
      var d := DecodeValue(schema[k], rest);
      if d.None? { return None; }
      PrefixedStep(out, d.value.0, Deserialize(schema[k + 1..], d.value.1));
      assert schema[k..][1..] == schema[k + 1..];
      out, rest := out + [d.value.0], d.value.1;
    }
    assert schema[|schema|..] == [] && out + [] == out;
    r := if rest == [] then Some(out) else None;
  }

  function Prefixed(out: seq<Value>, r: Option<seq<Value>>): Option<seq<Value>> {
    if r.None? then None else Some(out + r.value)
  }

  lemma PrefixedStep(out: seq<Value>, v: Value, r: Option<seq<Value>>)
    ensures Prefixed(out, if r.None? then None else Some([v] + r.value)) == Prefixed(out + [v], r)
  {
    if r.Some? { assert out + ([v] + r.value) == (out + [v]) + r.value; }
  }
}
