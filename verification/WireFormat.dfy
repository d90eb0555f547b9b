/**
  A codec with the properties that the response stream asks of its JSON codec: every JSON value has
  a text of its own without a newline.  The text is binary, and each part marks its own end.
 */
module WireFormat {
  import opened Prelude
  import opened ResponseDelta
  import opened ResponseStream

  // ---------- The text of a value, followed by `rest` ----------

  ghost function Unary(n: nat, rest: string): string {
    if n == 0 then ['0'] + rest else ['1'] + Unary(n - 1, rest)
  }

  ghost function Text(s: string, rest: string): string {
    if s == [] then ['0'] + rest else ['1'] + Unary(s[0] as nat, Text(s[1..], rest))
  }

  ghost function IntText(n: int, rest: string): string {
    if n < 0 then ['1'] + Unary(-n, rest) else ['0'] + Unary(n, rest)
  }

  ghost function Tag(j: Json): nat {
    match j
    case JNull => 0
    case JBool(b) => if b then 1 else 2
    case JNumber(_, _) => 3
    case JString(_) => 4
    case JList(_) => 5
    case JObject(_) => 6
  }

  ghost function JsonText(j: Json, rest: string): string
    decreases j, 1, 0
  {
    Unary(Tag(j), Body(j, rest))
  }

  ghost function Body(j: Json, rest: string): string
    decreases j, 0, 1, 0
  {
    match j
    case JNull => rest
    case JBool(_) => rest
    case JNumber(mantissa, exponent) => IntText(mantissa, IntText(exponent, rest))
    case JString(s) => Text(s, rest)
    case JList(_) => ItemsText(j, 0, rest)
    case JObject(fields) => FieldsText(j, fields.Keys, rest)
  }

  ghost function ItemsText(j: Json, k: nat, rest: string): string
    requires j.JList? && k <= |j.items|
    decreases j, 0, 0, |j.items| - k
  {
    if k == |j.items| then ['0'] + rest else ['1'] + JsonText(j.items[k], ItemsText(j, k + 1, rest))
  }

  ghost function FieldsText(j: Json, keys: set<string>, rest: string): string
    requires j.JObject? && keys <= j.fields.Keys
    decreases j, 0, 0, |keys|
  {
    if keys == {} then ['0'] + rest
    else
      var k :| k in keys;
      ['1'] + Text(k, JsonText(j.fields[k], FieldsText(j, keys - {k}, rest)))
  }

  // ---------- Equal texts come from equal values ----------

  lemma SameHead(c: char, d: char, x: string, y: string)
    requires [c] + x == [d] + y
    ensures c == d && x == y
  {
    assert ([c] + x)[0] == ([d] + y)[0];
    assert ([c] + x)[1..] == x && ([d] + y)[1..] == y;
  }

  lemma {:induction false} UnaryEnds(a: nat, b: nat, x: string, y: string)
    requires Unary(a, x) == Unary(b, y)
    ensures a == b && x == y
  {
    SameHead(if a == 0 then '0' else '1', if b == 0 then '0' else '1',
             if a == 0 then x else Unary(a - 1, x), if b == 0 then y else Unary(b - 1, y));
    if a > 0 {
      UnaryEnds(a - 1, b - 1, x, y);
    }
  }

  lemma {:induction false} TextEnds(a: string, b: string, x: string, y: string)
    requires Text(a, x) == Text(b, y)
    ensures a == b && x == y
    decreases |a|
  {
    SameHead(if a == [] then '0' else '1', if b == [] then '0' else '1',
             if a == [] then x else Unary(a[0] as nat, Text(a[1..], x)),
             if b == [] then y else Unary(b[0] as nat, Text(b[1..], y)));
    if a != [] {
      UnaryEnds(a[0] as nat, b[0] as nat, Text(a[1..], x), Text(b[1..], y));
      TextEnds(a[1..], b[1..], x, y);
      assert a == [a[0]] + a[1..] && b == [b[0]] + b[1..];
    }
  }

  lemma IntEnds(a: int, b: int, x: string, y: string)
    requires IntText(a, x) == IntText(b, y)
    ensures a == b && x == y
  {
    var m, n := if a < 0 then -a else a, if b < 0 then -b else b;
    SameHead(if a < 0 then '1' else '0', if b < 0 then '1' else '0', Unary(m, x), Unary(n, y));
    UnaryEnds(m, n, x, y);
  }

  lemma {:induction false} JsonEnds(a: Json, b: Json, x: string, y: string)
    requires JsonText(a, x) == JsonText(b, y)
    ensures a == b && x == y
    decreases a, 1, 0
  {
    UnaryEnds(Tag(a), Tag(b), Body(a, x), Body(b, y));
    match a
    case JNull =>
    case JBool(_) =>
    case JNumber(m, e) =>
      IntEnds(m, b.mantissa, IntText(e, x), IntText(b.exponent, y));
      IntEnds(e, b.exponent, x, y);
    case JString(s) => TextEnds(s, b.s, x, y);
    case JList(items) =>
      ItemsEnd(a, b, 0, x, y);
      assert items == items[0..] && b.items == b.items[0..];
    case JObject(fields) =>
      FieldsEnd(a, b, fields.Keys, b.fields.Keys, x, y);
      assert fields == b.fields;
  }

  lemma {:induction false} ItemsEnd(a: Json, b: Json, k: nat, x: string, y: string)
    requires a.JList? && b.JList? && k <= |a.items| && k <= |b.items|
    requires ItemsText(a, k, x) == ItemsText(b, k, y)
    ensures a.items[k..] == b.items[k..] && x == y
    decreases a, 0, |a.items| - k
  {
    var p, q := k == |a.items|, k == |b.items|;
    SameHead(if p then '0' else '1', if q then '0' else '1',
             if p then x else JsonText(a.items[k], ItemsText(a, k + 1, x)),
             if q then y else JsonText(b.items[k], ItemsText(b, k + 1, y)));
    if !p {
      JsonEnds(a.items[k], b.items[k], ItemsText(a, k + 1, x), ItemsText(b, k + 1, y));
      ItemsEnd(a, b, k + 1, x, y);
      assert a.items[k..] == [a.items[k]] + a.items[k + 1..] && b.items[k..] == [b.items[k]] + b.items[k + 1..];
    }
  }

  lemma {:induction false} FieldsEnd(a: Json, b: Json, ka: set<string>, kb: set<string>, x: string, y: string)
    requires a.JObject? && b.JObject? && ka <= a.fields.Keys && kb <= b.fields.Keys
    requires FieldsText(a, ka, x) == FieldsText(b, kb, y)
    ensures ka == kb && x == y && forall k :: k in ka ==> a.fields[k] == b.fields[k]
    decreases a, 0, |ka|
  {
    var k, u := FirstField(a, ka, x);
    var m, v := FirstField(b, kb, y);
    SameHead(if ka == {} then '0' else '1', if kb == {} then '0' else '1', u, v);
    if ka != {} {
      var p, q := a.fields[k], b.fields[m];
      var ra, rb := FieldsText(a, ka - {k}, x), FieldsText(b, kb - {m}, y);
      TextEnds(k, m, JsonText(p, ra), JsonText(q, rb));
      JsonEnds(p, q, ra, rb);
      FieldsEnd(a, b, ka - {k}, kb - {m}, x, y);
      assert ka == (ka - {k}) + {k} && kb == (kb - {m}) + {m};
    }
  }

  /** The field written first, and the text after the first character. */
  lemma FirstField(j: Json, keys: set<string>, rest: string) returns (k: string, after: string)
    requires j.JObject? && keys <= j.fields.Keys
    ensures FieldsText(j, keys, rest) == [if keys == {} then '0' else '1'] + after
    ensures if keys == {} then after == rest
            else k in keys && after == Text(k, JsonText(j.fields[k], FieldsText(j, keys - {k}, rest)))
  {
    if keys == {} {
      k, after := "", rest;
    } else {
      k :| k in keys &&
           FieldsText(j, keys, rest) == ['1'] + Text(k, JsonText(j.fields[k], FieldsText(j, keys - {k}, rest)));
      after := Text(k, JsonText(j.fields[k], FieldsText(j, keys - {k}, rest)));
    }
  }

  // ---------- No text has a newline ----------

  ghost predicate Binary(s: string) {
    forall c :: c in s ==> c == '0' || c == '1'
  }

  lemma {:induction false} UnaryIsBinary(n: nat, rest: string)
    requires Binary(rest)
    ensures Binary(Unary(n, rest)) && Unary(n, rest) != []
  {
    if n > 0 {
      UnaryIsBinary(n - 1, rest);
    }
  }

  lemma {:induction false} TextIsBinary(s: string, rest: string)
    requires Binary(rest)
    ensures Binary(Text(s, rest))
  {
    if s != [] {
      TextIsBinary(s[1..], rest);
      UnaryIsBinary(s[0] as nat, Text(s[1..], rest));
    }
  }

  lemma IntIsBinary(n: int, rest: string)
    requires Binary(rest)
    ensures Binary(IntText(n, rest))
  {
    UnaryIsBinary(if n < 0 then -n else n, rest);
  }

  lemma {:induction false} JsonIsBinary(j: Json, rest: string)
    requires Binary(rest)
    ensures Binary(JsonText(j, rest)) && JsonText(j, rest) != []
    decreases j, 1, 0
  {
    match j {
      case JNull =>
      case JBool(_) =>
      case JNumber(m, e) =>
        IntIsBinary(e, rest);
        IntIsBinary(m, IntText(e, rest));
      case JString(s) => TextIsBinary(s, rest);
      case JList(_) => ItemsAreBinary(j, 0, rest);
      case JObject(fields) => FieldsAreBinary(j, fields.Keys, rest);
    }
    UnaryIsBinary(Tag(j), Body(j, rest));
  }

  lemma {:induction false} ItemsAreBinary(j: Json, k: nat, rest: string)
    requires j.JList? && k <= |j.items| && Binary(rest)
    ensures Binary(ItemsText(j, k, rest))
    decreases j, 0, |j.items| - k
  {
    if k < |j.items| {
      ItemsAreBinary(j, k + 1, rest);
      JsonIsBinary(j.items[k], ItemsText(j, k + 1, rest));
    }
  }

  lemma {:induction false} FieldsAreBinary(j: Json, keys: set<string>, rest: string)
    requires j.JObject? && keys <= j.fields.Keys && Binary(rest)
    ensures Binary(FieldsText(j, keys, rest))
    decreases j, 0, |keys|
  {
    var k, after := FirstField(j, keys, rest);
    if keys != {} {
      FieldsAreBinary(j, keys - {k}, rest);
      JsonIsBinary(j.fields[k], FieldsText(j, keys - {k}, rest));
      TextIsBinary(k, JsonText(j.fields[k], FieldsText(j, keys - {k}, rest)));
    }
  }

  // ---------- The codec ----------

  function IndexJson(index: Option<int>): Json {
    if index.Some? then JNumber(index.value, 0) else JNull
  }

  function LineJson(l: Line): Json {
    match l
    case Snapshot(output) => JList([JBool(true), JList(output)])
    case Delta(e) => JList([
      JBool(false), JString(e.eventType), e.itemId, IndexJson(e.outputIndex), IndexJson(e.contentIndex),
      IndexJson(e.summaryIndex), JString(e.delta)])
  }

  lemma LineJsonInjective(a: Line, b: Line)
    requires LineJson(a) == LineJson(b)
    ensures a == b
  {
    var x, y := LineJson(a).items, LineJson(b).items;
    assert x[0] == y[0];
    if a.Snapshot? {
      assert x[1] == y[1];
    } else {
      assert x[1] == y[1] && x[2] == y[2] && x[3] == y[3] && x[4] == y[4] && x[5] == y[5] && x[6] == y[6];
    }
  }

  ghost function Encode(l: Line): string {
    JsonText(LineJson(l), [])
  }

  ghost function Decode(s: string): Option<Line> {
    if exists l :: Encode(l) == s then
      var l :| Encode(l) == s;
      Some(l)
    else None
  }

  lemma DecodeEncode(l: Line)
    ensures Encode(l) != [] && '\n' !in Encode(l) && Decode(Encode(l)) == Some(l)
  {
    JsonIsBinary(LineJson(l), []);
    var l' := Decode(Encode(l)).value;
    JsonEnds(LineJson(l'), LineJson(l), [], []);
    LineJsonInjective(l', l);
  }

  /** What the stream asks of its codec can be had. */
  lemma CodecExists() returns (codec: Codec)
    ensures codec.Good()
  {
    codec := Codec((l: Line) => Encode(l), (s: string) => Decode(s));
    forall l
      ensures codec.encode(l) != [] && '\n' !in codec.encode(l) && codec.decode(codec.encode(l)) == Some(l)
    {
      DecodeEncode(l);
    }
  }
}
