/** The canonical JSON printer behind the homepage digests, and a parser for its output. */
module CanonicalJson {
  import opened JsonString
  import opened Options
  import opened Utf16

  /** A finite double is identified by the text that Number::toString gives it. */
  datatype Number = NonFinite | NegativeZero | Finite(token: Text)

  /** A digest input. `Undefined` is a field whose value is `undefined`, or a bad input elsewhere. */
  datatype Json =
    | Null
    | Undefined
    | Bool(b: bool)
    | Num(n: Number)
    | Str(s: Text)
    | Arr(items: seq<Json>)
    | Obj(fields: seq<Field>)

  datatype Field = Field(name: Text, value: Json)

  const NULL: Text := [110, 117, 108, 108]
  const TRUE: Text := [116, 114, 117, 101]
  const FALSE: Text := [102, 97, 108, 115, 101]
  const ZERO: Text := [48]

  predicate NumberChar(u: CodeUnit) { 48 <= u < 58 || u == 43 || u == 45 || u == 46 || u == 101 }

  predicate NumberToken(t: Text) { t != [] && forall i :: 0 <= i < |t| ==> NumberChar(t[i]) }

  function NameOf(f: Field): Text { f.name }

  /** What JavaScript guarantees of a value: number tokens are tokens, the keys of an object differ. */
  ghost predicate Valid(v: Json) {
    match v
    case Num(n) => n.Finite? ==> NumberToken(n.token)
    case Arr(items) => forall i :: 0 <= i < |items| ==> Valid(items[i])
    case Obj(fields) => DistinctKeys(NameOf, fields) && forall i :: 0 <= i < |fields| ==> Valid(fields[i].value)
    case _ => true
  }

  // ---- A size that sorting keeps, for termination ----------------------------------------------

  function Size(v: Json): (n: nat)
    ensures n > 0
  {
    match v
    case Arr(items) => 1 + SizeItems(items)
    case Obj(fields) => 1 + SizeFields(fields)
    case _ => 1
  }

  function SizeItems(items: seq<Json>): nat {
    if items == [] then 0 else Size(items[0]) + SizeItems(items[1..])
  }

  function SizeFields(fields: seq<Field>): nat {
    if fields == [] then 0 else Size(fields[0].value) + SizeFields(fields[1..])
  }

  /** `Object.entries(value).filter(...)`: the fields that are defined. */
  function Defined(fields: seq<Field>): seq<Field> {
    if fields == [] then []
    else (if fields[0].value.Undefined? then [] else [fields[0]]) + Defined(fields[1..])
  }

  /** The defined fields in key order. */
  function Entries(fields: seq<Field>): seq<Field> { Sort(NameOf, Defined(fields)) }

  lemma {:induction false} SizeDefined(fields: seq<Field>)
    ensures SizeFields(Defined(fields)) <= SizeFields(fields)
  {
    if fields != [] {
      SizeDefined(fields[1..]);
      assert Defined(fields) == Defined(fields[1..]) || Defined(fields)[1..] == Defined(fields[1..]);
    }
  }

  lemma {:induction false} SizeInsert(f: Field, fields: seq<Field>)
    ensures SizeFields(Insert(NameOf, f, fields)) == Size(f.value) + SizeFields(fields)
  {
    if fields == [] {
    } else if Less(NameOf(fields[0]), NameOf(f)) {
      SizeInsert(f, fields[1..]);
      assert Insert(NameOf, f, fields)[1..] == Insert(NameOf, f, fields[1..]);
    } else {
      assert ([f] + fields)[1..] == fields;
    }
  }

  lemma {:induction false} SizeSort(fields: seq<Field>)
    ensures SizeFields(Sort(NameOf, fields)) == SizeFields(fields)
  {
    if fields != [] {
      SizeSort(fields[1..]);
      SizeInsert(fields[0], Sort(NameOf, fields[1..]));
    }
  }

  lemma SizeEntries(fields: seq<Field>)
    ensures SizeFields(Entries(fields)) <= SizeFields(fields)
  {
    SizeDefined(fields);
    SizeSort(Defined(fields));
  }

  // ---- The printer ------------------------------------------------------------------------------

  /** `JSON.stringify` of a number. */
  function NumberText(n: Number): Text {
    match n
    case NonFinite => NULL
    case NegativeZero => ZERO
    case Finite(token) => token
  }

  /** `canonicalJson`; `None` is the error thrown for an unsupported `undefined`. */
  function Print(v: Json): Option<Text>
    decreases Size(v), 0
  {
    match v
    case Null => Some(NULL)
    case Undefined => None
    case Bool(b) => Some(if b then TRUE else FALSE)
    case Num(n) => Some(NumberText(n))
    case Str(s) => Some(Quote(s))
    case Arr(items) =>
      var body := PrintItems(items);
      if body.None? then None else Some([91] + body.value + [93])
    case Obj(fields) =>
      SizeEntries(fields);
      var body := PrintFields(Entries(fields));
      if body.None? then None else Some([123] + body.value + [125])
  }

  function PrintItems(items: seq<Json>): Option<Text>
    decreases SizeItems(items), 1
  {
    if items == [] then Some([])
    else
      var head := Print(items[0]);
      var tail := PrintItems(items[1..]);
      if head.None? || tail.None? then None
      else Some(if |items| == 1 then head.value else head.value + [44] + tail.value)
  }

  function PrintFields(fields: seq<Field>): Option<Text>
    decreases SizeFields(fields), 1
  {
    if fields == [] then Some([])
    else
      var head := Print(fields[0].value);
      var tail := PrintFields(fields[1..]);
      if head.None? || tail.None? then None
      else
        var member := Quote(fields[0].name) + [58] + head.value;
        Some(if |fields| == 1 then member else member + [44] + tail.value)
  }

  // ---- The normal form: undefined fields dropped, keys sorted, numbers as they print -----------

  function NormalNumber(n: Number): Json {
    match n
    case NonFinite => Null
    case NegativeZero => Num(Finite(ZERO))
    case Finite(_) => Num(n)
  }

  function Normal(v: Json): Json
    decreases Size(v), 0
  {
    match v
    case Num(n) => NormalNumber(n)
    case Arr(items) => Arr(NormalItems(items))
    case Obj(fields) => SizeEntries(fields); Obj(NormalFields(Entries(fields)))
    case _ => v
  }

  function NormalItems(items: seq<Json>): (r: seq<Json>)
    ensures |r| == |items|
    decreases SizeItems(items), 1
  {
    if items == [] then [] else [Normal(items[0])] + NormalItems(items[1..])
  }

  function NormalFields(fields: seq<Field>): (r: seq<Field>)
    ensures |r| == |fields|
    decreases SizeFields(fields), 1
  {
    if fields == [] then []
    else [Field(fields[0].name, Normal(fields[0].value))] + NormalFields(fields[1..])
  }

  // ---- The parser -------------------------------------------------------------------------------

  function NumberLength(t: Text): (n: nat)
    ensures n <= |t|
  {
    if t == [] || !NumberChar(t[0]) then 0 else 1 + NumberLength(t[1..])
  }

  function Parse(t: Text): (r: Parsed<Json>)
    ensures r.Read? ==> |r.rest| < |t|
    decreases |t|, 0
  {
    if NULL <= t then Read(Null, t[4..])
    else if TRUE <= t then Read(Bool(true), t[4..])
    else if FALSE <= t then Read(Bool(false), t[5..])
    else if NumberLength(t) > 0 then Read(Num(Finite(t[..NumberLength(t)])), t[NumberLength(t)..])
    else if t == [] then Unreadable
    else if t[0] == QUOTE then
      var body := ReadBody(t[1..]);
      if body.Unreadable? then Unreadable else Read(Str(body.value), body.rest)
    else if t[0] == 91 then
      if |t| > 1 && t[1] == 93 then Read(Arr([]), t[2..])
      else
        var body := ParseItems(t[1..]);
        if body.Unreadable? then Unreadable else Read(Arr(body.value), body.rest)
    else if t[0] == 123 then
      if |t| > 1 && t[1] == 125 then Read(Obj([]), t[2..])
      else
        var body := ParseFields(t[1..]);
        if body.Unreadable? then Unreadable else Read(Obj(body.value), body.rest)
    else Unreadable
  }

  /** One or more values, comma separated, up to the closing bracket. */
  function ParseItems(t: Text): (r: Parsed<seq<Json>>)
    ensures r.Read? ==> |r.rest| < |t|
    decreases |t|, 1
  {
    var head := Parse(t);
    if head.Unreadable? || head.rest == [] then Unreadable
    else if head.rest[0] == 93 then Read([head.value], head.rest[1..])
    else if head.rest[0] == 44 then
      var tail := ParseItems(head.rest[1..]);
      if tail.Unreadable? then Unreadable else Read([head.value] + tail.value, tail.rest)
    else Unreadable
  }

  function ParseFields(t: Text): (r: Parsed<seq<Field>>)
    ensures r.Read? ==> |r.rest| < |t|
    decreases |t|, 1
  {
    if t == [] || t[0] != QUOTE then Unreadable
    else
      var name := ReadBody(t[1..]);
      if name.Unreadable? || name.rest == [] || name.rest[0] != 58 then Unreadable
      else
        var head := Parse(name.rest[1..]);
        if head.Unreadable? || head.rest == [] then Unreadable
        else
          var field := Field(name.value, head.value);
          if head.rest[0] == 125 then Read([field], head.rest[1..])
          else if head.rest[0] == 44 then
            var tail := ParseFields(head.rest[1..]);
            if tail.Unreadable? then Unreadable else Read([field] + tail.value, tail.rest)
          else Unreadable
  }
}
