/** The canonical text is unambiguous: a parser recovers the value up to key order and undefined
    fields, so two values print alike exactly when they are the same up to those. */
module CanonicalJsonProofs {
  import opened CanonicalJson
  import opened JsonString
  import opened Options
  import opened Utf16

  // ---- Entries: exactly the defined fields, in key order -----------------------------------------

  lemma {:induction false} DefinedExactly(fields: seq<Field>)
    requires DistinctKeys(NameOf, fields)
    ensures DistinctKeys(NameOf, Defined(fields))
    ensures forall f :: f in Defined(fields) <==> f in fields && !f.value.Undefined?
  {
    if fields != [] {
      DefinedExactly(fields[1..]);
      assert fields == [fields[0]] + fields[1..];
      forall f | f in Defined(fields[1..]) ensures NameOf(f) != NameOf(fields[0]) {
        var k :| 0 <= k < |fields[1..]| && fields[1..][k] == f;
        assert NameOf(fields[0]) != NameOf(fields[k + 1]);
      }
    }
  }

  lemma EntriesExactly(fields: seq<Field>)
    requires DistinctKeys(NameOf, fields)
    ensures Ascending(NameOf, Entries(fields))
    ensures forall f :: f in Entries(fields) <==> f in fields && !f.value.Undefined?
  {
    DefinedExactly(fields);
    SortAscends(NameOf, Defined(fields));
    SortKeeps(NameOf, Defined(fields));
  }

  lemma AscendingDistinct(fields: seq<Field>)
    requires Ascending(NameOf, fields)
    ensures DistinctKeys(NameOf, fields)
  {
    forall i, j | 0 <= i < j < |fields| ensures NameOf(fields[i]) != NameOf(fields[j]) {
      LessTotal(NameOf(fields[i]), NameOf(fields[j]));
    }
  }

  ghost predicate ValidFields(fields: seq<Field>) {
    forall f :: f in fields ==> Valid(f.value)
  }

  lemma EntriesValid(fields: seq<Field>)
    requires Valid(Obj(fields))
    ensures ValidFields(Entries(fields))
  {
    EntriesExactly(fields);
    assert forall i :: 0 <= i < |fields| ==> Valid(fields[i].value);
  }

  // ---- When the printer throws ---------------------------------------------------------------------

  /** An `undefined` that no object field hides. */
  ghost predicate Unsupported(v: Json) {
    match v
    case Undefined => true
    case Arr(items) => exists i :: 0 <= i < |items| && Unsupported(items[i])
    case Obj(fields) => exists i :: 0 <= i < |fields| && !fields[i].value.Undefined? && Unsupported(fields[i].value)
    case _ => false
  }

  /** The printer throws exactly on an `undefined` outside an object field. */
  lemma {:induction false} ThrowsExactly(v: Json)
    requires Valid(v)
    ensures Print(v).None? <==> Unsupported(v)
    decreases Size(v), 0
  {
    match v
    case Arr(items) => ItemsThrowExactly(items);
    case Obj(fields) =>
      SizeEntries(fields);
      EntriesExactly(fields);
      EntriesValid(fields);
      var kept := Entries(fields);
      FieldsThrowExactly(kept);
      if Unsupported(v) {
        var i :| 0 <= i < |fields| && !fields[i].value.Undefined? && Unsupported(fields[i].value);
        assert fields[i] in kept;
      }
      if exists f :: f in kept && Unsupported(f.value) {
        var f :| f in kept && Unsupported(f.value);
        assert f in fields;
      }
    case _ =>
  }

  lemma {:induction false} ItemsThrowExactly(items: seq<Json>)
    requires forall i :: 0 <= i < |items| ==> Valid(items[i])
    ensures PrintItems(items).None? <==> exists i :: 0 <= i < |items| && Unsupported(items[i])
    decreases SizeItems(items), 1
  {
    if items != [] {
      ThrowsExactly(items[0]);
      ItemsThrowExactly(items[1..]);
      assert forall i :: 0 <= i < |items[1..]| ==> items[1..][i] == items[i + 1];
      assert forall i :: 1 <= i < |items| ==> items[i] == items[1..][i - 1];
    }
  }

  lemma {:induction false} FieldsThrowExactly(fields: seq<Field>)
    requires ValidFields(fields)
    ensures PrintFields(fields).None? <==> exists f :: f in fields && Unsupported(f.value)
    decreases SizeFields(fields), 1
  {
    if fields != [] {
      ThrowsExactly(fields[0].value);
      FieldsThrowExactly(fields[1..]);
      assert fields == [fields[0]] + fields[1..];
    }
  }

  // ---- Round trip ------------------------------------------------------------------------------------

  /** A text that does not start inside a number token. */
  predicate Ends(rest: Text) { rest == [] || !NumberChar(rest[0]) }

  lemma {:induction false} NumberReads(token: Text, rest: Text)
    requires forall i :: 0 <= i < |token| ==> NumberChar(token[i])
    requires Ends(rest)
    ensures NumberLength(token + rest) == |token|
  {
    if token == [] {
      assert token + rest == rest;
    } else {
      NumberReads(token[1..], rest);
      assert (token + rest)[1..] == token[1..] + rest;
    }
  }

  lemma TokenParses(token: Text, rest: Text)
    requires NumberToken(token) && Ends(rest)
    ensures Parse(token + rest) == Read(Num(Finite(token)), rest)
  {
    NumberReads(token, rest);
    var t := token + rest;
    assert t[0] == token[0] && NumberChar(t[0]);
    assert t[..|token|] == token && t[|token|..] == rest;
    assert !(NULL <= t) && !(TRUE <= t) && !(FALSE <= t);
  }

  lemma WordParses(rest: Text)
    ensures Parse(NULL + rest) == Read(Null, rest)
    ensures Parse(TRUE + rest) == Read(Bool(true), rest)
    ensures Parse(FALSE + rest) == Read(Bool(false), rest)
  {
    assert (NULL + rest)[4..] == rest && (TRUE + rest)[4..] == rest && (FALSE + rest)[5..] == rest;
    assert NULL <= NULL + rest && TRUE <= TRUE + rest && FALSE <= FALSE + rest;
    assert (TRUE + rest)[0] == 116 && (FALSE + rest)[0] == 102;
  }

  /** A text that begins with a quote is read as a string body. */
  lemma QuotedParses(t: Text)
    requires t != [] && t[0] == QUOTE && ReadBody(t[1..]).Read?
    ensures Parse(t) == Read(Str(ReadBody(t[1..]).value), ReadBody(t[1..]).rest)
  {
  }

  lemma QuoteOpens(s: Text, rest: Text)
    ensures (Quote(s) + rest)[0] == QUOTE
    ensures (Quote(s) + rest)[1..] == QuoteBody(s) + [QUOTE] + rest
  {}

  lemma StringParses(s: Text, rest: Text)
    ensures Parse(Quote(s) + rest) == Read(Str(s), rest)
  {
    BodyReads(s, rest);
    QuoteOpens(s, rest);
    QuotedParses(Quote(s) + rest);
  }

  lemma ArrayStep(t: Text, items: seq<Json>, rest: Text)
    requires |t| > 1 && t[0] == 91 && t[1] != 93 && ParseItems(t[1..]) == Read(items, rest)
    ensures Parse(t) == Read(Arr(items), rest)
  {}

  lemma ObjectStep(t: Text, fields: seq<Field>, rest: Text)
    requires |t| > 1 && t[0] == 123 && t[1] != 125 && ParseFields(t[1..]) == Read(fields, rest)
    ensures Parse(t) == Read(Obj(fields), rest)
  {}

  lemma ItemsStep(t: Text, v: Json, after: Text, tail: seq<Json>, rest: Text)
    requires Parse(t) == Read(v, after)
    requires || (after == [93] + rest && tail == [])
             || (exists more :: after == [44] + more && ParseItems(more) == Read(tail, rest))
    ensures ParseItems(t) == Read([v] + tail, rest)
  {
    if after == [93] + rest && tail == [] {
      assert after[1..] == rest && [v] + tail == [v];
    } else {
      var more :| after == [44] + more && ParseItems(more) == Read(tail, rest);
      assert after[1..] == more;
    }
  }

  lemma FieldsStep(t: Text, name: Text, value: Text, v: Json, after: Text, tail: seq<Field>, rest: Text)
    requires t != [] && t[0] == QUOTE && ReadBody(t[1..]) == Read(name, [58] + value)
    requires Parse(value) == Read(v, after)
    requires || (after == [125] + rest && tail == [])
             || (exists more :: after == [44] + more && ParseFields(more) == Read(tail, rest))
    ensures ParseFields(t) == Read([Field(name, v)] + tail, rest)
  {
    assert ([58] + value)[1..] == value;
    if after == [125] + rest && tail == [] {
      assert after[1..] == rest && [Field(name, v)] + tail == [Field(name, v)];
    } else {
      var more :| after == [44] + more && ParseFields(more) == Read(tail, rest);
      assert after[1..] == more;
    }
  }

  lemma EmptyParse(rest: Text)
    ensures Parse([91] + [] + [93] + rest) == Read(Arr([]), rest)
    ensures Parse([123] + [] + [125] + rest) == Read(Obj([]), rest)
  {
    var a, o := [91] + [] + [93] + rest, [123] + [] + [125] + rest;
    assert a[0] == 91 && a[1] == 93 && a[2..] == rest;
    assert o[0] == 123 && o[1] == 125 && o[2..] == rest;
  }

  /** A printed value starts with a character that closes nothing. */
  lemma {:induction false} PrintStarts(v: Json)
    requires Valid(v) && Print(v).Some?
    ensures Print(v).value != [] && Print(v).value[0] != 93
  {}

  lemma Regroup(head: Text, comma: Text, tail: Text, close: Text, rest: Text)
    ensures (head + comma + tail) + close + rest == head + (comma + (tail + close + rest))
    ensures head + close + rest == head + (close + rest)
  {}

  lemma Bracketed(open: CodeUnit, body: Text, close: CodeUnit, rest: Text)
    requires body != []
    ensures var t := [open] + body + [close] + rest;
            |t| > 1 && t[0] == open && t[1] == body[0] && t[1..] == body + [close] + rest
  {
    assert ([open] + body + [close] + rest)[1..] == body + [close] + rest;
  }

  /** Reading a printed value recovers its normal form and leaves the text after it unread. */
  lemma {:induction false} ParsePrinted(v: Json, rest: Text)
    requires Valid(v) && Print(v).Some? && Ends(rest)
    ensures Parse(Print(v).value + rest) == Read(Normal(v), rest)
    decreases Size(v), 0
  {
    match v
    case Null => WordParses(rest);
    case Bool(b) => WordParses(rest);
    case Num(n) =>
      WordParses(rest);
      TokenParses(if n.Finite? then n.token else ZERO, rest);
    case Str(s) => StringParses(s, rest);
    case Arr(items) =>
      if items == [] {
        EmptyParse(rest);
      } else {
        ItemsParse(items, PrintItems(items).value, rest);
        Bracketed(91, PrintItems(items).value, 93, rest);
        ArrayStep(Print(v).value + rest, NormalItems(items), rest);
      }
    case Obj(fields) =>
      SizeEntries(fields);
      EntriesValid(fields);
      ObjectParses(Entries(fields), rest);
  }

  lemma {:induction false} ObjectParses(kept: seq<Field>, rest: Text)
    requires PrintFields(kept).Some? && ValidFields(kept)
    ensures Parse([123] + PrintFields(kept).value + [125] + rest) == Read(Obj(NormalFields(kept)), rest)
    decreases SizeFields(kept), 2
  {
    if kept == [] {
      EmptyParse(rest);
    } else {
      FieldsParse(kept, PrintFields(kept).value, rest);
      Bracketed(123, PrintFields(kept).value, 125, rest);
      ObjectStep([123] + PrintFields(kept).value + [125] + rest, NormalFields(kept), rest);
    }
  }

  /** The last item of an array, then the closing bracket. */
  lemma LastItem(head: Text, v: Json, rest: Text)
    requires Parse(head + ([93] + rest)) == Read(v, [93] + rest)
    ensures ParseItems(head + [93] + rest) == Read([v], rest)
  {
    Regroup(head, [], [], [93], rest);
    ItemsStep(head + ([93] + rest), v, [93] + rest, [], rest);
  }

  /** An item, a comma, and items that already read. */
  lemma NextItem(head: Text, v: Json, tail: Text, items: seq<Json>, rest: Text)
    requires Parse(head + ([44] + (tail + [93] + rest))) == Read(v, [44] + (tail + [93] + rest))
    requires ParseItems(tail + [93] + rest) == Read(items, rest)
    ensures ParseItems((head + [44] + tail) + [93] + rest) == Read([v] + items, rest)
  {
    var after := [44] + (tail + [93] + rest);
    Regroup(head, [44], tail, [93], rest);
    ItemsStep(head + after, v, after, items, rest);
  }

  lemma {:induction false} ItemsParse(items: seq<Json>, body: Text, rest: Text)
    requires items != [] && PrintItems(items) == Some(body)
    requires forall i :: 0 <= i < |items| ==> Valid(items[i])
    ensures body != [] && body[0] != 93 && ParseItems(body + [93] + rest) == Read(NormalItems(items), rest)
    decreases SizeItems(items), 1
  {
    var head := Print(items[0]).value;
    PrintStarts(items[0]);
    if |items| == 1 {
      ParsePrinted(items[0], [93] + rest);
      LastItem(head, Normal(items[0]), rest);
      assert body == head && NormalItems(items) == [Normal(items[0])];
    } else {
      var tail := PrintItems(items[1..]).value;
      assert body == head + [44] + tail;
      ItemsParse(items[1..], tail, rest);
      ParsePrinted(items[0], [44] + (tail + [93] + rest));
      NextItem(head, Normal(items[0]), tail, NormalItems(items[1..]), rest);
    }
  }

  lemma AfterQuote(quote: CodeUnit, body: Text, head: Text, after: Text)
    ensures ([quote] + body + [quote] + [58] + head + after)[1..] == body + [quote] + ([58] + (head + after))
  {
    assert [quote] + body + [quote] + [58] + head + after == [quote] + (body + [quote] + ([58] + (head + after)));
  }

  /** A printed member reads as its name, the colon, and what follows. */
  lemma MemberReads(name: Text, head: Text, after: Text)
    ensures var t := Quote(name) + [58] + head + after;
            t[0] == QUOTE && ReadBody(t[1..]) == Read(name, [58] + (head + after))
  {
    BodyReads(name, [58] + (head + after));
    AfterQuote(QUOTE, QuoteBody(name), head, after);
  }

  /** The last member of an object, then the closing brace. */
  lemma LastMember(name: Text, head: Text, v: Json, rest: Text)
    requires Parse(head + ([125] + rest)) == Read(v, [125] + rest)
    ensures ParseFields(Quote(name) + [58] + head + [125] + rest) == Read([Field(name, v)], rest)
  {
    MemberReads(name, head, [125] + rest);
    Regroup(Quote(name) + [58] + head, [], [], [125], rest);
    FieldsStep(Quote(name) + [58] + head + ([125] + rest), name, head + ([125] + rest), v, [125] + rest, [], rest);
  }

  /** A member, a comma, and members that already read. */
  lemma NextMember(name: Text, head: Text, v: Json, tail: Text, fields: seq<Field>, rest: Text)
    requires Parse(head + ([44] + (tail + [125] + rest))) == Read(v, [44] + (tail + [125] + rest))
    requires ParseFields(tail + [125] + rest) == Read(fields, rest)
    ensures ParseFields((Quote(name) + [58] + head + [44] + tail) + [125] + rest)
            == Read([Field(name, v)] + fields, rest)
  {
    var after := [44] + (tail + [125] + rest);
    MemberReads(name, head, after);
    Regroup(Quote(name) + [58] + head, [44], tail, [125], rest);
    FieldsStep(Quote(name) + [58] + head + after, name, head + after, v, after, fields, rest);
  }

  lemma {:induction false} FieldsParse(fields: seq<Field>, body: Text, rest: Text)
    requires fields != [] && PrintFields(fields) == Some(body) && ValidFields(fields)
    ensures body != [] && body[0] == QUOTE && ParseFields(body + [125] + rest) == Read(NormalFields(fields), rest)
    decreases SizeFields(fields), 1
  {
    var f := fields[0];
    var head := Print(f.value).value;
    if |fields| == 1 {
      ParsePrinted(f.value, [125] + rest);
      LastMember(f.name, head, Normal(f.value), rest);
      assert NormalFields(fields) == [Field(f.name, Normal(f.value))];
    } else {
      var tail := PrintFields(fields[1..]).value;
      FieldsParse(fields[1..], tail, rest);
      ParsePrinted(f.value, [44] + (tail + [125] + rest));
      NextMember(f.name, head, Normal(f.value), tail, NormalFields(fields[1..]), rest);
    }
  }

  // ---- Printing depends only on the normal form -------------------------------------------------------

  lemma {:induction false} NormalNames(fields: seq<Field>)
    ensures forall i :: 0 <= i < |fields| ==>
      NormalFields(fields)[i] == Field(fields[i].name, Normal(fields[i].value))
  {
    if fields != [] { NormalNames(fields[1..]); }
  }

  lemma {:induction false} NormalItemsAt(items: seq<Json>)
    ensures forall i :: 0 <= i < |items| ==> NormalItems(items)[i] == Normal(items[i])
  {
    if items != [] { NormalItemsAt(items[1..]); }
  }

  lemma NormalUndefined(v: Json)
    ensures Normal(v).Undefined? <==> v.Undefined?
  {}

  /** A normal object is already sorted and has no undefined field, so its entries are its fields. */
  lemma EntriesOfNormal(fields: seq<Field>)
    requires DistinctKeys(NameOf, fields)
    ensures Entries(NormalFields(Entries(fields))) == NormalFields(Entries(fields))
  {
    var kept := Entries(fields);
    EntriesExactly(fields);
    NormalNames(kept);
    var normal := NormalFields(kept);
    assert Ascending(NameOf, normal) by {
      forall i, j | 0 <= i < j < |normal| ensures Less(NameOf(normal[i]), NameOf(normal[j])) {
        assert Less(NameOf(kept[i]), NameOf(kept[j]));
      }
    }
    AscendingDistinct(normal);
    EntriesExactly(normal);
    forall f | f in normal ensures f in Entries(normal) {
      var i :| 0 <= i < |normal| && normal[i] == f;
      assert kept[i] in kept;
      NormalUndefined(kept[i].value);
    }
    AscendingUnique(NameOf, Entries(normal), normal);
  }

  /** Printing the normal form gives the same text. */
  lemma {:induction false} PrintNormal(v: Json)
    requires Valid(v)
    ensures Print(Normal(v)) == Print(v)
    decreases Size(v), 0
  {
    match v
    case Arr(items) => PrintNormalItems(items);
    case Obj(fields) =>
      SizeEntries(fields);
      EntriesValid(fields);
      PrintNormalFields(Entries(fields));
      EntriesOfNormal(fields);
    case _ =>
  }

  lemma {:induction false} PrintNormalItems(items: seq<Json>)
    requires forall i :: 0 <= i < |items| ==> Valid(items[i])
    ensures PrintItems(NormalItems(items)) == PrintItems(items)
    decreases SizeItems(items), 1
  {
    if items != [] {
      PrintNormal(items[0]);
      PrintNormalItems(items[1..]);
    }
  }

  lemma {:induction false} PrintNormalFields(fields: seq<Field>)
    requires ValidFields(fields)
    ensures PrintFields(NormalFields(fields)) == PrintFields(fields)
    decreases SizeFields(fields), 1
  {
    if fields != [] {
      PrintNormal(fields[0].value);
      PrintNormalFields(fields[1..]);
    }
  }

  // ---- Equality up to key order and undefined fields ----------------------------------------------------

  /** The number JSON can tell apart: NaN and the infinities are null, and -0 is 0. */
  function Scalar(v: Json): Json { if v.Num? then NormalNumber(v.n) else v }

  /** Property access: the field of that name, absent when it is `undefined`. */
  function Lookup(fields: seq<Field>, name: Text): Option<Json> {
    if fields == [] then None
    else if fields[0].name == name && !fields[0].value.Undefined? then Some(fields[0].value)
    else Lookup(fields[1..], name)
  }

  lemma {:induction false} LookupExactly(fields: seq<Field>, name: Text, value: Json)
    requires DistinctKeys(NameOf, fields)
    ensures Lookup(fields, name) == Some(value) <==> Field(name, value) in fields && !value.Undefined?
  {
    if fields != [] {
      LookupExactly(fields[1..], name, value);
      assert fields == [fields[0]] + fields[1..];
      forall f | f in fields[1..] ensures f.name != fields[0].name {
        var k :| 0 <= k < |fields[1..]| && fields[1..][k] == f;
        assert NameOf(fields[0]) != NameOf(fields[k + 1]);
      }
    }
  }

  /** Equal at every depth, where an object is what property access shows of it. */
  ghost predicate Same(v: Json, w: Json) {
    match v
    case Arr(items) =>
      w.Arr? && |items| == |w.items| && forall i :: 0 <= i < |items| ==> Same(items[i], w.items[i])
    case Obj(fields) =>
      w.Obj?
      && (forall f :: f in fields && !f.value.Undefined? ==>
            Lookup(w.fields, f.name).Some? && Same(f.value, Lookup(w.fields, f.name).value))
      && (forall g :: g in w.fields && !g.value.Undefined? ==> Lookup(fields, g.name).Some?)
    case _ => !w.Arr? && !w.Obj? && Scalar(v) == Scalar(w)
  }

  /** The normal form identifies exactly the values that are the same up to order and undefined. */
  lemma {:induction false} NormalCharacterizesSame(v: Json, w: Json)
    requires Valid(v) && Valid(w)
    ensures Same(v, w) <==> Normal(v) == Normal(w)
    decreases v
  {
    match v
    case Arr(items) =>
      NormalItemsAt(items);
      if w.Arr? {
        NormalItemsAt(w.items);
        if |items| == |w.items| {
          forall i | 0 <= i < |items|
            ensures Same(items[i], w.items[i]) <==> NormalItems(items)[i] == NormalItems(w.items)[i]
          {
            NormalCharacterizesSame(items[i], w.items[i]);
          }
        }
      }
    case Obj(fields) =>
      if w.Obj? {
        forall f | f in fields && Lookup(w.fields, f.name).Some?
          ensures Same(f.value, Lookup(w.fields, f.name).value) <==>
                  Normal(f.value) == Normal(Lookup(w.fields, f.name).value)
        {
          LookupExactly(w.fields, f.name, Lookup(w.fields, f.name).value);
          NormalCharacterizesSame(f.value, Lookup(w.fields, f.name).value);
        }
        ObjectsMatch(fields, w.fields);
      }
    case _ =>
  }

  /** Every defined field of either side has its equal on the other. */
  ghost predicate FieldsMatch(fields: seq<Field>, others: seq<Field>) {
    && (forall f :: f in fields && !f.value.Undefined? ==>
          Lookup(others, f.name).Some? && Normal(f.value) == Normal(Lookup(others, f.name).value))
    && (forall g :: g in others && !g.value.Undefined? ==> Lookup(fields, g.name).Some?)
  }

  /** The normal fields of an object, seen through property access. */
  predicate IsNormalOf(x: Field, fields: seq<Field>) {
    Lookup(fields, x.name).Some? && x.value == Normal(Lookup(fields, x.name).value)
  }

  lemma NormalEntriesAscend(fields: seq<Field>)
    requires DistinctKeys(NameOf, fields)
    ensures Ascending(NameOf, NormalFields(Entries(fields)))
    ensures forall x :: x in NormalFields(Entries(fields)) <==> IsNormalOf(x, fields)
  {
    var kept := Entries(fields);
    EntriesExactly(fields);
    NormalNames(kept);
    var normal := NormalFields(kept);
    forall i, j | 0 <= i < j < |normal| ensures Less(NameOf(normal[i]), NameOf(normal[j])) {
      assert Less(NameOf(kept[i]), NameOf(kept[j]));
    }
    forall x | x in normal ensures IsNormalOf(x, fields) {
      var i :| 0 <= i < |normal| && normal[i] == x;
      assert kept[i] in kept;
      LookupExactly(fields, kept[i].name, kept[i].value);
    }
    forall x | IsNormalOf(x, fields) ensures x in normal {
      var value := Lookup(fields, x.name).value;
      LookupExactly(fields, x.name, value);
      assert Field(x.name, value) in kept;
      var i :| 0 <= i < |kept| && kept[i] == Field(x.name, value);
      assert normal[i] == x;
    }
  }

  lemma MatchingNormalizeAlike(fields: seq<Field>, others: seq<Field>, x: Field)
    requires DistinctKeys(NameOf, fields) && DistinctKeys(NameOf, others) && FieldsMatch(fields, others)
    ensures IsNormalOf(x, fields) <==> IsNormalOf(x, others)
  {
    if Lookup(others, x.name).Some? {
      LookupExactly(others, x.name, Lookup(others, x.name).value);
    }
    if Lookup(fields, x.name).Some? {
      LookupExactly(fields, x.name, Lookup(fields, x.name).value);
    }
  }

  /** Two objects have the same normal fields exactly when every defined field has its equal. */
  lemma ObjectsMatch(fields: seq<Field>, others: seq<Field>)
    requires DistinctKeys(NameOf, fields) && DistinctKeys(NameOf, others)
    ensures FieldsMatch(fields, others) <==> NormalFields(Entries(fields)) == NormalFields(Entries(others))
  {
    var a, b := NormalFields(Entries(fields)), NormalFields(Entries(others));
    NormalEntriesAscend(fields);
    NormalEntriesAscend(others);
    if FieldsMatch(fields, others) {
      forall x ensures x in a <==> x in b {
        MatchingNormalizeAlike(fields, others, x);
      }
      AscendingUnique(NameOf, a, b);
    }
    if a == b {
      forall f | f in fields && !f.value.Undefined?
        ensures Lookup(others, f.name).Some? && Normal(f.value) == Normal(Lookup(others, f.name).value)
      {
        LookupExactly(fields, f.name, f.value);
        assert Field(f.name, Normal(f.value)) in b;
      }
      forall g | g in others && !g.value.Undefined? ensures Lookup(fields, g.name).Some? {
        LookupExactly(others, g.name, g.value);
        assert Field(g.name, Normal(g.value)) in a;
      }
    }
  }

  // ---- Main results ---------------------------------------------------------------------------------------

  /** Two printable values print alike exactly when they are equal up to key order and undefined fields. */
  lemma PrintsAlikeExactly(v: Json, w: Json)
    requires Valid(v) && Valid(w) && Print(v).Some? && Print(w).Some?
    ensures Print(v) == Print(w) <==> Same(v, w)
  {
    NormalCharacterizesSame(v, w);
    PrintNormal(v);
    PrintNormal(w);
    ParsePrinted(v, []);
    ParsePrinted(w, []);
    assert Print(v).value + [] == Print(v).value;
    assert Print(w).value + [] == Print(w).value;
  }

  lemma {:induction false} PrintWellFormed(v: Json)
    requires Valid(v) && Print(v).Some?
    ensures WellFormed(Print(v).value)
    decreases Size(v), 0
  {
    match v
    case Null => PlainWellFormed(NULL);
    case Bool(b) => PlainWellFormed(Print(v).value);
    case Num(n) => PlainWellFormed(NumberText(n));
    case Str(s) => QuoteWellFormed(s);
    case Arr(items) =>
      ItemsWellFormed(items);
      BracketWellFormed(91, PrintItems(items).value, 93);
    case Obj(fields) =>
      SizeEntries(fields);
      EntriesValid(fields);
      FieldsWellFormed(Entries(fields));
      BracketWellFormed(123, PrintFields(Entries(fields)).value, 125);
  }

  lemma BracketWellFormed(open: CodeUnit, body: Text, close: CodeUnit)
    requires WellFormed(body) && open < 128 && close < 128
    ensures WellFormed([open] + body + [close])
  {
    PlainWellFormed([open]);
    PlainWellFormed([close]);
    WellFormedConcat([open], body);
    WellFormedConcat([open] + body, [close]);
  }

  lemma {:induction false} ItemsWellFormed(items: seq<Json>)
    requires PrintItems(items).Some? && forall i :: 0 <= i < |items| ==> Valid(items[i])
    ensures WellFormed(PrintItems(items).value)
    decreases SizeItems(items), 1
  {
    if items != [] {
      PrintWellFormed(items[0]);
      ItemsWellFormed(items[1..]);
      PlainWellFormed([44]);
      WellFormedConcat(Print(items[0]).value, [44]);
      WellFormedConcat(Print(items[0]).value + [44], PrintItems(items[1..]).value);
    }
  }

  lemma {:induction false} FieldsWellFormed(fields: seq<Field>)
    requires PrintFields(fields).Some? && ValidFields(fields)
    ensures WellFormed(PrintFields(fields).value)
    decreases SizeFields(fields), 1
  {
    if fields != [] {
      PrintWellFormed(fields[0].value);
      FieldsWellFormed(fields[1..]);
      QuoteWellFormed(fields[0].name);
      PlainWellFormed([58]);
      PlainWellFormed([44]);
      var member := Quote(fields[0].name) + [58] + Print(fields[0].value).value;
      WellFormedConcat(Quote(fields[0].name), [58]);
      WellFormedConcat(Quote(fields[0].name) + [58], Print(fields[0].value).value);
      WellFormedConcat(member, [44]);
      WellFormedConcat(member + [44], PrintFields(fields[1..]).value);
    }
  }

  // ---- The printed texts, literally ---------------------------------------------------------------------

  /** The texts one after the other, with a comma between. */
  function Commas(texts: seq<Text>): Text {
    if texts == [] then [] else if |texts| == 1 then texts[0] else texts[0] + [44] + Commas(texts[1..])
  }

  lemma {:induction false} ItemsAre(items: seq<Json>, texts: seq<Text>)
    requires |texts| == |items| && forall i :: 0 <= i < |items| ==> Print(items[i]) == Some(texts[i])
    ensures PrintItems(items) == Some(Commas(texts))
  {
    if items != [] { ItemsAre(items[1..], texts[1..]); }
  }

  lemma {:induction false} MembersAre(fields: seq<Field>, texts: seq<Text>)
    requires |texts| == |fields|
    requires forall i :: 0 <= i < |fields| ==>
               && Print(fields[i].value).Some?
               && texts[i] == Quote(fields[i].name) + [58] + Print(fields[i].value).value
    ensures PrintFields(fields) == Some(Commas(texts))
  {
    if fields != [] { MembersAre(fields[1..], texts[1..]); }
  }

  /** `null`, `true`, `false`, the tokens of numbers, `null` and `0` for those that have none, and a string's escaped
      units between quotes; undefined has no text. */
  lemma ScalarsPrint(token: Text, s: Text)
    ensures Print(Null) == Some([110, 117, 108, 108])
    ensures Print(Bool(true)) == Some([116, 114, 117, 101]) && Print(Bool(false)) == Some([102, 97, 108, 115, 101])
    ensures Print(Num(Finite(token))) == Some(token)
    ensures Print(Num(NonFinite)) == Some([110, 117, 108, 108]) && Print(Num(NegativeZero)) == Some([48])
    ensures Print(Str(s)) == Some([34] + QuoteBody(s) + [34])
    ensures Print(Undefined) == None
  {}

  /** An array is its items with commas between brackets. */
  lemma ArrayPrints(items: seq<Json>, texts: seq<Text>)
    requires |texts| == |items| && forall i :: 0 <= i < |items| ==> Print(items[i]) == Some(texts[i])
    ensures Print(Arr(items)) == Some([91] + Commas(texts) + [93])
  {
    ItemsAre(items, texts);
  }

  /** An object is its defined members, in key order, each its quoted name, a colon and its value, with commas between
      braces. */
  lemma ObjectPrints(fields: seq<Field>, texts: seq<Text>)
    requires |texts| == |Entries(fields)|
    requires forall i :: 0 <= i < |texts| ==>
               && Print(Entries(fields)[i].value).Some?
               && texts[i] == Quote(Entries(fields)[i].name) + [58] + Print(Entries(fields)[i].value).value
    ensures Print(Obj(fields)) == Some([123] + Commas(texts) + [125])
  {
    MembersAre(Entries(fields), texts);
  }

  /** `digestCanonicalJson` hashes the printed text and a line feed. */
  ghost function Digest<H>(sha: Text -> H, v: Json): H
    requires Print(v).Some?
  {
    sha(Print(v).value + [10])
  }

  lemma LineEndsAlike(a: Text, b: Text)
    ensures a + [10] == b + [10] <==> a == b
  {
    assert (a + [10])[..|a|] == a && (b + [10])[..|b|] == b;
  }

  /** With a hash that separates well-formed texts, equal digests mean equal content. */
  lemma DigestsAgreeExactly<H>(sha: Text -> H, v: Json, w: Json)
    requires forall a, b :: WellFormed(a) && WellFormed(b) && sha(a) == sha(b) ==> a == b
    requires Valid(v) && Valid(w) && Print(v).Some? && Print(w).Some?
    ensures Digest(sha, v) == sha(Print(v).value + [10])
    ensures Digest(sha, v) == Digest(sha, w) <==> Same(v, w)
  {
    PrintsAlikeExactly(v, w);
    PrintWellFormed(v);
    PrintWellFormed(w);
    PlainWellFormed([10]);
    WellFormedConcat(Print(v).value, [10]);
    WellFormedConcat(Print(w).value, [10]);
    LineEndsAlike(Print(v).value, Print(w).value);
  }
}
