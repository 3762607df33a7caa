/** The checks that accept an outbox by its length and by the rows filtered per registration or submission. */
module ReturningEffects {
  import opened Counting
  import opened Decimal

  type Command = string

  /** The columns of an outbox row that the check reads. */
  datatype Row = Row(command: Command, ordinal: int, effectType: string, origin: string)

  const EFFECT_TYPES: seq<string> :=
    ["SendApplicantActivationOrConfirmation", "CreateAdmissionSubscription", "WriteApplicationAudit"]

  const ORDINALS: seq<string> := ["0", "1", "2"]

  const ORIGIN := "ReturningAssistant"

  function CommandOf(row: Row): Command { row.command }
  function TypeOf(row: Row): string { row.effectType }
  function OrdinalText(row: Row): string { Show(row.ordinal) }

  function Join(texts: seq<string>): string {
    if texts == [] then "" else if |texts| == 1 then texts[0] else texts[0] + "," + Join(texts[1..])
  }

  function Texts(rows: seq<Row>, text: Row -> string): seq<string> {
    if rows == [] then [] else [text(rows[0])] + Texts(rows[1..], text)
  }

  function InsertByOrdinal(row: Row, sorted: seq<Row>): seq<Row> {
    if sorted == [] || row.ordinal < sorted[0].ordinal then [row] + sorted
    else [sorted[0]] + InsertByOrdinal(row, sorted[1..])
  }

  /** Stable, as the rows were given. */
  function SortByOrdinal(rows: seq<Row>): seq<Row> {
    if rows == [] then [] else InsertByOrdinal(rows[|rows| - 1], SortByOrdinal(rows[..|rows| - 1]))
  }

  predicate CompleteFor(rows: seq<Row>, command: Command) {
    var commandRows := SortByOrdinal(Filter(rows, CommandOf, command));
    && |commandRows| == |EFFECT_TYPES|
    && Join(Texts(commandRows, OrdinalText)) == "0,1,2"
    && Join(Texts(commandRows, TypeOf)) == Join(EFFECT_TYPES)
  }

  predicate HasExactReturningEffects(rows: seq<Row>, registrations: seq<Command>) {
    && |rows| == |registrations| * |EFFECT_TYPES|
    && (forall i :: 0 <= i < |rows| ==> rows[i].origin == ORIGIN)
    && (forall i :: 0 <= i < |registrations| ==> CompleteFor(rows, registrations[i]))
  }

  /** The three rows of one registration. */
  function EffectsOf(command: Command): seq<Row> {
    [Row(command, 0, EFFECT_TYPES[0], ORIGIN), Row(command, 1, EFFECT_TYPES[1], ORIGIN),
     Row(command, 2, EFFECT_TYPES[2], ORIGIN)]
  }

  function AllEffects(registrations: seq<Command>): (lists: seq<seq<Row>>)
    ensures |lists| == |registrations| && forall i :: 0 <= i < |lists| ==> lists[i] == EffectsOf(registrations[i])
  {
    seq(|registrations|, i requires 0 <= i < |registrations| => EffectsOf(registrations[i]))
  }

  // ---- What the texts say -------------------------------------------------------------------------------

  lemma {:induction false} SortKeeps(rows: seq<Row>)
    ensures multiset(SortByOrdinal(rows)) == multiset(rows)
  {
    if rows != [] {
      var n := |rows| - 1;
      assert rows == rows[..n] + [rows[n]];
      SortKeeps(rows[..n]);
      InsertKeeps(rows[n], SortByOrdinal(rows[..n]));
    }
  }

  lemma {:induction false} InsertKeeps(row: Row, sorted: seq<Row>)
    ensures multiset(InsertByOrdinal(row, sorted)) == multiset(sorted) + multiset{row}
  {
    if sorted != [] && row.ordinal >= sorted[0].ordinal {
      assert sorted == [sorted[0]] + sorted[1..];
      InsertKeeps(row, sorted[1..]);
    }
  }

  ghost predicate Ascending(rows: seq<Row>) {
    forall i, j :: 0 <= i < j < |rows| ==> rows[i].ordinal <= rows[j].ordinal
  }

  ghost predicate AtLeast(rows: seq<Row>, ordinal: int) {
    forall i :: 0 <= i < |rows| ==> ordinal <= rows[i].ordinal
  }

  lemma {:induction false} InsertAtLeast(row: Row, sorted: seq<Row>, ordinal: int)
    requires AtLeast(sorted, ordinal) && ordinal <= row.ordinal
    ensures AtLeast(InsertByOrdinal(row, sorted), ordinal)
  {
    if sorted != [] { InsertAtLeast(row, sorted[1..], ordinal); }
  }

  lemma AscendingBehind(first: Row, rest: seq<Row>)
    requires Ascending(rest) && AtLeast(rest, first.ordinal)
    ensures Ascending([first] + rest)
  {}

  lemma {:induction false} InsertAscends(row: Row, sorted: seq<Row>)
    requires Ascending(sorted)
    ensures Ascending(InsertByOrdinal(row, sorted))
  {
    if sorted == [] {
    } else if row.ordinal < sorted[0].ordinal {
      AscendingBehind(row, sorted);
    } else {
      InsertAscends(row, sorted[1..]);
      InsertAtLeast(row, sorted[1..], sorted[0].ordinal);
      AscendingBehind(sorted[0], InsertByOrdinal(row, sorted[1..]));
    }
  }

  lemma {:induction false} SortAscends(rows: seq<Row>)
    ensures Ascending(SortByOrdinal(rows))
  {
    if rows != [] {
      SortAscends(rows[..|rows| - 1]);
      InsertAscends(rows[|rows| - 1], SortByOrdinal(rows[..|rows| - 1]));
    }
  }

  function Commas(text: string): nat { multiset(text)[','] }

  lemma CommaJoin(a: string, rest: string)
    ensures Commas(a + "," + rest) == Commas(a) + 1 + Commas(rest)
  {
    assert multiset(a + "," + rest) == multiset(a) + multiset{','} + multiset(rest);
  }

  /** Three texts joined into a text with two commas have none themselves, so they are its three parts. */
  lemma JoinThree(a: string, b: string, c: string, x: string, y: string, z: string)
    requires ',' !in x && ',' !in y && ',' !in z
    requires a + "," + (b + "," + c) == x + "," + (y + "," + z)
    ensures a == x && b == y && c == z
  {
    CommaJoin(a, b + "," + c);
    CommaJoin(b, c);
    CommaJoin(x, y + "," + z);
    CommaJoin(y, z);
    assert Commas(a) + Commas(b) + Commas(c) == 0;
    FirstPart(a, b + "," + c, x, y + "," + z);
    FirstPart(b, c, y, z);
  }

  lemma FirstPart(a: string, rest: string, x: string, others: string)
    requires ',' !in a && ',' !in x && a + "," + rest == x + "," + others
    ensures a == x && rest == others
  {
    var left, right := a + "," + rest, x + "," + others;
    assert left[|a|] == ',' && right[|x|] == ',';
    assert forall k :: 0 <= k < |a| ==> left[k] == a[k] != ',';
    assert forall k :: 0 <= k < |x| ==> right[k] == x[k] != ',';
    assert |a| == |x|;
    assert left[..|a|] == a && right[..|x|] == x;
    assert left[|a| + 1..] == rest && right[|x| + 1..] == others;
  }

  lemma JoinOfThree(texts: seq<string>)
    requires |texts| == 3
    ensures Join(texts) == texts[0] + "," + (texts[1] + "," + texts[2])
  {
    assert texts[1..][1..] == [texts[2]];
    assert Join(texts[1..]) == texts[1] + "," + Join([texts[2]]) == texts[1] + "," + texts[2];
    assert texts[0] + "," + (texts[1] + "," + texts[2]) == texts[0] + "," + Join(texts[1..]);
  }

  lemma {:induction false} TextsAt(rows: seq<Row>, text: Row -> string)
    ensures |Texts(rows, text)| == |rows|
    ensures forall i :: 0 <= i < |rows| ==> Texts(rows, text)[i] == text(rows[i])
  {
    if rows != [] { TextsAt(rows[1..], text); }
  }

  /** Two lists of three texts, the second without commas, join alike exactly when they are equal. */
  lemma JoinsAlike(texts: seq<string>, expected: seq<string>)
    requires |texts| == 3 && |expected| == 3
    requires ',' !in expected[0] && ',' !in expected[1] && ',' !in expected[2]
    ensures Join(texts) == Join(expected) <==>
              texts[0] == expected[0] && texts[1] == expected[1] && texts[2] == expected[2]
  {
    JoinOfThree(texts);
    JoinOfThree(expected);
    if Join(texts) == Join(expected) {
      JoinThree(texts[0], texts[1], texts[2], expected[0], expected[1], expected[2]);
    }
  }

  lemma JoinOrdinals()
    ensures Join(ORDINALS) == "0,1,2"
    ensures ORDINALS[0] == [Digit(0)] && ORDINALS[1] == [Digit(1)] && ORDINALS[2] == [Digit(2)]
  {
    JoinOfThree(ORDINALS);
    assert "0,1,2" == "0" + "," + ("1" + "," + "2");
  }

  lemma NoCommas()
    ensures ',' !in EFFECT_TYPES[0] && ',' !in EFFECT_TYPES[1] && ',' !in EFFECT_TYPES[2]
  {}

  /** The two joined texts say of three rows exactly their ordinals and types. */
  lemma OrdinalsSay(rows: seq<Row>, expected: seq<string>)
    requires |rows| == 3 && |expected| == 3
    requires expected[0] == [Digit(0)] && expected[1] == [Digit(1)] && expected[2] == [Digit(2)]
    ensures Join(Texts(rows, OrdinalText)) == Join(expected) <==>
              rows[0].ordinal == 0 && rows[1].ordinal == 1 && rows[2].ordinal == 2
  {
    TextsAt(rows, OrdinalText);
    ShowsSmall(rows[0].ordinal, 0);
    ShowsSmall(rows[1].ordinal, 1);
    ShowsSmall(rows[2].ordinal, 2);
    JoinsAlike(Texts(rows, OrdinalText), expected);
  }

  lemma TypesSay(rows: seq<Row>, expected: seq<string>)
    requires |rows| == 3 && |expected| == 3
    requires ',' !in expected[0] && ',' !in expected[1] && ',' !in expected[2]
    ensures Join(Texts(rows, TypeOf)) == Join(expected) <==>
              && rows[0].effectType == expected[0] && rows[1].effectType == expected[1]
              && rows[2].effectType == expected[2]
  {
    TextsAt(rows, TypeOf);
    JoinsAlike(Texts(rows, TypeOf), expected);
  }

  // ---- What acceptance means ----------------------------------------------------------------------------------

  lemma SortedMatches(sorted: seq<Row>, command: Command, types: seq<string>, ordinals: seq<string>)
    requires |sorted| == 3 && forall i :: 0 <= i < 3 ==> sorted[i].command == command && sorted[i].origin == ORIGIN
    requires |types| == 3 && ',' !in types[0] && ',' !in types[1] && ',' !in types[2]
    requires |ordinals| == 3 && ordinals[0] == [Digit(0)] && ordinals[1] == [Digit(1)] && ordinals[2] == [Digit(2)]
    ensures Join(Texts(sorted, OrdinalText)) == Join(ordinals) && Join(Texts(sorted, TypeOf)) == Join(types)
       <==> sorted == [Row(command, 0, types[0], ORIGIN), Row(command, 1, types[1], ORIGIN),
                       Row(command, 2, types[2], ORIGIN)]
  {
    OrdinalsSay(sorted, ordinals);
    TypesSay(sorted, types);
  }

  /** Three sorted rows of one registration have the two texts exactly when they are its effects. */
  lemma SortedExactly(sorted: seq<Row>, command: Command)
    requires |sorted| == 3
    requires forall i :: 0 <= i < 3 ==> sorted[i].command == command && sorted[i].origin == ORIGIN
    ensures Join(Texts(sorted, OrdinalText)) == "0,1,2" && Join(Texts(sorted, TypeOf)) == Join(EFFECT_TYPES)
       <==> sorted == EffectsOf(command)
  {
    JoinOrdinals();
    NoCommas();
    SortedMatches(sorted, command, EFFECT_TYPES, ORDINALS);
  }

  /** Under one registration the check accepts exactly its three rows, in whatever order they were read. */
  lemma CompleteExactly(rows: seq<Row>, command: Command)
    requires forall i :: 0 <= i < |rows| ==> rows[i].origin == ORIGIN
    ensures CompleteFor(rows, command) <==> multiset(Filter(rows, CommandOf, command)) == multiset(EffectsOf(command))
  {
    var found := Filter(rows, CommandOf, command);
    var sorted := SortByOrdinal(found);
    SortKeeps(found);
    SortAscends(found);
    FoundRows(rows, command, sorted);
    assert |sorted| == |multiset(sorted)|;
    if |sorted| == 3 {
      SortedExactly(sorted, command);
      if multiset(sorted) == multiset(EffectsOf(command)) { AscendingThree(sorted, EffectsOf(command)); }
    } else {
      assert |multiset(EffectsOf(command))| == 3;
    }
  }

  lemma FoundRows(rows: seq<Row>, command: Command, sorted: seq<Row>)
    requires forall i :: 0 <= i < |rows| ==> rows[i].origin == ORIGIN
    requires multiset(sorted) == multiset(Filter(rows, CommandOf, command))
    ensures forall i :: 0 <= i < |sorted| ==> sorted[i].command == command && sorted[i].origin == ORIGIN
  {
    forall i | 0 <= i < |sorted| ensures sorted[i].command == command && sorted[i].origin == ORIGIN {
      FilterKeeps(rows, CommandOf, command, sorted[i]);
      assert sorted[i] in multiset(sorted);
      assert sorted[i] in multiset(rows);
    }
  }

  /** Rows with ordinals 0, 1, 2 have only one ascending order. */
  lemma AscendingThree(sorted: seq<Row>, expected: seq<Row>)
    requires |sorted| == 3 && Ascending(sorted) && multiset(sorted) == multiset(expected)
    requires |expected| == 3 && expected[0].ordinal == 0 && expected[1].ordinal == 1 && expected[2].ordinal == 2
    ensures sorted == expected
  {
    forall i | 0 <= i < 3 ensures sorted[i] in expected && expected[i] in sorted {
      assert sorted[i] in multiset(sorted) && expected[i] in multiset(expected);
    }
  }

  lemma EffectsExpected(registrations: seq<Command>)
    requires Distinct(registrations)
    ensures Expected(registrations, AllEffects(registrations), CommandOf, 3)
  {}

  /** Every registration finds its effects, row by row or list by list. */
  lemma CompleteForAll(rows: seq<Row>, registrations: seq<Command>)
    requires forall i :: 0 <= i < |rows| ==> rows[i].origin == ORIGIN
    ensures (forall i :: 0 <= i < |registrations| ==> CompleteFor(rows, registrations[i]))
       <==> FindsEach(rows, registrations, AllEffects(registrations))
  {
    var lists := AllEffects(registrations);
    forall i | 0 <= i < |registrations|
      ensures CompleteFor(rows, registrations[i]) <==>
                multiset(Filter(rows, CommandOf, registrations[i])) == multiset(lists[i])
    {
      CompleteExactly(rows, registrations[i]);
    }
  }

  ghost predicate FindsEach(rows: seq<Row>, registrations: seq<Command>, lists: seq<seq<Row>>)
    requires |lists| == |registrations|
  {
    forall i :: 0 <= i < |registrations| ==>
      multiset(Filter(rows, CommandOf, registrations[i])) == multiset(lists[i])
  }

  ghost predicate Origins(rows: seq<Row>) { forall i :: 0 <= i < |rows| ==> rows[i].origin == ORIGIN }

  /** The check says of the rows their number, their origin, and what each registration finds. */
  lemma AcceptsRows(rows: seq<Row>, registrations: seq<Command>)
    ensures HasExactReturningEffects(rows, registrations)
       <==> |rows| == 3 * |registrations| && Origins(rows) && FindsEach(rows, registrations, AllEffects(registrations))
  {
    if Origins(rows) { CompleteForAll(rows, registrations); }
  }

  /** With distinct registrations the check accepts exactly when the rows are, in some order, the three rows
      of every registration and no other row. */
  lemma AcceptsExactly(rows: seq<Row>, registrations: seq<Command>)
    requires Distinct(registrations)
    ensures HasExactReturningEffects(rows, registrations) <==>
            multiset(rows) == multiset(Concat(AllEffects(registrations)))
  {
    AcceptsRows(rows, registrations);
    EffectsExpected(registrations);
    ExactlyExpected(rows, registrations, AllEffects(registrations), CommandOf, 3);
    if multiset(rows) == multiset(Concat(AllEffects(registrations))) { OriginsOf(rows, registrations); }
  }

  lemma {:induction false} ConcatOrigins(registrations: seq<Command>, n: nat)
    requires n <= |registrations|
    ensures forall row :: row in Concat(AllEffects(registrations)[..n]) ==> row.origin == ORIGIN
  {
    if n > 0 {
      assert AllEffects(registrations)[..n][..n - 1] == AllEffects(registrations)[..n - 1];
      ConcatOrigins(registrations, n - 1);
    }
  }

  lemma OriginsOf(rows: seq<Row>, registrations: seq<Command>)
    requires multiset(rows) == multiset(Concat(AllEffects(registrations)))
    ensures Origins(rows)
  {
    ConcatOrigins(registrations, |registrations|);
    assert AllEffects(registrations)[..|registrations|] == AllEffects(registrations);
    forall i | 0 <= i < |rows| ensures rows[i].origin == ORIGIN { assert rows[i] in multiset(rows); }
  }

  lemma EffectOnce(command: Command, row: Row)
    ensures multiset(EffectsOf(command))[row] == if row in EffectsOf(command) then 1 else 0
  {
    var e := EffectsOf(command);
    assert e[0].ordinal == 0 && e[1].ordinal == 1 && e[2].ordinal == 2;
    assert Distinct(e);
    DistinctCounts(e, row);
  }

  /** An accepted list has no stray exactly when no registration is listed twice. */
  lemma AcceptedStrays(rows: seq<Row>, registrations: seq<Command>)
    requires HasExactReturningEffects(rows, registrations)
    ensures AllUnder(rows, CommandOf, registrations) <==> Distinct(registrations)
  {
    forall i | 0 <= i < |registrations| ensures |Filter(rows, CommandOf, registrations[i])| == 3 {
      assert CompleteFor(rows, registrations[i]);
      var found := Filter(rows, CommandOf, registrations[i]);
      SortKeeps(found);
      assert |SortByOrdinal(found)| == |multiset(SortByOrdinal(found))| == |multiset(found)|;
    }
    StraysExactly(rows, registrations, CommandOf, 3);
  }

  /** Every accepted row belongs to one registration and is one of its three effects. */
  lemma EveryRowBelongs(rows: seq<Row>, registrations: seq<Command>, row: Row)
    requires Distinct(registrations) && HasExactReturningEffects(rows, registrations) && row in rows
    ensures row.command in registrations && row in EffectsOf(row.command) && multiset(rows)[row] == 1
  {
    AcceptedStrays(rows, registrations);
    var i :| 0 <= i < |registrations| && registrations[i] == row.command;
    AcceptsExactly(rows, registrations);
    EffectsExpected(registrations);
    ConcatCounts(registrations, AllEffects(registrations), CommandOf, 3, row);
    EffectOnce(row.command, row);
    assert row in multiset(rows);
  }

  /** The row with which the command activates the applicant or confirms, subscribes, or is audited. */
  ghost predicate Effect(row: Row, command: Command) {
    || row == Row(command, 0, "SendApplicantActivationOrConfirmation", "ReturningAssistant")
    || row == Row(command, 1, "CreateAdmissionSubscription", "ReturningAssistant")
    || row == Row(command, 2, "WriteApplicationAudit", "ReturningAssistant")
  }

  lemma EffectExactly(row: Row, command: Command)
    ensures row in EffectsOf(command) <==> Effect(row, command)
  {
    var effects := EffectsOf(command);
    assert effects[0] in effects && effects[1] in effects && effects[2] in effects;
  }

  /** As many rows as there are effects and each effect among them: then there is nothing else among them. */
  lemma AllThere<T>(rows: seq<T>, expected: seq<T>)
    requires |rows| == |expected| && Distinct(expected) && forall i :: 0 <= i < |expected| ==> expected[i] in rows
    ensures multiset(rows) == multiset(expected)
  {
    forall row ensures multiset(expected)[row] <= multiset(rows)[row] {
      DistinctCounts(expected, row);
      assert row in rows <==> row in multiset(rows);
    }
    var more := multiset(rows) - multiset(expected);
    assert multiset(rows) == multiset(expected) + more;
    assert |multiset(rows)| == |multiset(expected)| + |more|;
  }

  lemma EffectsDistinct(registrations: seq<Command>)
    requires Distinct(registrations)
    ensures Distinct(Concat(AllEffects(registrations)))
    ensures |Concat(AllEffects(registrations))| == 3 * |registrations|
  {
    var all := Concat(AllEffects(registrations));
    EffectsExpected(registrations);
    ConcatSize(AllEffects(registrations), 3);
    forall i, j | 0 <= i < j < |all| ensures all[i] != all[j] {
      ConcatCounts(registrations, AllEffects(registrations), CommandOf, 3, all[i]);
      EffectOnce(all[i].command, all[i]);
      Split(all, j);
      assert all[i] in all[..j];
    }
  }

  lemma AllHas(registrations: seq<Command>, row: Row)
    requires Distinct(registrations)
    ensures row in Concat(AllEffects(registrations)) <==> row.command in registrations && Effect(row, row.command)
  {
    var all := Concat(AllEffects(registrations));
    EffectsExpected(registrations);
    ConcatCounts(registrations, AllEffects(registrations), CommandOf, 3, row);
    EffectOnce(row.command, row);
    EffectExactly(row, row.command);
    assert row in all <==> row in multiset(all);
  }

  /** All three effects of each registration are among the rows. */
  ghost predicate HasEach(rows: seq<Row>, registrations: seq<Command>) {
    forall row: Row :: row.command in registrations && Effect(row, row.command) ==> row in rows
  }

  lemma HasEachThere(rows: seq<Row>, registrations: seq<Command>, all: seq<Row>)
    requires forall row: Row :: row in all <==> row.command in registrations && Effect(row, row.command)
    ensures HasEach(rows, registrations) <==> forall i :: 0 <= i < |all| ==> all[i] in rows
  {
    if HasEach(rows, registrations) {
      forall i | 0 <= i < |all| ensures all[i] in rows { assert all[i] in all; }
    }
  }

  /** The check accepts three rows for each registration, every one of its three effects among them, and nothing
      else. */
  lemma RowsExactly(rows: seq<Row>, registrations: seq<Command>)
    requires Distinct(registrations)
    ensures HasExactReturningEffects(rows, registrations)
       <==> |rows| == 3 * |registrations| && HasEach(rows, registrations)
  {
    var all := Concat(AllEffects(registrations));
    AcceptsExactly(rows, registrations);
    EffectsDistinct(registrations);
    forall row ensures row in all <==> row.command in registrations && Effect(row, row.command) {
      AllHas(registrations, row);
    }
    HasEachThere(rows, registrations, all);
    SameRows(rows, all);
  }

  lemma SameRows<T>(rows: seq<T>, all: seq<T>)
    requires Distinct(all)
    ensures multiset(rows) == multiset(all) <==> |rows| == |all| && forall i :: 0 <= i < |all| ==> all[i] in rows
  {
    if multiset(rows) == multiset(all) {
      assert |rows| == |multiset(rows)| == |all|;
      forall i | 0 <= i < |all| ensures all[i] in rows { assert all[i] in multiset(all); }
    }
    if |rows| == |all| && forall i :: 0 <= i < |all| ==> all[i] in rows { AllThere(rows, all); }
  }

  // ---- Why the registrations must differ ---------------------------------------------------------------------

  /** Three rows for each place in the list: the effects of the registration where it stands first, and strays
      where it stands again. */
  function Filled(registrations: seq<Command>, stray: Command): seq<Row> {
    if registrations == [] then []
    else
      var before, last := registrations[..|registrations| - 1], registrations[|registrations| - 1];
      Filled(before, stray) + EffectsOf(if last in before then stray else last)
  }

  lemma {:induction false} FilledRows(registrations: seq<Command>, stray: Command)
    ensures |Filled(registrations, stray)| == |registrations| * 3
    ensures forall i :: 0 <= i < |Filled(registrations, stray)| ==> Filled(registrations, stray)[i].origin == ORIGIN
  {
    if registrations != [] { FilledRows(registrations[..|registrations| - 1], stray); }
  }

  lemma {:induction false} FilledFor(registrations: seq<Command>, stray: Command, command: Command)
    requires command != stray
    ensures Filter(Filled(registrations, stray), CommandOf, command)
         == if command in registrations then EffectsOf(command) else []
  {
    if registrations != [] {
      var before, last := registrations[..|registrations| - 1], registrations[|registrations| - 1];
      var own := if last in before then stray else last;
      assert registrations == before + [last];
      FilledFor(before, stray, command);
      FilterAppend(Filled(before, stray), EffectsOf(own), CommandOf, command);
      FilterUniform(EffectsOf(own), CommandOf, command, own);
    }
  }

  /** Every list of registrations has rows that are accepted. */
  lemma FilledAccepted(registrations: seq<Command>, stray: Command)
    requires stray !in registrations
    ensures HasExactReturningEffects(Filled(registrations, stray), registrations)
  {
    var rows := Filled(registrations, stray);
    FilledRows(registrations, stray);
    forall i | 0 <= i < |registrations| ensures CompleteFor(rows, registrations[i]) {
      assert registrations[i] in registrations;
      FilledFor(registrations, stray, registrations[i]);
      CompleteExactly(rows, registrations[i]);
    }
  }

  /** A command longer than all of them. */
  function Longer(registrations: seq<Command>): Command {
    if registrations == [] then "x"
    else Longer(registrations[..|registrations| - 1]) + registrations[|registrations| - 1]
  }

  lemma {:induction false} LongerThanAll(registrations: seq<Command>)
    ensures |Longer(registrations)| > 0
    ensures forall i :: 0 <= i < |registrations| ==> |registrations[i]| < |Longer(registrations)|
  {
    if registrations != [] { LongerThanAll(registrations[..|registrations| - 1]); }
  }

  /** Acceptance rules out strays, whatever the rows, exactly when no registration is listed twice. As the command
      is the primary key of what is listed, it always does. */
  lemma NoStraysExactly(registrations: seq<Command>)
    ensures (forall rows :: HasExactReturningEffects(rows, registrations) ==> AllUnder(rows, CommandOf, registrations))
       <==> Distinct(registrations)
  {
    LongerThanAll(registrations);
    var rows := Filled(registrations, Longer(registrations));
    FilledAccepted(registrations, Longer(registrations));
    AcceptedStrays(rows, registrations);
    forall other | HasExactReturningEffects(other, registrations)
      ensures AllUnder(other, CommandOf, registrations) <==> Distinct(registrations)
    {
      AcceptedStrays(other, registrations);
    }
  }
}
