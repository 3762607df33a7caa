/** The projection of reviewed source rows into current assignments: its guards, its occurrences and the
    mappings that every reference resolves. */
module AssignmentProjection {
  import opened Counting
  import opened Decimal
  import opened Options

  /** A row of the source's assignment history; texts that may be unknown stay as they are. */
  datatype SourceRow = SourceRow(
    id: int,
    user: Option<int>,
    department: Option<int>,
    semester: Option<int>,
    school: Option<int>,
    bolk: Option<string>,
    day: Option<string>,
    workdays: Option<string>)

  datatype Workdays = NoWorkdays | Number(count: int) | Text(text: string)

  datatype Row = Row(
    assignment: string,
    user: Option<string>,
    department: Option<string>,
    semester: string,
    school: Option<string>,
    active: bool,
    affiliation: string,
    placement: string,
    day: Option<string>,
    block: Option<string>,
    workdays: Workdays)

  /** Digests as the values they are taken of: different values have different digests. */
  datatype Digest = OfSource(source: SourceRow) | OfRow(row: Row) | OtherDigest(name: nat)

  datatype Entry = Entry(
    assignment: string,
    sourceRowDigest: Digest,
    active: bool,
    bothBlocksShareDay: Option<bool>,
    affiliation: string,
    placement: string)

  datatype Occurrence = Occurrence(id: string, row: Row, digest: Digest)

  datatype Mapping = Mapping(
    assignment: string,
    user: string,
    department: string,
    semester: string,
    school: string,
    person: string,
    departmentId: string,
    semesterId: string,
    schoolId: string)

  /** An occurrence of a person in the person snapshot, and the user its row names. */
  datatype PersonOccurrence = PersonOccurrence(id: string, user: string)

  datatype Input = Input(
    history: seq<SourceRow>,
    sourceSemester: string,
    assignments: seq<Entry>,
    reviewMatches: bool,
    dateInside: bool,
    personMatches: bool,
    /** The occurrence ids the person report disposed of as accepted. */
    accepted: seq<string>,
    personOccurrences: seq<PersonOccurrence>,
    personMappings: seq<(string, string)>,
    departments: seq<(string, string)>,
    semesters: seq<(string, string)>,
    schools: seq<(string, string)>)

  datatype Error = ReviewMismatch | DateOutside | NotCovered | PersonMismatch | ChangedRow | Unconfirmed | MissingEntry

  datatype Result<T> = Ok(value: T) | Throws(error: Error)

  datatype Projection = Projection(occurrences: seq<Occurrence>, mappings: seq<Mapping>)

  // ---- Maps from lists: the last pair under a key wins -----------------------------------------------------

  function FromPairs<V>(pairs: seq<(string, V)>): map<string, V> {
    if pairs == [] then map[] else FromPairs(pairs[..|pairs| - 1])[pairs[|pairs| - 1].0 := pairs[|pairs| - 1].1]
  }

  /** Place `i` holds the last pair under this key. */
  ghost predicate LastUnder<V>(pairs: seq<(string, V)>, key: string, i: nat) {
    i < |pairs| && pairs[i].0 == key && forall k :: i < k < |pairs| ==> pairs[k].0 != key
  }

  /** What is found under a key is what it was paired with last. */
  lemma {:induction false} LastPairFound<V>(pairs: seq<(string, V)>, key: string, i: nat)
    requires LastUnder(pairs, key, i)
    ensures key in FromPairs(pairs) && FromPairs(pairs)[key] == pairs[i].1
  {
    if i < |pairs| - 1 { LastPairFound(pairs[..|pairs| - 1], key, i); }
  }

  /** What is found under a key was paired with it; a key is found exactly when it has a pair. */
  lemma {:induction false} PairsFound<V>(pairs: seq<(string, V)>, key: string)
    ensures key in FromPairs(pairs) <==> exists i :: 0 <= i < |pairs| && pairs[i].0 == key
    ensures key in FromPairs(pairs) ==> (key, FromPairs(pairs)[key]) in pairs
  {
    if pairs != [] {
      var n := |pairs| - 1;
      PairsFound(pairs[..n], key);
      if pairs[n].0 != key && key in FromPairs(pairs[..n]) {
        var i :| 0 <= i < n && pairs[..n][i] == (key, FromPairs(pairs[..n])[key]);
        assert pairs[i].0 == key;
      }
      if i :| 0 <= i < n && pairs[i].0 == key { assert pairs[..n][i].0 == key; }
    }
  }

  /** The distinct elements of a list. */
  function ToSet(keys: seq<string>): set<string> { set i | 0 <= i < |keys| :: keys[i] }

  lemma ToSetHas(keys: seq<string>, key: string)
    ensures key in ToSet(keys) <==> key in keys
  {
    if key in keys { var i :| 0 <= i < |keys| && keys[i] == key; }
  }

  /** As many elements in the set as in the list: the list repeats none. */
  lemma {:induction false} SizeSaysDistinct(keys: seq<string>)
    ensures |ToSet(keys)| <= |keys|
    ensures |ToSet(keys)| == |keys| <==> Distinct(keys)
  {
    if keys != [] {
      var n := |keys| - 1;
      var before := ToSet(keys[..n]);
      SizeSaysDistinct(keys[..n]);
      AppendDistinct(keys[..n], [keys[n]]);
      assert keys == keys[..n] + [keys[n]];
      forall key ensures key in ToSet(keys) <==> key in before + {keys[n]} {
        ToSetHas(keys, key);
        ToSetHas(keys[..n], key);
      }
      assert ToSet(keys) == before + {keys[n]};
      ToSetHas(keys[..n], keys[n]);
      if keys[n] in before { assert before + {keys[n]} == before; }
    }
  }

  // ---- The selection and its guards ------------------------------------------------------------------------

  function AssignmentId(row: SourceRow): string { "legacy-history:" + Show(row.id) }

  predicate InSemester(row: SourceRow, sourceSemester: string) {
    row.semester.Some? && "legacy-semester:" + Show(row.semester.value) == sourceSemester
  }

  function Selected(history: seq<SourceRow>, sourceSemester: string): seq<SourceRow> {
    if history == [] then []
    else
      var before := Selected(history[..|history| - 1], sourceSemester);
      var last := history[|history| - 1];
      if InSemester(last, sourceSemester) then before + [last] else before
  }

  /** `places[k]` is where selected row `k` stands in the history. */
  ghost predicate SelectedAt(
      history: seq<SourceRow>, sourceSemester: string, selected: seq<SourceRow>, places: seq<nat>)
  {
    && |places| == |selected|
    && (forall k :: 0 <= k < |places| ==> places[k] < |history| && selected[k] == history[places[k]])
    && (forall j, k :: 0 <= j < k < |places| ==> places[j] < places[k])
    && (forall i :: 0 <= i < |history| ==>
          (i in places <==>
             && history[i].semester.Some?
             && "legacy-semester:" + Show(history[i].semester.value) == sourceSemester))
  }

  lemma SelectedNext(
      before: seq<SourceRow>, last: SourceRow, sourceSemester: string, selected: seq<SourceRow>, places: seq<nat>)
    requires SelectedAt(before, sourceSemester, selected, places)
    ensures if InSemester(last, sourceSemester)
            then SelectedAt(before + [last], sourceSemester, selected + [last], places + [|before|])
            else SelectedAt(before + [last], sourceSemester, selected, places)
  {
    var all := before + [last];
    assert forall i :: 0 <= i < |before| ==> all[i] == before[i];
    assert forall i :: i in places + [|before|] <==> i in places || i == |before|;
  }

  /** The selection is the rows of the semester, all of them, in the order of the history. */
  lemma {:induction false} SelectedExactly(history: seq<SourceRow>, sourceSemester: string) returns (places: seq<nat>)
    ensures SelectedAt(history, sourceSemester, Selected(history, sourceSemester), places)
  {
    if history == [] {
      places := [];
    } else {
      var n := |history| - 1;
      var before := SelectedExactly(history[..n], sourceSemester);
      SelectedNext(history[..n], history[n], sourceSemester, Selected(history[..n], sourceSemester), before);
      assert history == history[..n] + [history[n]];
      places := if InSemester(history[n], sourceSemester) then before + [n] else before;
    }
  }

  function Ids(rows: seq<SourceRow>): (ids: seq<string>)
    ensures |ids| == |rows| && forall i :: 0 <= i < |rows| ==> ids[i] == AssignmentId(rows[i])
  {
    seq(|rows|, i requires 0 <= i < |rows| => AssignmentId(rows[i]))
  }

  function EntryIds(entries: seq<Entry>): (ids: seq<string>)
    ensures |ids| == |entries| && forall i :: 0 <= i < |entries| ==> ids[i] == entries[i].assignment
  {
    seq(|entries|, i requires 0 <= i < |entries| => entries[i].assignment)
  }

  function EntryPairs(entries: seq<Entry>): (pairs: seq<(string, Entry)>)
    ensures |pairs| == |entries| && forall i :: 0 <= i < |entries| ==> pairs[i] == (entries[i].assignment, entries[i])
  {
    seq(|entries|, i requires 0 <= i < |entries| => (entries[i].assignment, entries[i]))
  }

  /** The five tests, as sizes and memberships. */
  predicate Covers(selected: seq<SourceRow>, assignments: seq<Entry>) {
    var selectedIds := ToSet(Ids(selected));
    var entries := FromPairs(EntryPairs(assignments));
    && selected != []
    && |selectedIds| == |selected|
    && |entries| == |assignments|
    && |entries| == |selectedIds|
    && forall i :: 0 <= i < |assignments| ==> assignments[i].assignment in selectedIds
  }

  /** Each selected row has its own entry, and each entry its own row. */
  ghost predicate OneToOne(selected: seq<SourceRow>, assignments: seq<Entry>) {
    && |selected| == |assignments|
    && (forall i, j :: 0 <= i < j < |selected| ==> selected[i].id != selected[j].id)
    && Distinct(EntryIds(assignments))
    && (forall i :: 0 <= i < |selected| ==> AssignmentId(selected[i]) in EntryIds(assignments))
    && (forall i :: 0 <= i < |assignments| ==> assignments[i].assignment in Ids(selected))
  }

  lemma IdsDistinct(rows: seq<SourceRow>)
    ensures Distinct(Ids(rows)) <==> forall i, j :: 0 <= i < j < |rows| ==> rows[i].id != rows[j].id
  {
    if forall i, j :: 0 <= i < j < |rows| ==> rows[i].id != rows[j].id {
      forall i, j | 0 <= i < j < |rows| ensures Ids(rows)[i] != Ids(rows)[j] { SameId(rows[i], rows[j]); }
    }
    if Distinct(Ids(rows)) {
      forall i, j | 0 <= i < j < |rows| ensures rows[i].id != rows[j].id { assert Ids(rows)[i] != Ids(rows)[j]; }
    }
  }

  lemma SameId(a: SourceRow, b: SourceRow)
    ensures AssignmentId(a) == AssignmentId(b) <==> a.id == b.id
  {
    if AssignmentId(a) == AssignmentId(b) {
      var prefix := "legacy-history:";
      assert AssignmentId(a)[|prefix|..] == Show(a.id) && AssignmentId(b)[|prefix|..] == Show(b.id);
      ShowInjective(a.id, b.id);
    }
  }

  lemma EntryKeys(assignments: seq<Entry>)
    ensures FromPairs(EntryPairs(assignments)).Keys == ToSet(EntryIds(assignments))
  {
    var pairs := EntryPairs(assignments);
    forall key ensures key in FromPairs(pairs) <==> key in ToSet(EntryIds(assignments)) {
      PairsFound(pairs, key);
      if i :| 0 <= i < |pairs| && pairs[i].0 == key { assert EntryIds(assignments)[i] == key; }
      if key in ToSet(EntryIds(assignments)) {
        var i :| 0 <= i < |assignments| && EntryIds(assignments)[i] == key;
        assert pairs[i].0 == key;
      }
    }
  }

  /** The five tests on the two lists of ids. */
  predicate IdsCover(rowIds: seq<string>, entryIds: seq<string>) {
    && rowIds != []
    && |ToSet(rowIds)| == |rowIds| && |ToSet(entryIds)| == |entryIds| == |ToSet(rowIds)|
    && forall i :: 0 <= i < |entryIds| ==> entryIds[i] in ToSet(rowIds)
  }

  /** The same distinct ids on both sides. */
  ghost predicate SameIds(rowIds: seq<string>, entryIds: seq<string>) {
    && |rowIds| == |entryIds| && Distinct(rowIds) && Distinct(entryIds)
    && (forall i :: 0 <= i < |rowIds| ==> rowIds[i] in entryIds)
    && (forall i :: 0 <= i < |entryIds| ==> entryIds[i] in rowIds)
  }

  lemma CoverSame(rowIds: seq<string>, entryIds: seq<string>)
    requires IdsCover(rowIds, entryIds)
    ensures SameIds(rowIds, entryIds)
  {
    SizeSaysDistinct(rowIds);
    SizeSaysDistinct(entryIds);
    DistinctFill(entryIds, ToSet(rowIds));
    forall i | 0 <= i < |rowIds| ensures rowIds[i] in entryIds { ToSetHas(rowIds, rowIds[i]); }
    forall i | 0 <= i < |entryIds| ensures entryIds[i] in rowIds { ToSetHas(rowIds, entryIds[i]); }
  }

  lemma SameCover(rowIds: seq<string>, entryIds: seq<string>)
    requires rowIds != [] && SameIds(rowIds, entryIds)
    ensures IdsCover(rowIds, entryIds)
  {
    SizeSaysDistinct(rowIds);
    SizeSaysDistinct(entryIds);
    forall i | 0 <= i < |entryIds| ensures entryIds[i] in ToSet(rowIds) { ToSetHas(rowIds, entryIds[i]); }
  }

  /** Entries are compared by their ids alone. */
  lemma CoversIds(selected: seq<SourceRow>, assignments: seq<Entry>)
    ensures Covers(selected, assignments) <==> IdsCover(Ids(selected), EntryIds(assignments))
  {
    EntryKeys(assignments);
    assert |FromPairs(EntryPairs(assignments))| == |ToSet(EntryIds(assignments))|;
    assert selected == [] <==> Ids(selected) == [];
    assert forall i :: 0 <= i < |assignments| ==> EntryIds(assignments)[i] == assignments[i].assignment;
  }

  lemma OneToOneIds(selected: seq<SourceRow>, assignments: seq<Entry>)
    ensures OneToOne(selected, assignments) <==> SameIds(Ids(selected), EntryIds(assignments))
  {
    IdsDistinct(selected);
    assert forall i :: 0 <= i < |selected| ==> Ids(selected)[i] == AssignmentId(selected[i]);
    assert forall i :: 0 <= i < |assignments| ==> EntryIds(assignments)[i] == assignments[i].assignment;
  }

  /** The sizes and memberships pass exactly when rows and entries are in one-to-one correspondence. */
  lemma CoversExactly(selected: seq<SourceRow>, assignments: seq<Entry>)
    ensures Covers(selected, assignments) <==> selected != [] && OneToOne(selected, assignments)
  {
    var rowIds, entryIds := Ids(selected), EntryIds(assignments);
    CoversIds(selected, assignments);
    OneToOneIds(selected, assignments);
    if IdsCover(rowIds, entryIds) { CoverSame(rowIds, entryIds); }
    if rowIds != [] && SameIds(rowIds, entryIds) { SameCover(rowIds, entryIds); }
  }

  // ---- Occurrences ------------------------------------------------------------------------------------------

  const COMBINED := "Bolk 1, Bolk 2"

  function DayOf(day: string): Option<string> {
    if day == "Mandag" then Some("Monday")
    else if day == "Tirsdag" then Some("Tuesday")
    else if day == "Onsdag" then Some("Wednesday")
    else if day == "Torsdag" then Some("Thursday")
    else if day == "Fredag" then Some("Friday")
    else None
  }

  function BlockOf(bolk: string): Option<string> {
    if bolk == "Bolk 1" then Some("1")
    else if bolk == "Bolk 2" then Some("2")
    else if bolk == COMBINED then Some("Both")
    else None
  }

  function WorkdaysOf(workdays: Option<string>): Workdays {
    match workdays
    case None => NoWorkdays
    case Some(text) => if |text| == 1 && '1' <= text[0] <= '8' then Number(text[0] as int - '0' as int) else Text(text)
  }

  function Prefixed(prefix: string, id: Option<int>): Option<string> {
    if id.Some? then Some(prefix + Show(id.value)) else None
  }

  function RowOf(source: SourceRow, entry: Entry, sourceSemester: string): Row {
    Row(AssignmentId(source), Prefixed("legacy-user:", source.user), Prefixed("legacy-department:", source.department),
        sourceSemester, Prefixed("legacy-school:", source.school), entry.active, entry.affiliation, entry.placement,
        if source.day.Some? then DayOf(source.day.value) else None,
        if source.bolk.Some? then BlockOf(source.bolk.value) else None,
        WorkdaysOf(source.workdays))
  }

  /** The row of an occurrence, field by field, from its source row and its reviewed entry. */
  lemma RowExactly(source: SourceRow, entry: Entry, sourceSemester: string)
    ensures var row := RowOf(source, entry, sourceSemester);
            && row.assignment == "legacy-history:" + Show(source.id)
            && row.user == (if source.user.None? then None else Some("legacy-user:" + Show(source.user.value)))
            && row.department
                 == (if source.department.None? then None
                     else Some("legacy-department:" + Show(source.department.value)))
            && row.school == (if source.school.None? then None else Some("legacy-school:" + Show(source.school.value)))
            && row.semester == sourceSemester
            && row.active == entry.active && row.affiliation == entry.affiliation && row.placement == entry.placement
    ensures var day := RowOf(source, entry, sourceSemester).day;
            && (day == Some("Monday") <==> source.day == Some("Mandag"))
            && (day == Some("Tuesday") <==> source.day == Some("Tirsdag"))
            && (day == Some("Wednesday") <==> source.day == Some("Onsdag"))
            && (day == Some("Thursday") <==> source.day == Some("Torsdag"))
            && (day == Some("Friday") <==> source.day == Some("Fredag"))
            && (day.Some? ==> day.value in {"Monday", "Tuesday", "Wednesday", "Thursday", "Friday"})
    ensures var block := RowOf(source, entry, sourceSemester).block;
            && (block == Some("1") <==> source.bolk == Some("Bolk 1"))
            && (block == Some("2") <==> source.bolk == Some("Bolk 2"))
            && (block == Some("Both") <==> source.bolk == Some("Bolk 1, Bolk 2"))
            && (block.Some? ==> block.value in {"1", "2", "Both"})
  {}

  /** A single digit from 1 to 8 is a number of workdays; any other text stays a text. */
  lemma WorkdaysExactly(workdays: Option<string>)
    ensures WorkdaysOf(workdays)
         == if workdays.None? then NoWorkdays
            else if workdays.value == ['1'] then Number(1) else if workdays.value == ['2'] then Number(2)
            else if workdays.value == ['3'] then Number(3) else if workdays.value == ['4'] then Number(4)
            else if workdays.value == ['5'] then Number(5) else if workdays.value == ['6'] then Number(6)
            else if workdays.value == ['7'] then Number(7) else if workdays.value == ['8'] then Number(8)
            else Text(workdays.value)
  {
    if workdays.Some? && |workdays.value| == 1 { assert workdays.value == [workdays.value[0]]; }
  }

  /** One row; an entry that is not found would be read as if it were there. */
  function Project(source: SourceRow, entries: map<string, Entry>, sourceSemester: string): Result<Occurrence> {
    if AssignmentId(source) !in entries then Throws(MissingEntry)
    else
      var entry := entries[AssignmentId(source)];
      if entry.sourceRowDigest != OfSource(source) then Throws(ChangedRow)
      else if entry.active && source.bolk == Some(COMBINED) && entry.bothBlocksShareDay != Some(true)
      then Throws(Unconfirmed)
      else
        var row := RowOf(source, entry, sourceSemester);
        Ok(Occurrence("legacy-history-row-" + Show(source.id), row, OfRow(row)))
  }

  /** In source order; the first row that throws ends it. */
  function ProjectAll(selected: seq<SourceRow>, entries: map<string, Entry>, sourceSemester: string):
    Result<seq<Occurrence>>
  {
    if selected == [] then Ok([])
    else
      match Project(selected[0], entries, sourceSemester)
      case Throws(error) => Throws(error)
      case Ok(first) =>
        match ProjectAll(selected[1..], entries, sourceSemester)
        case Throws(error) => Throws(error)
        case Ok(rest) => Ok([first] + rest)
  }

  /** What an occurrence needs of its row and entry. */
  ghost predicate Reviewed(source: SourceRow, entry: Entry) {
    && entry.assignment == AssignmentId(source)
    && entry.sourceRowDigest == OfSource(source)
    && (entry.active && source.bolk == Some(COMBINED) ==> entry.bothBlocksShareDay == Some(true))
  }

  ghost predicate EntriesReady(selected: seq<SourceRow>, entries: map<string, Entry>) {
    && (forall source :: source in selected ==> AssignmentId(source) in entries)
    && (forall key :: key in entries ==> entries[key].assignment == key)
  }

  lemma {:induction false} ProjectedAll(selected: seq<SourceRow>, entries: map<string, Entry>, sourceSemester: string)
    requires EntriesReady(selected, entries)
    ensures var all := ProjectAll(selected, entries, sourceSemester);
            && (all.Ok? <==>
                forall i :: 0 <= i < |selected| ==> Reviewed(selected[i], entries[AssignmentId(selected[i])]))
            && (all.Throws? ==> all.error in {ChangedRow, Unconfirmed})
            && (all.Ok? ==>
                  && |all.value| == |selected|
                  && forall i :: 0 <= i < |selected| ==>
                      Project(selected[i], entries, sourceSemester) == Ok(all.value[i]))
  {
    if selected != [] {
      assert selected == [selected[0]] + selected[1..];
      ProjectedAll(selected[1..], entries, sourceSemester);
      var all := ProjectAll(selected, entries, sourceSemester);
      assert Project(selected[0], entries, sourceSemester).Ok? <==>
          Reviewed(selected[0], entries[AssignmentId(selected[0])]);
      assert forall i :: 1 <= i < |selected| ==> selected[i] == selected[1..][i - 1];
      assert forall i :: 0 <= i < |selected[1..]| ==> selected[1..][i] == selected[i + 1];
    }
  }

  /** Row `i` is the first that its entry does not review: its digest differs, or else the weekday is not
      confirmed. */
  ghost predicate FailsAt(selected: seq<SourceRow>, entries: map<string, Entry>, i: int, error: Error)
    requires EntriesReady(selected, entries)
  {
    && 0 <= i < |selected|
    && (forall j :: 0 <= j < i ==> Reviewed(selected[j], entries[AssignmentId(selected[j])]))
    && Unreviewed(selected[i], entries[AssignmentId(selected[i])], error)
  }

  ghost predicate Unreviewed(source: SourceRow, entry: Entry, error: Error) {
    if entry.sourceRowDigest != OfSource(source) then error == ChangedRow
    else
      && entry.active && source.bolk == Some("Bolk 1, Bolk 2") && entry.bothBlocksShareDay != Some(true)
      && error == Unconfirmed
  }

  lemma {:induction false} FirstFailure(selected: seq<SourceRow>, entries: map<string, Entry>, sourceSemester: string)
    returns (i: int)
    requires EntriesReady(selected, entries) && ProjectAll(selected, entries, sourceSemester).Throws?
    ensures FailsAt(selected, entries, i, ProjectAll(selected, entries, sourceSemester).error)
  {
    assert selected == [selected[0]] + selected[1..];
    if Project(selected[0], entries, sourceSemester).Throws? {
      i := 0;
    } else {
      var k := FirstFailure(selected[1..], entries, sourceSemester);
      i := k + 1;
      assert forall j :: 1 <= j < |selected| ==> selected[j] == selected[1..][j - 1];
    }
  }

  // ---- Mappings ---------------------------------------------------------------------------------------------------

  predicate AcceptedUser(input: Input, user: string) {
    exists i :: 0 <= i < |input.personOccurrences|
      && input.personOccurrences[i].user == user && input.personOccurrences[i].id in input.accepted
  }

  /** The person mappings whose user comes from an accepted person occurrence. */
  function AcceptedPairs(input: Input, pairs: seq<(string, string)>): seq<(string, string)> {
    if pairs == [] then []
    else
      var before := AcceptedPairs(input, pairs[..|pairs| - 1]);
      var pair := pairs[|pairs| - 1];
      if AcceptedUser(input, pair.0) then before + [pair] else before
  }

  datatype References = References(
    people: map<string, string>,
    departments: map<string, string>,
    semesters: map<string, string>,
    schools: map<string, string>)

  function ReferencesOf(input: Input): References {
    References(FromPairs(AcceptedPairs(input, input.personMappings)), FromPairs(input.departments),
               FromPairs(input.semesters), FromPairs(input.schools))
  }

  /** All three source references are there and all four lookups find something. */
  predicate Resolvable(r: References, row: Row) {
    && row.user.Some? && row.department.Some? && row.school.Some?
    && row.user.value in r.people && row.department.value in r.departments
    && row.semester in r.semesters && row.school.value in r.schools
  }

  function MappingOf(r: References, row: Row): Mapping
    requires Resolvable(r, row)
  {
    Mapping(row.assignment, row.user.value, row.department.value, row.semester, row.school.value,
            r.people[row.user.value], r.departments[row.department.value],
            r.semesters[row.semester], r.schools[row.school.value])
  }

  function Mappings(r: References, occurrences: seq<Occurrence>): seq<Mapping> {
    if occurrences == [] then []
    else
      var before := Mappings(r, occurrences[..|occurrences| - 1]);
      var row := occurrences[|occurrences| - 1].row;
      if Resolvable(r, row) then before + [MappingOf(r, row)] else before
  }

  function Build(input: Input): Result<Projection> {
    var selected := Selected(input.history, input.sourceSemester);
    if !input.reviewMatches then Throws(ReviewMismatch)
    else if !input.dateInside then Throws(DateOutside)
    else if !Covers(selected, input.assignments) then Throws(NotCovered)
    else if !input.personMatches then Throws(PersonMismatch)
    else
      match ProjectAll(selected, FromPairs(EntryPairs(input.assignments)), input.sourceSemester)
      case Throws(error) => Throws(error)
      case Ok(occurrences) => Ok(Projection(occurrences, Mappings(ReferencesOf(input), occurrences)))
  }

  lemma EntryFound(assignments: seq<Entry>, key: string)
    requires key in FromPairs(EntryPairs(assignments))
    ensures FromPairs(EntryPairs(assignments))[key] in assignments
            && FromPairs(EntryPairs(assignments))[key].assignment == key
  {
    var pairs := EntryPairs(assignments);
    PairsFound(pairs, key);
    var i :| 0 <= i < |pairs| && pairs[i] == (key, FromPairs(pairs)[key]);
    assert pairs[i] == (assignments[i].assignment, assignments[i]);
  }

  /** The entry of a source row, when the review covers the selection. */
  ghost predicate EntryOf(input: Input, source: SourceRow, entry: Entry) {
    entry in input.assignments && entry.assignment == AssignmentId(source)
  }

  lemma EntryAlone(assignments: seq<Entry>, a: Entry, b: Entry)
    requires Distinct(EntryIds(assignments)) && a in assignments && b in assignments && a.assignment == b.assignment
    ensures a == b
  {
    var i :| 0 <= i < |assignments| && assignments[i] == a;
    var j :| 0 <= j < |assignments| && assignments[j] == b;
    assert EntryIds(assignments)[i] == EntryIds(assignments)[j];
  }

  lemma EntryThere(assignments: seq<Entry>, entry: Entry)
    requires entry in assignments
    ensures entry.assignment in FromPairs(EntryPairs(assignments))
  {
    var i :| 0 <= i < |assignments| && assignments[i] == entry;
    assert EntryPairs(assignments)[i].0 == entry.assignment;
    PairsFound(EntryPairs(assignments), entry.assignment);
  }

  lemma OneEntry(input: Input, source: SourceRow, entry: Entry)
    requires Covers(Selected(input.history, input.sourceSemester), input.assignments)
    requires EntryOf(input, source, entry)
    ensures AssignmentId(source) in FromPairs(EntryPairs(input.assignments))
    ensures FromPairs(EntryPairs(input.assignments))[AssignmentId(source)] == entry
  {
    CoversExactly(Selected(input.history, input.sourceSemester), input.assignments);
    EntryThere(input.assignments, entry);
    EntryFound(input.assignments, AssignmentId(source));
    EntryAlone(input.assignments, entry, FromPairs(EntryPairs(input.assignments))[AssignmentId(source)]);
  }

  /** What the guards leave: every selected row finds an entry of its own. */
  lemma EntriesFound(input: Input)
    requires Covers(Selected(input.history, input.sourceSemester), input.assignments)
    ensures var selected := Selected(input.history, input.sourceSemester);
            var entries := FromPairs(EntryPairs(input.assignments));
            && EntriesReady(selected, entries)
            && forall source :: source in selected ==> EntryOf(input, source, entries[AssignmentId(source)])
  {
    var selected, pairs := Selected(input.history, input.sourceSemester), EntryPairs(input.assignments);
    CoversExactly(selected, input.assignments);
    forall source | source in selected
      ensures AssignmentId(source) in FromPairs(pairs)
      ensures EntryOf(input, source, FromPairs(pairs)[AssignmentId(source)])
    {
      var i :| 0 <= i < |selected| && selected[i] == source;
      var k :| 0 <= k < |input.assignments| && EntryIds(input.assignments)[k] == AssignmentId(source);
      assert pairs[k].0 == AssignmentId(source);
      PairsFound(pairs, AssignmentId(source));
      EntryFound(input.assignments, AssignmentId(source));
    }
    forall key | key in FromPairs(pairs)
      ensures FromPairs(pairs)[key].assignment == key
    {
      EntryFound(input.assignments, key);
    }
  }

  /** Every entry that names a selected row names its digest and confirms the weekday where it must. */
  ghost predicate AllReviewed(input: Input) {
    forall source, entry :: source in Selected(input.history, input.sourceSemester) && EntryOf(input, source, entry) ==>
      Reviewed(source, entry)
  }

  lemma ProjectedExactly(input: Input)
    requires Covers(Selected(input.history, input.sourceSemester), input.assignments)
    ensures var selected := Selected(input.history, input.sourceSemester);
            var all := ProjectAll(selected, FromPairs(EntryPairs(input.assignments)), input.sourceSemester);
            && (all.Ok? <==> AllReviewed(input))
            && (all.Throws? ==> all.error in {ChangedRow, Unconfirmed})
  {
    var selected := Selected(input.history, input.sourceSemester);
    var entries := FromPairs(EntryPairs(input.assignments));
    EntriesFound(input);
    ProjectedAll(selected, entries, input.sourceSemester);
    if ProjectAll(selected, entries, input.sourceSemester).Ok? {
      forall source, entry | source in selected && EntryOf(input, source, entry) ensures Reviewed(source, entry) {
        OneEntry(input, source, entry);
      }
    }
  }

  /** The first selected row, in source order, that its entry does not review. */
  ghost predicate FirstUnreviewed(input: Input, i: int, entry: Entry, error: Error) {
    var selected := Selected(input.history, input.sourceSemester);
    && 0 <= i < |selected| && EntryOf(input, selected[i], entry) && Unreviewed(selected[i], entry, error)
    && forall j, other :: 0 <= j < i && EntryOf(input, selected[j], other) ==> Reviewed(selected[j], other)
  }

  /** A changed or unconfirmed row ends the projection with the error of the first such row. */
  lemma StopsAtFirst(input: Input) returns (i: int, entry: Entry)
    requires Covers(Selected(input.history, input.sourceSemester), input.assignments)
    requires input.reviewMatches && input.dateInside && input.personMatches && Build(input).Throws?
    ensures FirstUnreviewed(input, i, entry, Build(input).error)
  {
    var selected := Selected(input.history, input.sourceSemester);
    var entries := FromPairs(EntryPairs(input.assignments));
    EntriesFound(input);
    i := FirstFailure(selected, entries, input.sourceSemester);
    entry := entries[AssignmentId(selected[i])];
    forall j, other | 0 <= j < i && EntryOf(input, selected[j], other) ensures Reviewed(selected[j], other) {
      OneEntry(input, selected[j], other);
    }
  }

  /** The first test that fails, in the order of the tests, gives the error. */
  lemma ThrowsExactly(input: Input)
    ensures Build(input) == Throws(ReviewMismatch) <==> !input.reviewMatches
    ensures Build(input) == Throws(DateOutside) <==> input.reviewMatches && !input.dateInside
    ensures var selected := Selected(input.history, input.sourceSemester);
            var covered := selected != [] && OneToOne(selected, input.assignments);
            && (Build(input) == Throws(NotCovered) <==> input.reviewMatches && input.dateInside && !covered)
            && (Build(input) == Throws(PersonMismatch) <==>
                  input.reviewMatches && input.dateInside && covered && !input.personMatches)
            && (Build(input) in {Throws(ChangedRow), Throws(Unconfirmed)} ==>
                  exists i, entry :: FirstUnreviewed(input, i, entry, Build(input).error))
  {
    var selected := Selected(input.history, input.sourceSemester);
    CoversExactly(selected, input.assignments);
    if Covers(selected, input.assignments) {
      ProjectedExactly(input);
      if input.reviewMatches && input.dateInside && input.personMatches && Build(input).Throws? {
        var i, entry := StopsAtFirst(input);
      }
    }
  }

  /** The projection is built exactly when the inputs match and every selected row has one entry of its own
      that names its digest and confirms the weekday where it must; no entry is ever missing. */
  lemma BuildsExactly(input: Input)
    ensures Build(input) != Throws(MissingEntry)
    ensures Build(input).Ok? <==>
              && input.reviewMatches && input.dateInside && input.personMatches
              && Selected(input.history, input.sourceSemester) != []
              && OneToOne(Selected(input.history, input.sourceSemester), input.assignments)
              && AllReviewed(input)
  {
    CoversExactly(Selected(input.history, input.sourceSemester), input.assignments);
    if Covers(Selected(input.history, input.sourceSemester), input.assignments) { ProjectedExactly(input); }
  }

  /** The occurrences are the selected rows in their order, each with its own entry and unchanged digest. */
  lemma OccurrencesFollowRows(input: Input, i: nat) returns (entry: Entry)
    requires Build(input).Ok? && i < |Selected(input.history, input.sourceSemester)|
    ensures |Build(input).value.occurrences| == |Selected(input.history, input.sourceSemester)|
    ensures var source := Selected(input.history, input.sourceSemester)[i];
            var occurrence := Build(input).value.occurrences[i];
            && EntryOf(input, source, entry) && Reviewed(source, entry)
            && occurrence.id == "legacy-history-row-" + Show(source.id)
            && occurrence.row == RowOf(source, entry, input.sourceSemester)
            && occurrence.row.workdays == WorkdaysOf(source.workdays)
            && occurrence.digest == OfRow(occurrence.row)
  {
    var selected := Selected(input.history, input.sourceSemester);
    var entries := FromPairs(EntryPairs(input.assignments));
    BuildsExactly(input);
    EntriesFound(input);
    ProjectedAll(selected, entries, input.sourceSemester);
    entry := entries[AssignmentId(selected[i])];
  }

  /** `places[k]` is where the occurrence of mapping `k` stands. */
  ghost predicate PlacedAt(r: References, occurrences: seq<Occurrence>, mappings: seq<Mapping>, places: seq<nat>) {
    && |places| == |mappings|
    && (forall k :: 0 <= k < |places| ==>
          places[k] < |occurrences| && Maps(r, occurrences[places[k]].row, mappings[k]))
    && (forall j, k :: 0 <= j < k < |places| ==> places[j] < places[k])
    && (forall i :: 0 <= i < |occurrences| ==>
          var row := occurrences[i].row;
          (i in places <==>
             && row.user.Some? && row.department.Some? && row.school.Some?
             && row.user.value in r.people && row.department.value in r.departments
             && row.semester in r.semesters && row.school.value in r.schools))
  }

  /** The mapping of a row, field by field: its own references and what each is found under. */
  ghost predicate Maps(r: References, row: Row, m: Mapping) {
    && row.user.Some? && row.department.Some? && row.school.Some?
    && m.assignment == row.assignment && m.user == row.user.value && m.department == row.department.value
    && m.semester == row.semester && m.school == row.school.value
    && m.user in r.people && m.person == r.people[m.user]
    && m.department in r.departments && m.departmentId == r.departments[m.department]
    && m.semester in r.semesters && m.semesterId == r.semesters[m.semester]
    && m.school in r.schools && m.schoolId == r.schools[m.school]
  }

  lemma PlacedNext(r: References, before: seq<Occurrence>, last: Occurrence, mappings: seq<Mapping>, places: seq<nat>)
    requires PlacedAt(r, before, mappings, places)
    ensures if Resolvable(r, last.row)
            then PlacedAt(r, before + [last], mappings + [MappingOf(r, last.row)], places + [|before|])
            else PlacedAt(r, before + [last], mappings, places)
  {
    var all := before + [last];
    assert forall i :: 0 <= i < |before| ==> all[i] == before[i];
    assert forall i :: i in places + [|before|] <==> i in places || i == |before|;
  }

  /** The mappings are the resolvable occurrences, all of them, in their order. */
  lemma {:induction false} MappingsExactly(r: References, occurrences: seq<Occurrence>) returns (places: seq<nat>)
    ensures PlacedAt(r, occurrences, Mappings(r, occurrences), places)
  {
    if occurrences == [] {
      places := [];
    } else {
      var n := |occurrences| - 1;
      var before := MappingsExactly(r, occurrences[..n]);
      PlacedNext(r, occurrences[..n], occurrences[n], Mappings(r, occurrences[..n]), before);
      assert occurrences == occurrences[..n] + [occurrences[n]];
      places := if Resolvable(r, occurrences[n].row) then before + [n] else before;
    }
  }

  /** The map gives each key what the list pairs with it last, for the keys that `accepted` holds of. */
  ghost predicate Finds(m: map<string, string>, pairs: seq<(string, string)>, accepted: string -> bool) {
    && (forall key :: key in m ==> accepted(key) && exists i: nat :: LastUnder(pairs, key, i))
    && (forall key, i: nat :: LastUnder(pairs, key, i) && accepted(key) ==> key in m && m[key] == pairs[i].1)
  }

  lemma {:induction false} SomeLast<V>(pairs: seq<(string, V)>, key: string) returns (i: nat)
    requires key in FromPairs(pairs)
    ensures LastUnder(pairs, key, i)
  {
    var n := |pairs| - 1;
    if pairs[n].0 == key {
      i := n;
    } else {
      i := SomeLast(pairs[..n], key);
    }
  }

  lemma {:induction false} AcceptedLast(input: Input, pairs: seq<(string, string)>, key: string)
    ensures key in FromPairs(AcceptedPairs(input, pairs)) <==> key in FromPairs(pairs) && AcceptedUser(input, key)
    ensures key in FromPairs(AcceptedPairs(input, pairs)) ==>
              FromPairs(AcceptedPairs(input, pairs))[key] == FromPairs(pairs)[key]
  {
    if pairs != [] {
      var n := |pairs| - 1;
      var before := AcceptedPairs(input, pairs[..n]);
      AcceptedLast(input, pairs[..n], key);
      assert (before + [pairs[n]])[..|before|] == before;
    }
  }

  /** A user is mapped exactly when the person snapshot pairs it and an accepted person occurrence names it. */
  ghost predicate UserAccepted(input: Input, user: string) {
    exists k, a :: 0 <= k < |input.personOccurrences| && 0 <= a < |input.accepted|
      && input.personOccurrences[k] == PersonOccurrence(input.accepted[a], user)
  }

  ghost predicate RefersTo(input: Input, r: References) {
    && Finds(r.people, input.personMappings, user => UserAccepted(input, user))
    && Finds(r.departments, input.departments, key => true)
    && Finds(r.semesters, input.semesters, key => true)
    && Finds(r.schools, input.schools, key => true)
  }

  lemma AllFound(pairs: seq<(string, string)>)
    ensures Finds(FromPairs(pairs), pairs, key => true)
  {
    forall key | key in FromPairs(pairs) ensures exists i: nat :: LastUnder(pairs, key, i) {
      var i := SomeLast(pairs, key);
    }
    forall key, i: nat | LastUnder(pairs, key, i)
      ensures key in FromPairs(pairs) && FromPairs(pairs)[key] == pairs[i].1
    {
      LastPairFound(pairs, key, i);
    }
  }

  lemma UserAcceptedExactly(input: Input, user: string)
    ensures AcceptedUser(input, user) <==> UserAccepted(input, user)
  {
    if AcceptedUser(input, user) {
      var k :| 0 <= k < |input.personOccurrences|
        && input.personOccurrences[k].user == user && input.personOccurrences[k].id in input.accepted;
      var a :| 0 <= a < |input.accepted| && input.accepted[a] == input.personOccurrences[k].id;
      assert input.personOccurrences[k] == PersonOccurrence(input.accepted[a], user);
    }
  }

  lemma PeopleFound(input: Input)
    ensures Finds(ReferencesOf(input).people, input.personMappings, user => UserAccepted(input, user))
  {
    var pairs := input.personMappings;
    var people := FromPairs(AcceptedPairs(input, pairs));
    forall key | key in people ensures UserAccepted(input, key) && exists i: nat :: LastUnder(pairs, key, i) {
      AcceptedLast(input, pairs, key);
      UserAcceptedExactly(input, key);
      var i := SomeLast(pairs, key);
    }
    forall key, i: nat | LastUnder(pairs, key, i) && UserAccepted(input, key)
      ensures key in people && people[key] == pairs[i].1
    {
      AcceptedLast(input, pairs, key);
      UserAcceptedExactly(input, key);
      LastPairFound(pairs, key, i);
    }
  }

  /** The built mappings are those of the occurrences whose references are all found, in their order; a reference
      is found under its last pair, a person only for an accepted user. */
  lemma MapsExactly(input: Input) returns (r: References, places: seq<nat>)
    requires Build(input).Ok?
    ensures RefersTo(input, r)
    ensures PlacedAt(r, Build(input).value.occurrences, Build(input).value.mappings, places)
  {
    r := ReferencesOf(input);
    PeopleFound(input);
    AllFound(input.departments);
    AllFound(input.semesters);
    AllFound(input.schools);
    places := MappingsExactly(r, Build(input).value.occurrences);
  }

  /** No source assignment is mapped twice. */
  lemma MappedOnce(input: Input, j: nat, k: nat)
    requires Build(input).Ok? && j < k < |Build(input).value.mappings|
    ensures Build(input).value.mappings[j].assignment != Build(input).value.mappings[k].assignment
  {
    var occurrences := Build(input).value.occurrences;
    var selected := Selected(input.history, input.sourceSemester);
    var places := MappingsExactly(ReferencesOf(input), occurrences);
    BuildsExactly(input);
    EntriesFound(input);
    ProjectedAll(selected, FromPairs(EntryPairs(input.assignments)), input.sourceSemester);
    var a := OccurrencesFollowRows(input, places[j]);
    var b := OccurrencesFollowRows(input, places[k]);
    SameId(selected[places[j]], selected[places[k]]);
  }

  lemma {:induction false} AcceptedOnly(input: Input, pairs: seq<(string, string)>, pair: (string, string))
    ensures pair in AcceptedPairs(input, pairs) <==> pair in pairs && AcceptedUser(input, pair.0)
  {
    if pairs != [] {
      var n := |pairs| - 1;
      assert pairs == pairs[..n] + [pairs[n]];
      AcceptedOnly(input, pairs[..n], pair);
    }
  }

  /** Every mapped person is one the person snapshot maps the user to, and the user comes from an accepted
      person occurrence; the other three ids are ones the references pair with the source ids. */
  lemma MappedPersonAccepted(input: Input, k: nat)
    requires Build(input).Ok? && k < |Build(input).value.mappings|
    ensures var m := Build(input).value.mappings[k];
            && (m.user, m.person) in input.personMappings && AcceptedUser(input, m.user)
            && (m.department, m.departmentId) in input.departments
            && (m.semester, m.semesterId) in input.semesters && (m.school, m.schoolId) in input.schools
  {
    var m := Build(input).value.mappings[k];
    var places := MappingsExactly(ReferencesOf(input), Build(input).value.occurrences);
    PairsFound(AcceptedPairs(input, input.personMappings), m.user);
    PairsFound(input.departments, m.department);
    PairsFound(input.semesters, m.semester);
    PairsFound(input.schools, m.school);
    AcceptedOnly(input, input.personMappings, (m.user, m.person));
  }
}
