/** The observer of the team-application journey: what one checkpoint compares, and what it means when
    every checkpoint of a run was accepted. */
module TeamEvidence {
  import opened Counting
  import opened Options

  datatype Step =
    | Submitted | SubmissionReplay | RejectedSubmissions | StaffReads | StaffDenials | SessionRevocation | DeleteDenied
    | UnattendedRecovery | Another(name: string)

  datatype Label = First | Fallback | Other

  /** What an applicant fills in. */
  datatype Input = Input(
    name: string,
    email: string,
    phone: string,
    yearOfStudy: string,
    fieldOfStudy: string,
    biography: string,
    motivation: string)

  /** What the browser submitted, under which form key, and the instant it was told. `teamName` and `mailbox` are
      those of its team. */
  datatype Submission = Submission(
    application: string,
    team: string,
    teamName: string,
    mailbox: string,
    input: Input,
    key: string,
    submittedAt: string,
    kind: Label)

  datatype Deletion = Deletion(application: string, key: string)

  /** What the steps so far have come to outside the submissions, table by table. */
  datatype Tables = Tables(teams: nat, memberships: nat, lifecycle: nat, audit: nat)

  /** What the browser did, and how many intake revisions the steps so far made. */
  datatype Record = Record(
    submissions: seq<Submission>, deletions: seq<Deletion>, revisions: nat, expected: Tables)

  datatype Status = Pending | Processing | Failed | Delivered | Cancelled

  /** What an outbox row retains of its mail, and what a provider request carries. */
  datatype Envelope = Envelope(deliveryId: string, recipient: string, replyTo: string, subject: string, text: string)
  datatype Payload = Removed | Retained(envelope: Envelope) | Unreadable

  datatype Row = Row(
    effect: string,
    application: string,
    command: string,
    team: string,
    ordinal: int,
    effectType: string,
    payload: Payload,
    status: Status,
    attempts: int,
    failure: Option<string>)

  datatype Operation = Submit | Delete | Revise

  /** A command receipt. */
  datatype Command = Command(id: string, operation: Operation, application: string, team: string)

  /** A stored application. */
  datatype Application = Application(id: string, team: string, input: Input, submittedAt: string)

  /** What an HTTP receipt is stored under; the row holds its digest. */
  datatype Identity = Identity(subject: string, operation: Operation, target: string, key: string)

  datatype Confirmation = Confirmation(application: string, team: string, submittedAt: string)

  /** An HTTP receipt. An operation of none of the three kinds, or a body that is no confirmation, is `None`. */
  datatype HttpReceipt = HttpReceipt(
    identity: Identity, operation: Option<Operation>, status: Option<int>, body: Option<Confirmation>)

  /** The committed facts. `tables` are those compared with what the steps have come to; `auditRows` are the rows of
      the audit as texts, and `text` is all of the facts as JSON. */
  datatype Facts = Facts(
    outbox: seq<Row>,
    commands: seq<Command>,
    applications: seq<Application>,
    tables: Tables,
    receipts: seq<HttpReceipt>,
    auditRows: seq<string>,
    text: string)

  datatype Mail = Mail(envelope: Envelope, sender: string)

  datatype Attempt = Attempt(rejected: bool, key: string, body: Option<Mail>, bodySha256: string, status: int)

  function ApplicationOf(row: Row): string { row.application }
  function OperationOf(command: Command): Operation { command.operation }
  function DeliveryOf(attempt: Attempt): string {
    if attempt.body.Some? then attempt.body.value.envelope.deliveryId else ""
  }

  function OperationIn(receipt: HttpReceipt): Option<Operation> { receipt.operation }
  function IdentityOf(receipt: HttpReceipt): Identity { receipt.identity }

  predicate ReadOnly(step: Step) {
    step in {SubmissionReplay, RejectedSubmissions, StaffReads, StaffDenials, SessionRevocation, DeleteDenied}
  }

  // ---- What one checkpoint asks of the fields it compares -------------------------------------------------

  /** The part stands somewhere in the text. */
  ghost predicate Occurs(text: string, part: string) {
    exists before: string, after: string :: text == before + part + after
  }

  /** The receipt goes to the applicant and is answered to the team, the notification the other way round and with
      all that was filled in. */
  ghost predicate MailFits(submission: Submission, effectType: string, envelope: Envelope) {
    if effectType == "SendTeamApplicationReceipt" then
      && envelope.recipient == submission.input.email && envelope.replyTo == submission.mailbox
      && envelope.subject == "Søknad til " + submission.teamName + " mottatt"
    else
      && envelope.recipient == submission.mailbox && envelope.replyTo == submission.input.email
      && envelope.subject == "Ny søker til " + submission.teamName
      && Occurs(envelope.text, "Navn: " + submission.input.name)
      && Occurs(envelope.text, "E-post: " + submission.input.email)
      && Occurs(envelope.text, "Telefon: " + submission.input.phone)
      && Occurs(envelope.text, "Studieår: " + submission.input.yearOfStudy)
      && Occurs(envelope.text, "Linje: " + submission.input.fieldOfStudy)
      && Occurs(envelope.text, submission.input.biography) && Occurs(envelope.text, submission.input.motivation)
  }

  ghost predicate EnvelopeFits(submission: Submission, row: Row, envelope: Envelope) {
    envelope.deliveryId == row.effect && MailFits(submission, row.effectType, envelope)
  }

  ghost predicate WasDeleted(record: Record, application: string) {
    exists d :: d in record.deletions && d.application == application
  }

  /** Of a deleted application both notifications are cancelled for that reason and keep no mail; those of the first
      submission, and after the unattended recovery of the fallback, are delivered and keep none; any other is still
      to be delivered, was tried, and keeps the mail it is to send. */
  ghost predicate RowFits(step: Step, record: Record, submission: Submission, row: Row) {
    && row.effect == row.command + ":" + row.effectType
    && if WasDeleted(record, submission.application) then
         row.status == Cancelled && row.payload == Removed && row.failure == Some("TeamApplicationDeleted")
       else if submission.kind == First || (submission.kind == Fallback && step == UnattendedRecovery) then
         row.status == Delivered && row.payload == Removed
       else
         && row.status in {Pending, Processing, Failed} && row.attempts > 0
         && row.payload.Retained? && EnvelopeFits(submission, row, row.payload.envelope)
  }

  /** The receipt and the notification, in this order, of one command and team. */
  ghost predicate Pair(rows: seq<Row>, command: string, team: string) {
    && |rows| == 2
    && rows[0].ordinal == 0 && rows[0].effectType == "SendTeamApplicationReceipt"
    && rows[1].ordinal == 1 && rows[1].effectType == "NotifyTeamOfApplication"
    && rows[0].command == rows[1].command == command && rows[0].team == rows[1].team == team
  }

  /** The applications that were deleted. */
  function Gone(deletions: seq<Deletion>): (gone: seq<string>)
    ensures |gone| == |deletions| && forall i :: 0 <= i < |gone| ==> gone[i] == deletions[i].application
  {
    seq(|deletions|, i requires 0 <= i < |deletions| => deletions[i].application)
  }

  /** The submissions whose application was deleted, or those whose was not. */
  ghost function Part(submissions: seq<Submission>, deletions: seq<string>, gone: bool): seq<Submission> {
    if submissions == [] then []
    else
      var last, before := submissions[|submissions| - 1], Part(submissions[..|submissions| - 1], deletions, gone);
      if (last.application in deletions) == gone then before + [last] else before
  }

  ghost function Live(record: Record): seq<Submission> { Part(record.submissions, Gone(record.deletions), false) }

  /** The instant of the first stored application with this id. */
  function InstantOf(applications: seq<Application>, id: string): Option<string> {
    if applications == [] then None
    else if applications[0].id == id then Some(applications[0].submittedAt)
    else InstantOf(applications[1..], id)
  }

  /** Stored are exactly the live submissions, in their order, each under the instant its visitor was told. */
  ghost predicate StoredFits(record: Record, facts: Facts) {
    var live, stored := Live(record), facts.applications;
    && |stored| == |live|
    && (forall i :: 0 <= i < |live| ==>
          && stored[i].id == live[i].application && stored[i].team == live[i].team && stored[i].input == live[i].input)
    && (forall i :: 0 <= i < |live| ==> InstantOf(stored, live[i].application) == Some(live[i].submittedAt))
  }

  ghost function SubmitIdentity(submission: Submission): Identity {
    Identity("Anonymous", Submit, submission.team, submission.key)
  }

  /** The last receipt under an identity. */
  ghost function ReceiptUnder(receipts: seq<HttpReceipt>, identity: Identity): Option<HttpReceipt> {
    if receipts == [] then None
    else if receipts[|receipts| - 1].identity == identity then Some(receipts[|receipts| - 1])
    else ReceiptUnder(receipts[..|receipts| - 1], identity)
  }

  ghost predicate Confirms(receipts: seq<HttpReceipt>, submission: Submission) {
    var stored := ReceiptUnder(receipts, SubmitIdentity(submission));
    && stored.Some? && stored.value.status == Some(201)
    && stored.value.body == Some(Confirmation(submission.application, submission.team, submission.submittedAt))
  }

  ghost predicate DeleteReceived(receipts: seq<HttpReceipt>, deletion: Deletion) {
    ReceiptUnder(receipts, Identity("Person:ta-leader-alfa", Delete, deletion.application, deletion.key)).Some?
  }

  /** The receipt of each form key replays its confirmation, each delete key has one, and there are as many receipts
      of each kind as committed commands and none of another. */
  ghost predicate ReceiptsFit(record: Record, facts: Facts) {
    && (forall i :: 0 <= i < |record.submissions| ==> Confirms(facts.receipts, record.submissions[i]))
    && (forall i :: 0 <= i < |record.deletions| ==> DeleteReceived(facts.receipts, record.deletions[i]))
    && |Filter(facts.receipts, OperationIn, Some(Delete))| == |record.deletions|
    && |Filter(facts.receipts, OperationIn, Some(Revise))| == record.revisions
    && |Filter(facts.receipts, OperationIn, Some(Submit))| == |record.submissions|
    && |Filter(facts.receipts, OperationIn, None)| == 0
  }

  /** The row holds nothing that identifies the applicant, and none of the applicant's own words. */
  ghost predicate Silent(row: string, input: Input) {
    && !Occurs(row, input.name) && !Occurs(row, input.email) && !Occurs(row, input.phone)
    && !Occurs(row, input.biography) && !Occurs(row, input.motivation)
  }

  ghost predicate AuditSilent(record: Record, facts: Facts) {
    forall i, k :: 0 <= i < |record.submissions| && 0 <= k < |facts.auditRows| ==>
      Silent(facts.auditRows[k], record.submissions[i].input)
  }

  function FirstOf(submissions: seq<Submission>, application: string): Option<Submission> {
    if submissions == [] then None
    else if submissions[0].application == application then Some(submissions[0])
    else FirstOf(submissions[1..], application)
  }

  /** The deletion is of a submission, and no fact holds its words. */
  ghost predicate Forgotten(record: Record, facts: Facts, deletion: Deletion) {
    var removed := FirstOf(record.submissions, deletion.application);
    && removed.Some?
    && !Occurs(facts.text, removed.value.input.biography) && !Occurs(facts.text, removed.value.input.motivation)
  }

  ghost predicate WordsGone(record: Record, facts: Facts) {
    forall i :: 0 <= i < |record.deletions| ==> Forgotten(record, facts, record.deletions[i])
  }

  function Submits(facts: Facts): seq<Command> { Filter(facts.commands, OperationOf, Submit) }

  /** One receipt for each committed command, in the order of the submissions and of the deletions. */
  ghost predicate CommandsFit(record: Record, facts: Facts) {
    var submits, deletes := Filter(facts.commands, OperationOf, Submit), Filter(facts.commands, OperationOf, Delete);
    && |submits| == |record.submissions|
    && (forall i :: 0 <= i < |submits| ==>
          && submits[i].application == record.submissions[i].application
          && submits[i].team == record.submissions[i].team)
    && |deletes| == |record.deletions|
    && (forall i :: 0 <= i < |deletes| ==> deletes[i].application == record.deletions[i].application)
    && |Filter(facts.commands, OperationOf, Revise)| == record.revisions
    && |facts.commands| == |record.submissions| + |record.deletions| + record.revisions
  }

  /** The first submit receipt of the application. */
  function CommandOf(submits: seq<Command>, application: string): Option<string> {
    if submits == [] then None
    else if submits[0].application == application then Some(submits[0].id)
    else CommandOf(submits[1..], application)
  }

  /** Each submission has exactly its two notifications, under the command of its first submit receipt. */
  ghost predicate SubmissionFits(step: Step, record: Record, facts: Facts, submission: Submission) {
    var rows := Filter(facts.outbox, ApplicationOf, submission.application);
    var command := CommandOf(Filter(facts.commands, OperationOf, Submit), submission.application);
    && command.Some? && Pair(rows, command.value, submission.team)
    && RowFits(step, record, submission, rows[0]) && RowFits(step, record, submission, rows[1])
  }

  ghost predicate OutboxFits(step: Step, record: Record, facts: Facts) {
    && |facts.outbox| == |record.submissions| * 2
    && forall i :: 0 <= i < |record.submissions| ==> SubmissionFits(step, record, facts, record.submissions[i])
  }

  /** The provider refused nothing: the request is a mail from the one sender, its key is its delivery, and its
      delivery is that of a committed notification. */
  ghost predicate AttemptFits(attempt: Attempt, outbox: seq<Row>) {
    && !attempt.rejected && attempt.body.Some?
    && attempt.key == attempt.body.value.envelope.deliveryId
    && attempt.body.value.sender == "noreply.syntetisk@example.invalid"
    && Queued(outbox, attempt.body.value.envelope.deliveryId)
  }

  ghost predicate Queued(outbox: seq<Row>, id: string) { exists k :: 0 <= k < |outbox| && outbox[k].effect == id }

  ghost function Acknowledged(attempts: seq<Attempt>): seq<Attempt> {
    if attempts == [] then []
    else
      var before := Acknowledged(attempts[..|attempts| - 1]);
      if attempts[|attempts| - 1].status == 204 then before + [attempts[|attempts| - 1]] else before
  }

  /** One row against the attempts of its delivery: delivered means acknowledged, and only a row in progress may be
      acknowledged otherwise; the first acknowledged mail is that of the submission. */
  ghost predicate DeliveryFits(record: Record, row: Row, attempts: seq<Attempt>) {
    var accepted := Acknowledged(attempts);
    var submission := FirstOf(record.submissions, row.application);
    && (row.status == Delivered ==> accepted != [])
    && (row.status in {Pending, Failed, Cancelled} ==> accepted == [])
    && (submission.Some? && accepted != [] ==>
          accepted[0].body.Some? && EnvelopeFits(submission.value, row, accepted[0].body.value.envelope))
  }

  /** The map holds the attempts of every delivery, in their order, and no other key. */
  ghost predicate Groups(attempts: seq<Attempt>, byDelivery: map<string, seq<Attempt>>) {
    forall id :: if id in byDelivery then byDelivery[id] == Filter(attempts, DeliveryOf, id) != []
                 else Filter(attempts, DeliveryOf, id) == []
  }

  ghost predicate ProviderFits(record: Record, facts: Facts, attempts: seq<Attempt>) {
    && (forall i :: 0 <= i < |attempts| ==> AttemptFits(attempts[i], facts.outbox))
    && OneBodyEach(attempts)
    && RowsFit(record, facts, attempts, |facts.outbox|)
  }

  /** The attempts of one delivery carry one body. */
  ghost predicate OneBodyEach(attempts: seq<Attempt>) {
    forall i, j :: 0 <= i < |attempts| && 0 <= j < |attempts| && DeliveryOf(attempts[i]) == DeliveryOf(attempts[j]) ==>
      attempts[i].bodySha256 == attempts[j].bodySha256
  }

  ghost predicate RowsFit(record: Record, facts: Facts, attempts: seq<Attempt>, n: nat)
    requires n <= |facts.outbox|
  {
    forall k :: 0 <= k < n ==>
        DeliveryFits(record, facts.outbox[k], Filter(attempts, DeliveryOf, facts.outbox[k].effect))
  }

  ghost function Deliveries(attempts: seq<Attempt>): set<string> {
    set i | 0 <= i < |attempts| :: DeliveryOf(attempts[i])
  }

  /** Nothing changed from one snapshot to the next but the memberships, their lifecycle and how far the
      notifications came. */
  ghost predicate OnlyProgress(before: Facts, now: Facts) {
    && now.commands == before.commands && now.applications == before.applications && now.receipts == before.receipts
    && now.auditRows == before.auditRows
    && now.tables.teams == before.tables.teams && now.tables.audit == before.tables.audit
    && |now.outbox| == |before.outbox|
    && forall k :: 0 <= k < |now.outbox| ==> SameNotification(before.outbox[k], now.outbox[k])
  }

  ghost predicate SameNotification(before: Row, now: Row) {
    && now.effect == before.effect && now.application == before.application && now.command == before.command
    && now.team == before.team && now.ordinal == before.ordinal && now.effectType == before.effectType
    && now.payload == before.payload
  }

  /** What was committed besides mail: the tables, the applications, the command and HTTP receipts, the audit. */
  ghost predicate CommittedFits(record: Record, facts: Facts) {
    && facts.tables == record.expected
    && StoredFits(record, facts)
    && CommandsFit(record, facts)
    && ReceiptsFit(record, facts)
    && AuditSilent(record, facts)
  }

  /** What the observer keeps between checkpoints. */
  datatype Memory = Memory(prior: Option<Facts>, deliveredAtSubmitted: set<string>)

  /** The read-only and the rejected steps. */
  ghost predicate ChangesNothing(step: Step) {
    || step == SubmissionReplay || step == RejectedSubmissions || step == StaffReads || step == StaffDenials
    || step == SessionRevocation || step == DeleteDenied
  }

  ghost predicate Accepts(memory: Memory, step: Step, record: Record, facts: Facts, attempts: seq<Attempt>) {
    && CommittedFits(record, facts)
    && OutboxFits(step, record, facts)
    && ProviderFits(record, facts, attempts)
    && (step == SubmissionReplay ==> Deliveries(attempts) == memory.deliveredAtSubmitted)
    && WordsGone(record, facts)
    && (memory.prior.Some? && ChangesNothing(step) ==> OnlyProgress(memory.prior.value, facts))
  }

  /** The facts of an accepted checkpoint are kept for the next one, its deliveries after the submissions. */
  ghost function After(memory: Memory, step: Step, facts: Facts, attempts: seq<Attempt>): Memory {
    Memory(Some(facts), if step == Submitted then Deliveries(attempts) else memory.deliveredAtSubmitted)
  }

  // ---- The comparisons ------------------------------------------------------------------------------------

  const SENDER := "noreply.syntetisk@example.invalid"
  const RECEIPT := "SendTeamApplicationReceipt"
  const NOTIFICATION := "NotifyTeamOfApplication"
  const DELETED := "TeamApplicationDeleted"
  const LEADER := "Person:ta-leader-alfa"
  const ANONYMOUS := "Anonymous"

  /** `text.includes(part)`. */
  predicate Includes(text: string, part: string) { exists i :: 0 <= i <= |text| && part <= text[i..] }

  lemma IncludesOccurs(text: string, part: string)
    ensures Includes(text, part) <==> Occurs(text, part)
  {
    if Includes(text, part) {
      var i :| 0 <= i <= |text| && part <= text[i..];
      assert text == text[..i] + part + text[i..][|part|..];
    }
    if Occurs(text, part) {
      var before, after :| text == before + part + after;
      assert text[|before|..] == part + after;
      assert part <= text[|before|..];
    }
  }

  /** None, or all, of the parts occur. */
  method IncludesAll(text: string, parts: seq<string>) returns (all: bool)
    ensures all <==> forall k :: 0 <= k < |parts| ==> Occurs(text, parts[k])
  {
    for k := 0 to |parts|
      invariant forall i :: 0 <= i < k ==> Occurs(text, parts[i])
    {
      IncludesOccurs(text, parts[k]);
      if !Includes(text, parts[k]) { return false; }
    }
    all := true;
  }

  method IncludesNone(text: string, parts: seq<string>) returns (none: bool)
    ensures none <==> forall k :: 0 <= k < |parts| ==> !Occurs(text, parts[k])
  {
    for k := 0 to |parts|
      invariant forall i :: 0 <= i < k ==> !Occurs(text, parts[i])
    {
      IncludesOccurs(text, parts[k]);
      if Includes(text, parts[k]) { return false; }
    }
    none := true;
  }

  method VerifyEnvelope(submission: Submission, row: Row, envelope: Envelope) returns (ok: bool)
    ensures ok <==> EnvelopeFits(submission, row, envelope)
  {
    var input := submission.input;
    if envelope.deliveryId != row.effect { return false; }
    if row.effectType == RECEIPT {
      if envelope.recipient != input.email || envelope.replyTo != submission.mailbox { return false; }
      ok := envelope.subject == "Søknad til " + submission.teamName + " mottatt";
    } else {
      if envelope.recipient != submission.mailbox || envelope.replyTo != input.email { return false; }
      if envelope.subject != "Ny søker til " + submission.teamName { return false; }
      var lines := ["Navn: " + input.name, "E-post: " + input.email, "Telefon: " + input.phone,
                    "Studieår: " + input.yearOfStudy, "Linje: " + input.fieldOfStudy, input.biography,
                    input.motivation];
      ok := IncludesAll(envelope.text, lines);
      assert lines[0] == "Navn: " + input.name && lines[1] == "E-post: " + input.email;
      assert lines[2] == "Telefon: " + input.phone && lines[3] == "Studieår: " + input.yearOfStudy;
      assert lines[4] == "Linje: " + input.fieldOfStudy && lines[5] == input.biography && lines[6] == input.motivation;
    }
  }

  method VerifyRow(step: Step, ghost record: Record, deleted: bool, submission: Submission, row: Row)
    returns (ok: bool)
    requires deleted <==> WasDeleted(record, submission.application)
    ensures ok <==> RowFits(step, record, submission, row)
  {
    var settled := if deleted then Some(Cancelled)
                   else if submission.kind == First || (submission.kind == Fallback && step == UnattendedRecovery)
                   then Some(Delivered)
                   else None;
    if row.effect != row.command + ":" + row.effectType { return false; }
    if settled.None? {
      if row.status == Cancelled || row.status == Delivered || row.attempts <= 0 { return false; }
      if !row.payload.Retained? { return false; }
      ok := VerifyEnvelope(submission, row, row.payload.envelope);
    } else {
      if row.status != settled.value || row.payload != Removed { return false; }
      ok := settled == Some(Cancelled) ==> row.failure == Some(DELETED);
    }
  }

  method VerifySubmission(step: Step, record: Record, facts: Facts, submission: Submission) returns (ok: bool)
    ensures ok <==> SubmissionFits(step, record, facts, submission)
  {
    var rows := Filter(facts.outbox, ApplicationOf, submission.application);
    var command := CommandOf(Submits(facts), submission.application);
    if command.None? || |rows| != 2 { return false; }
    if rows[0].ordinal != 0 || rows[0].effectType != RECEIPT { return false; }
    if rows[1].ordinal != 1 || rows[1].effectType != NOTIFICATION { return false; }
    if rows[0].command != command.value || rows[1].command != command.value { return false; }
    if rows[0].team != submission.team || rows[1].team != submission.team { return false; }
    var deleted := submission.application in Gone(record.deletions);
    ok := VerifyRow(step, record, deleted, submission, rows[0]);
    if ok { ok := VerifyRow(step, record, deleted, submission, rows[1]); }
  }

  method VerifyOutbox(step: Step, record: Record, facts: Facts) returns (ok: bool)
    ensures ok <==> OutboxFits(step, record, facts)
  {
    if |facts.outbox| != |record.submissions| * 2 { return false; }
    for n := 0 to |record.submissions|
      invariant forall i :: 0 <= i < n ==> SubmissionFits(step, record, facts, record.submissions[i])
    {
      var fits := VerifySubmission(step, record, facts, record.submissions[n]);
      if !fits { return false; }
    }
    ok := true;
  }

  /** The submissions that were not deleted. */
  method Remaining(record: Record) returns (live: seq<Submission>)
    ensures live == Live(record)
  {
    var gone := Gone(record.deletions);
    live := [];
    for n := 0 to |record.submissions|
      invariant live == Part(record.submissions[..n], gone, false)
    {
      if record.submissions[n].application !in gone { live := live + [record.submissions[n]]; }
      assert record.submissions[..n + 1][..n] == record.submissions[..n];
    }
    assert record.submissions[..|record.submissions|] == record.submissions;
  }

  method VerifyStored(record: Record, facts: Facts) returns (ok: bool)
    ensures ok <==> StoredFits(record, facts)
  {
    var live := Remaining(record);
    var stored := facts.applications;
    if |stored| != |live| { return false; }
    for n := 0 to |live|
      invariant forall i :: 0 <= i < n ==>
        stored[i].id == live[i].application && stored[i].team == live[i].team && stored[i].input == live[i].input
    {
      if stored[n].id != live[n].application || stored[n].team != live[n].team || stored[n].input != live[n].input {
        return false;
      }
    }
    for n := 0 to |live|
      invariant forall i :: 0 <= i < n ==> InstantOf(stored, live[i].application) == Some(live[i].submittedAt)
    {
      if InstantOf(stored, live[n].application) != Some(live[n].submittedAt) { return false; }
    }
    ok := true;
  }

  method VerifyCommands(record: Record, facts: Facts) returns (ok: bool)
    ensures ok <==> CommandsFit(record, facts)
  {
    var submits, deletes := Submits(facts), Filter(facts.commands, OperationOf, Delete);
    if |submits| != |record.submissions| || |deletes| != |record.deletions| { return false; }
    for n := 0 to |submits|
      invariant forall i :: 0 <= i < n ==>
        submits[i].application == record.submissions[i].application && submits[i].team == record.submissions[i].team
    {
      var command, submission := submits[n], record.submissions[n];
      if command.application != submission.application || command.team != submission.team { return false; }
    }
    for n := 0 to |deletes|
      invariant forall i :: 0 <= i < n ==> deletes[i].application == record.deletions[i].application
    {
      if deletes[n].application != record.deletions[n].application { return false; }
    }
    if |Filter(facts.commands, OperationOf, Revise)| != record.revisions { return false; }
    ok := |facts.commands| == |record.submissions| + |record.deletions| + record.revisions;
  }

  /** The receipts as a map from their identities: the last one under each. */
  method Indexed(receipts: seq<HttpReceipt>) returns (stored: map<Identity, HttpReceipt>)
    ensures forall id :: ReceiptUnder(receipts, id) == if id in stored then Some(stored[id]) else None
  {
    stored := map[];
    for n := 0 to |receipts|
      invariant forall id :: ReceiptUnder(receipts[..n], id) == if id in stored then Some(stored[id]) else None
    {
      stored := stored[receipts[n].identity := receipts[n]];
      assert receipts[..n + 1][..n] == receipts[..n];
    }
    assert receipts[..|receipts|] == receipts;
  }

  method VerifyReceipts(record: Record, facts: Facts) returns (ok: bool)
    ensures ok <==> ReceiptsFit(record, facts)
  {
    var stored := Indexed(facts.receipts);
    for n := 0 to |record.submissions|
      invariant forall i :: 0 <= i < n ==> Confirms(facts.receipts, record.submissions[i])
    {
      var submission := record.submissions[n];
      var id := Identity(ANONYMOUS, Submit, submission.team, submission.key);
      assert id == SubmitIdentity(submission);
      if id !in stored || stored[id].status != Some(201) { return false; }
      var confirmation := Confirmation(submission.application, submission.team, submission.submittedAt);
      if stored[id].body != Some(confirmation) { return false; }
    }
    for n := 0 to |record.deletions|
      invariant forall i :: 0 <= i < n ==> DeleteReceived(facts.receipts, record.deletions[i])
    {
      var deletion := record.deletions[n];
      if Identity(LEADER, Delete, deletion.application, deletion.key) !in stored { return false; }
    }
    if |Filter(facts.receipts, OperationIn, Some(Delete))| != |record.deletions| { return false; }
    if |Filter(facts.receipts, OperationIn, Some(Revise))| != record.revisions { return false; }
    if |Filter(facts.receipts, OperationIn, Some(Submit))| != |record.submissions| { return false; }
    ok := |Filter(facts.receipts, OperationIn, None)| == 0;
  }

  method VerifyAuditRow(row: string, submissions: seq<Submission>) returns (ok: bool)
    ensures ok <==> forall i :: 0 <= i < |submissions| ==> Silent(row, submissions[i].input)
  {
    for n := 0 to |submissions|
      invariant forall i :: 0 <= i < n ==> Silent(row, submissions[i].input)
    {
      var input := submissions[n].input;
      var values := [input.name, input.email, input.phone, input.biography, input.motivation];
      var silent := IncludesNone(row, values);
      assert values[0] == input.name && values[1] == input.email && values[2] == input.phone;
      assert values[3] == input.biography && values[4] == input.motivation;
      if !silent { return false; }
    }
    ok := true;
  }

  method VerifyAudit(record: Record, facts: Facts) returns (ok: bool)
    ensures ok <==> AuditSilent(record, facts)
  {
    for n := 0 to |facts.auditRows|
      invariant forall i, k :: 0 <= i < |record.submissions| && 0 <= k < n ==>
        Silent(facts.auditRows[k], record.submissions[i].input)
    {
      var silent := VerifyAuditRow(facts.auditRows[n], record.submissions);
      if !silent { return false; }
    }
    ok := true;
  }

  method VerifyCommitted(record: Record, facts: Facts) returns (ok: bool)
    ensures ok <==> CommittedFits(record, facts)
  {
    if facts.tables != record.expected { return false; }
    ok := VerifyStored(record, facts);
    if ok { ok := VerifyCommands(record, facts); }
    if ok { ok := VerifyReceipts(record, facts); }
    if ok { ok := VerifyAudit(record, facts); }
  }

  method VerifyDeleted(record: Record, facts: Facts) returns (ok: bool)
    ensures ok <==> WordsGone(record, facts)
  {
    for n := 0 to |record.deletions|
      invariant forall i :: 0 <= i < n ==> Forgotten(record, facts, record.deletions[i])
    {
      var removed := FirstOf(record.submissions, record.deletions[n].application);
      if removed.None? { return false; }
      var values := [removed.value.input.biography, removed.value.input.motivation];
      var gone := IncludesNone(facts.text, values);
      assert values[0] == removed.value.input.biography && values[1] == removed.value.input.motivation;
      if !gone { return false; }
    }
    ok := true;
  }

  /** A row without its delivery progress, and facts without what may change under a read-only step. */
  function StableRow(row: Row): Row { row.(status := Pending, attempts := 0, failure := None) }

  function StableRows(rows: seq<Row>): (stable: seq<Row>)
    ensures |stable| == |rows| && forall i :: 0 <= i < |rows| ==> stable[i] == StableRow(rows[i])
  {
    seq(|rows|, i requires 0 <= i < |rows| => StableRow(rows[i]))
  }

  function Stable(facts: Facts): Facts {
    facts.(outbox := StableRows(facts.outbox), tables := facts.tables.(memberships := 0, lifecycle := 0), text := "")
  }

  /** What is compared of two snapshots is all but that progress. */
  lemma StableExactly(before: Facts, now: Facts)
    ensures Stable(now) == Stable(before) <==> OnlyProgress(before, now)
  {
    if Stable(now) == Stable(before) {
      assert |StableRows(now.outbox)| == |StableRows(before.outbox)|;
      forall k | 0 <= k < |now.outbox| ensures SameNotification(before.outbox[k], now.outbox[k]) {
        assert StableRow(now.outbox[k]) == StableRows(now.outbox)[k] == StableRow(before.outbox[k]);
      }
    }
    if OnlyProgress(before, now) { assert StableRows(now.outbox) == StableRows(before.outbox); }
  }

  lemma {:induction false} FilterFinds(attempts: seq<Attempt>, id: string)
    ensures Filter(attempts, DeliveryOf, id) != [] <==> id in Deliveries(attempts)
    ensures forall i :: 0 <= i < |Filter(attempts, DeliveryOf, id)| ==>
              DeliveryOf(Filter(attempts, DeliveryOf, id)[i]) == id && Filter(attempts, DeliveryOf, id)[i] in attempts
  {
    if attempts != [] {
      var n := |attempts| - 1;
      FilterFinds(attempts[..n], id);
      assert attempts == attempts[..n] + [attempts[n]];
      assert Deliveries(attempts) == Deliveries(attempts[..n]) + {DeliveryOf(attempts[n])};
    }
  }

  class Observer {
    var prior: Option<Facts>
    var deliveredAtSubmitted: set<string>

    function Remembered(): Memory
      reads this
    {
      Memory(prior, deliveredAtSubmitted)
    }

    constructor ()
      ensures Remembered() == Memory(None, {})
    {
      prior, deliveredAtSubmitted := None, {};
    }

    /** Every attempt is checked and put with the earlier ones of its delivery. */
    method Group(attempts: seq<Attempt>, outbox: seq<Row>) returns (ok: bool, byDelivery: map<string, seq<Attempt>>)
      ensures ok <==> forall i :: 0 <= i < |attempts| ==> AttemptFits(attempts[i], outbox)
      ensures ok ==> Groups(attempts, byDelivery)
    {
      var effects := set k | 0 <= k < |outbox| :: outbox[k].effect;
      byDelivery := map[];
      ok := true;
      for n := 0 to |attempts|
        invariant ok && forall i :: 0 <= i < n ==> AttemptFits(attempts[i], outbox)
        invariant Groups(attempts[..n], byDelivery)
      {
        var attempt := attempts[n];
        if attempt.rejected || attempt.body.None? { return false, byDelivery; }
        var id := attempt.body.value.envelope.deliveryId;
        if attempt.key != id || attempt.body.value.sender != SENDER { return false, byDelivery; }
        if id !in effects { return false, byDelivery; }
        var earlier := if id in byDelivery then byDelivery[id] else [];
        byDelivery := byDelivery[id := earlier + [attempt]];
        assert attempts[..n + 1][..n] == attempts[..n];
      }
      assert attempts[..|attempts|] == attempts;
    }

    /** One row against the attempts of its delivery. */
    method VerifyDelivery(record: Record, row: Row, attempts: seq<Attempt>) returns (ok: bool)
      ensures ok <==> DeliveryFits(record, row, attempts)
    {
      var accepted := [];
      for n := 0 to |attempts|
        invariant accepted == Acknowledged(attempts[..n])
      {
        if attempts[n].status == 204 { accepted := accepted + [attempts[n]]; }
        assert attempts[..n + 1][..n] == attempts[..n];
      }
      assert attempts[..|attempts|] == attempts;
      var submission := FirstOf(record.submissions, row.application);
      if row.status == Delivered {
        if accepted == [] { return false; }
      } else if row.status != Processing && accepted != [] {
        return false;
      }
      ok := true;
      if submission.Some? && accepted != [] {
        if accepted[0].body.None? { return false; }
        ok := VerifyEnvelope(submission.value, row, accepted[0].body.value.envelope);
      }
    }

    /** Each row against the attempts of its delivery. */
    method VerifyRows(record: Record, facts: Facts, byDelivery: map<string, seq<Attempt>>, ghost attempts: seq<Attempt>)
      returns (ok: bool)
      requires Groups(attempts, byDelivery)
      ensures ok <==> RowsFit(record, facts, attempts, |facts.outbox|)
    {
      for i := 0 to |facts.outbox|
        invariant RowsFit(record, facts, attempts, i)
      {
        var row := facts.outbox[i];
        var delivered := if row.effect in byDelivery then byDelivery[row.effect] else [];
        assert delivered == Filter(attempts, DeliveryOf, row.effect);
        var fits := VerifyDelivery(record, row, delivered);
        if !fits { return false; }
      }
      ok := true;
    }

    /** Bodies never change between the attempts of a delivery, and each row fits its attempts. */
    method VerifyProvider(record: Record, facts: Facts, attempts: seq<Attempt>)
      returns (ok: bool, deliveries: set<string>)
      ensures ok <==> ProviderFits(record, facts, attempts)
      ensures ok ==> deliveries == Deliveries(attempts)
    {
      var grouped, byDelivery := Group(attempts, facts.outbox);
      deliveries := byDelivery.Keys;
      if !grouped { return false, deliveries; }
      GroupsSay(attempts, byDelivery);
      if !OneBodyPerKey(byDelivery) { return false, deliveries; }
      ok := VerifyRows(record, facts, byDelivery, attempts);
    }

    /** Read-only and rejected steps change nothing but delivery progress. */
    method VerifyUnchanged(step: Step, facts: Facts) returns (ok: bool)
      ensures ok <==> (prior.Some? && ChangesNothing(step) ==> OnlyProgress(prior.value, facts))
    {
      ok := true;
      if prior.Some? && ReadOnly(step) {
        StableExactly(prior.value, facts);
        ok := Stable(facts) == Stable(prior.value);
      }
    }

    /** The checkpoint's comparisons in their order. */
    method Verify(step: Step, record: Record, facts: Facts, attempts: seq<Attempt>) returns (ok: bool)
      modifies this
      ensures ok <==> Accepts(old(Remembered()), step, record, facts, attempts)
      ensures prior == old(prior)
      ensures ok ==> deliveredAtSubmitted == After(old(Remembered()), step, facts, attempts).deliveredAtSubmitted
    {
      ok := VerifyCommitted(record, facts);
      if !ok { return; }
      ok := VerifyOutbox(step, record, facts);
      if !ok { return; }
      var provided, deliveries := VerifyProvider(record, facts, attempts);
      if !provided { return false; }
      if step == Submitted { deliveredAtSubmitted := deliveries; }
      if step == SubmissionReplay && deliveries != deliveredAtSubmitted { return false; }
      ok := VerifyDeleted(record, facts);
      if ok { ok := VerifyUnchanged(step, facts); }
    }

    /** An accepted checkpoint becomes the prior one; a refused one ends the journey. */
    method Observe(step: Step, record: Record, facts: Facts, attempts: seq<Attempt>) returns (ok: bool)
      modifies this
      ensures ok <==> Accepts(old(Remembered()), step, record, facts, attempts)
      ensures ok ==> Remembered() == After(old(Remembered()), step, facts, attempts)
      ensures !ok ==> prior == old(prior)
    {
      ok := Verify(step, record, facts, attempts);
      if ok { prior := Some(facts); }
    }
  }

  predicate SameBody(attempts: seq<Attempt>) {
    forall i, j :: 0 <= i < |attempts| && 0 <= j < |attempts| ==> attempts[i].bodySha256 == attempts[j].bodySha256
  }

  predicate OneBodyPerKey(byDelivery: map<string, seq<Attempt>>) {
    forall id :: id in byDelivery ==> SameBody(byDelivery[id])
  }

  lemma GroupsSay(attempts: seq<Attempt>, byDelivery: map<string, seq<Attempt>>)
    requires Groups(attempts, byDelivery)
    ensures byDelivery.Keys == Deliveries(attempts)
    ensures OneBodyPerKey(byDelivery) <==> OneBodyEach(attempts)
  {
    forall id ensures id in byDelivery <==> id in Deliveries(attempts) { FilterFinds(attempts, id); }
    if OneBodyPerKey(byDelivery) {
      forall i, j | 0 <= i < |attempts| && 0 <= j < |attempts| && DeliveryOf(attempts[i]) == DeliveryOf(attempts[j])
        ensures attempts[i].bodySha256 == attempts[j].bodySha256
      {
        FilterHas(attempts, i);
        FilterHas(attempts, j);
        assert SameBody(byDelivery[DeliveryOf(attempts[i])]);
      }
    }
    if OneBodyEach(attempts) {
      forall id | id in byDelivery ensures SameBody(byDelivery[id]) { FilterFinds(attempts, id); }
    }
  }

  lemma FilterHas(attempts: seq<Attempt>, i: nat)
    requires i < |attempts|
    ensures attempts[i] in Filter(attempts, DeliveryOf, DeliveryOf(attempts[i]))
  {
    FilterKeeps(attempts, DeliveryOf, DeliveryOf(attempts[i]), attempts[i]);
    assert attempts[i] in multiset(attempts);
    assert attempts[i] in multiset(Filter(attempts, DeliveryOf, DeliveryOf(attempts[i])));
  }

  // ---- What an accepted checkpoint means --------------------------------------------------------------------

  function ApplicationsOf(submissions: seq<Submission>): (applications: seq<string>)
    ensures |applications| == |submissions|
    ensures forall i :: 0 <= i < |submissions| ==> applications[i] == submissions[i].application
  {
    seq(|submissions|, i requires 0 <= i < |submissions| => submissions[i].application)
  }

  /** What the primary key of the stored applications guarantees. */
  ghost predicate Keyed(facts: Facts) {
    forall i, j :: 0 <= i < j < |facts.applications| ==> facts.applications[i].id != facts.applications[j].id
  }

  /** No deleted application is among the submissions twice. */
  ghost predicate DeletedOnce(record: Record) {
    Distinct(ApplicationsOf(Part(record.submissions, Gone(record.deletions), true)))
  }

  lemma {:induction false} PartHas(submissions: seq<Submission>, deletions: seq<string>, gone: bool, a: string)
    ensures a in ApplicationsOf(Part(submissions, deletions, gone))
       <==> a in ApplicationsOf(submissions) && (a in deletions) == gone
  {
    if submissions != [] {
      var n := |submissions| - 1;
      PartHas(submissions[..n], deletions, gone, a);
      ApplicationsNext(submissions[..n], submissions[n]);
      ApplicationsNext(Part(submissions[..n], deletions, gone), submissions[n]);
      assert submissions == submissions[..n] + [submissions[n]];
    }
  }

  lemma ApplicationsNext(submissions: seq<Submission>, last: Submission)
    ensures ApplicationsOf(submissions + [last]) == ApplicationsOf(submissions) + [last.application]
  {}

  /** Live and deleted submissions share no application, so all differ exactly when each part's do. */
  lemma {:induction false} PartsDistinct(submissions: seq<Submission>, deletions: seq<string>)
    ensures Distinct(ApplicationsOf(submissions)) <==>
              && Distinct(ApplicationsOf(Part(submissions, deletions, true)))
              && Distinct(ApplicationsOf(Part(submissions, deletions, false)))
  {
    if submissions != [] {
      var n := |submissions| - 1;
      var last, gone := submissions[n], submissions[n].application in deletions;
      PartsDistinct(submissions[..n], deletions);
      PartHas(submissions[..n], deletions, gone, last.application);
      DistinctNext(submissions[..n], last);
      DistinctNext(Part(submissions[..n], deletions, gone), last);
      assert submissions == submissions[..n] + [last];
    }
  }

  lemma DistinctNext(submissions: seq<Submission>, last: Submission)
    ensures Distinct(ApplicationsOf(submissions + [last])) <==>
              Distinct(ApplicationsOf(submissions)) && last.application !in ApplicationsOf(submissions)
  {
    ApplicationsNext(submissions, last);
    AppendDistinct(ApplicationsOf(submissions), [last.application]);
  }

  /** The comparison with the stored applications, whose ids are a primary key, makes the live submissions differ. */
  lemma LiveDistinct(record: Record, facts: Facts)
    requires StoredFits(record, facts) && Keyed(facts)
    ensures Distinct(ApplicationsOf(Live(record)))
    ensures Distinct(ApplicationsOf(record.submissions)) <==> DeletedOnce(record)
  {
    var live := Live(record);
    forall i, j | 0 <= i < j < |live| ensures ApplicationsOf(live)[i] != ApplicationsOf(live)[j] {
      assert facts.applications[i].id != facts.applications[j].id;
    }
    PartsDistinct(record.submissions, Gone(record.deletions));
  }

  lemma {:induction false} InstantAt(applications: seq<Application>, i: nat)
    requires i < |applications|
    requires forall k, n :: 0 <= k < n < |applications| ==> applications[k].id != applications[n].id
    ensures InstantOf(applications, applications[i].id) == Some(applications[i].submittedAt)
  {
    if i > 0 { InstantAt(applications[1..], i - 1); }
  }

  /** So the comparison holds exactly when what is stored is what was submitted and not deleted, each application in
      its place with its instant. */
  lemma StoredExactly(record: Record, facts: Facts)
    requires Keyed(facts)
    ensures StoredFits(record, facts) <==>
              && |facts.applications| == |Live(record)|
              && forall i :: 0 <= i < |facts.applications| ==>
                   var s := Live(record)[i];
                   facts.applications[i] == Application(s.application, s.team, s.input, s.submittedAt)
  {
    if |facts.applications| == |Live(record)| {
      forall i | 0 <= i < |facts.applications|
        ensures InstantOf(facts.applications, facts.applications[i].id) == Some(facts.applications[i].submittedAt)
      {
        InstantAt(facts.applications, i);
      }
    }
  }

  /** An accepted outbox has no row of any other application exactly when no deleted application was submitted
      twice. */
  lemma NoStraysExactly(step: Step, record: Record, facts: Facts)
    requires StoredFits(record, facts) && Keyed(facts) && OutboxFits(step, record, facts)
    ensures AllUnder(facts.outbox, ApplicationOf, ApplicationsOf(record.submissions)) <==> DeletedOnce(record)
  {
    var applications := ApplicationsOf(record.submissions);
    LiveDistinct(record, facts);
    forall i | 0 <= i < |applications| ensures |Filter(facts.outbox, ApplicationOf, applications[i])| == 2 {
      assert SubmissionFits(step, record, facts, record.submissions[i]);
    }
    StraysExactly(facts.outbox, applications, ApplicationOf, 2);
  }

  /** The outbox holds two notifications of each submission, as its checks want them, and nothing else: no row
      belongs to no submission. */
  lemma EveryRowBelongs(step: Step, record: Record, facts: Facts, k: nat) returns (i: nat)
    requires StoredFits(record, facts) && Keyed(facts) && DeletedOnce(record)
    requires OutboxFits(step, record, facts) && k < |facts.outbox|
    ensures i < |record.submissions| && facts.outbox[k].application == record.submissions[i].application
    ensures RowFits(step, record, record.submissions[i], facts.outbox[k])
    ensures facts.outbox[k] in Filter(facts.outbox, ApplicationOf, record.submissions[i].application)
  {
    var applications := ApplicationsOf(record.submissions);
    var row := facts.outbox[k];
    NoStraysExactly(step, record, facts);
    assert row in facts.outbox;
    i :| 0 <= i < |applications| && applications[i] == row.application;
    FilterKeeps(facts.outbox, ApplicationOf, row.application, row);
    assert row in multiset(facts.outbox);
    assert row in multiset(Filter(facts.outbox, ApplicationOf, row.application));
    OneOfPair(step, record, facts, record.submissions[i], row);
  }

  lemma OneOfPair(step: Step, record: Record, facts: Facts, submission: Submission, row: Row)
    requires SubmissionFits(step, record, facts, submission)
    requires row in Filter(facts.outbox, ApplicationOf, submission.application)
    ensures RowFits(step, record, submission, row)
  {}

  /** A deleted application submitted twice leaves room for two strays that these comparisons let through. */
  lemma RepeatedSubmissionHidesStrays(
      step: Step, record: Record, facts: Facts, submission: Submission, strays: seq<Row>)
    requires record.submissions == [submission, submission] && submission.application in Gone(record.deletions)
    requires StoredFits(record, facts) && CommandsFit(record, facts)
    requires |facts.outbox| == 2 && SubmissionFits(step, record, facts, submission)
    requires |strays| == 2 && strays[0].application == strays[1].application != submission.application
    ensures var more := facts.(outbox := facts.outbox + strays);
            && StoredFits(record, more) && CommandsFit(record, more) && OutboxFits(step, record, more)
            && !AllUnder(more.outbox, ApplicationOf, ApplicationsOf(record.submissions))
  {
    FilterAppend(facts.outbox, strays, ApplicationOf, submission.application);
    FilterUniform(strays, ApplicationOf, submission.application, strays[0].application);
    var own := Filter(facts.outbox, ApplicationOf, submission.application);
    assert Filter(facts.outbox + strays, ApplicationOf, submission.application) == own + [] == own;
    assert strays[0] in facts.outbox + strays;
  }

  /** The command is the id of the first submit receipt of the application. */
  lemma {:induction false} CommandFirst(submits: seq<Command>, application: string)
    ensures CommandOf(submits, application).None? <==> forall c :: c in submits ==> c.application != application
    ensures CommandOf(submits, application).Some? ==>
              exists i :: 0 <= i < |submits| && submits[i].application == application
                          && submits[i].id == CommandOf(submits, application).value
                          && forall k :: 0 <= k < i ==> submits[k].application != application
  {
    if submits != [] && submits[0].application != application {
      CommandFirst(submits[1..], application);
      assert submits == [submits[0]] + submits[1..];
      if CommandOf(submits, application).Some? {
        var i :| 0 <= i < |submits[1..]| && submits[1..][i].application == application
                 && submits[1..][i].id == CommandOf(submits, application).value
                 && forall k :: 0 <= k < i ==> submits[1..][k].application != application;
        assert submits[i + 1] == submits[1..][i];
        assert forall k :: 1 <= k < i + 1 ==> submits[k] == submits[1..][k - 1];
      }
    }
  }

  /** What is found is the first submission of the application. */
  lemma {:induction false} FirstFound(submissions: seq<Submission>, application: string)
    ensures FirstOf(submissions, application).None? <==>
              forall k :: 0 <= k < |submissions| ==> submissions[k].application != application
    ensures FirstOf(submissions, application).Some? ==>
              exists i :: 0 <= i < |submissions| && submissions[i] == FirstOf(submissions, application).value
                          && submissions[i].application == application
                          && forall k :: 0 <= k < i ==> submissions[k].application != application
  {
    if submissions != [] && submissions[0].application != application {
      var rest := submissions[1..];
      FirstFound(rest, application);
      assert forall k :: 1 <= k < |submissions| ==> submissions[k] == rest[k - 1];
      if FirstOf(submissions, application).Some? {
        var i :| 0 <= i < |rest| && rest[i] == FirstOf(submissions, application).value
                 && rest[i].application == application && forall k :: 0 <= k < i ==> rest[k].application != application;
        assert submissions[i + 1] == rest[i];
      } else {
        assert forall k :: 0 <= k < |rest| ==> rest[k] == submissions[k + 1];
      }
    }
  }

  // ---- The HTTP receipts ---------------------------------------------------------------------------------

  /** What the primary key and the writer of the HTTP receipts guarantee: identities differ, and the operation of a
      receipt is the one its identity was made of. */
  ghost predicate ReceiptsKeyed(receipts: seq<HttpReceipt>) {
    && Distinct(Keys(receipts, IdentityOf))
    && forall i :: 0 <= i < |receipts| && receipts[i].operation.Some? ==>
         receipts[i].operation.value == receipts[i].identity.operation
  }

  ghost function SubmitIdentities(submissions: seq<Submission>): (identities: seq<Identity>)
    ensures |identities| == |submissions|
    ensures forall i :: 0 <= i < |identities| ==> identities[i] == SubmitIdentity(submissions[i])
  {
    seq(|submissions|, i requires 0 <= i < |submissions| => SubmitIdentity(submissions[i]))
  }

  /** The receipts of one operation, under identities of which none is twice. */
  lemma {:induction false} FilteredKeys(receipts: seq<HttpReceipt>, operation: Option<Operation>)
    requires Distinct(Keys(receipts, IdentityOf))
    ensures Distinct(Keys(Filter(receipts, OperationIn, operation), IdentityOf))
    ensures forall k :: k in Keys(Filter(receipts, OperationIn, operation), IdentityOf) ==>
              k in Keys(receipts, IdentityOf)
  {
    if receipts != [] {
      var n := |receipts| - 1;
      var before, last := Filter(receipts[..n], OperationIn, operation), receipts[n];
      AppendDistinct(Keys(receipts[..n], IdentityOf), [last.identity]);
      FilteredKeys(receipts[..n], operation);
      AppendDistinct(Keys(before, IdentityOf), [last.identity]);
      assert (before + [last])[..|before|] == before;
    }
  }

  lemma {:induction false} ReceiptFound(receipts: seq<HttpReceipt>, identity: Identity)
    requires ReceiptUnder(receipts, identity).Some?
    ensures ReceiptUnder(receipts, identity).value in receipts
    ensures ReceiptUnder(receipts, identity).value.identity == identity
  {
    if receipts[|receipts| - 1].identity != identity { ReceiptFound(receipts[..|receipts| - 1], identity); }
  }

  /** The receipt found under a form key is the one submit receipt there. */
  lemma OneReceipt(receipts: seq<HttpReceipt>, submission: Submission)
    requires ReceiptsKeyed(receipts) && |Filter(receipts, OperationIn, None)| == 0
    requires Confirms(receipts, submission)
    ensures |Filter(Filter(receipts, OperationIn, Some(Submit)), IdentityOf, SubmitIdentity(submission))| == 1
  {
    var identity := SubmitIdentity(submission);
    var rows, found := Filter(receipts, OperationIn, Some(Submit)), ReceiptUnder(receipts, identity).value;
    ReceiptFound(receipts, identity);
    SubmitReceipt(receipts, found);
    FilteredKeys(receipts, Some(Submit));
    FilterCounts(rows, IdentityOf, identity);
    KeysCover(rows, IdentityOf, found);
    DistinctCounts(Keys(rows, IdentityOf), identity);
  }

  lemma SubmitReceipt(receipts: seq<HttpReceipt>, found: HttpReceipt)
    requires ReceiptsKeyed(receipts) && |Filter(receipts, OperationIn, None)| == 0
    requires found in receipts && found.identity.operation == Submit
    ensures found in Filter(receipts, OperationIn, Some(Submit))
  {
    FilterKeeps(receipts, OperationIn, found.operation, found);
    assert found in multiset(receipts);
    assert found in multiset(Filter(receipts, OperationIn, found.operation));
    assert found.operation.None? ==> Filter(receipts, OperationIn, None) == [];
  }

  /** Accepted submit receipts are those of the form keys and no others exactly when no form key was used twice with
      the same team: no rejected submission left a receipt. */
  lemma ReceiptsExactly(record: Record, facts: Facts)
    requires ReceiptsFit(record, facts) && ReceiptsKeyed(facts.receipts)
    ensures var rows := Filter(facts.receipts, OperationIn, Some(Submit));
            var identities := SubmitIdentities(record.submissions);
            AllUnder(rows, IdentityOf, identities) <==> Distinct(identities)
  {
    var rows, identities := Filter(facts.receipts, OperationIn, Some(Submit)), SubmitIdentities(record.submissions);
    forall i | 0 <= i < |identities| ensures |Filter(rows, IdentityOf, identities[i])| == 1 {
      OneReceipt(facts.receipts, record.submissions[i]);
    }
    StraysExactly(rows, identities, IdentityOf, 1);
  }

  // ---- The provider ----------------------------------------------------------------------------------------

  lemma {:induction false} AcknowledgedExactly(attempts: seq<Attempt>, id: string)
    ensures Acknowledged(Filter(attempts, DeliveryOf, id)) != []
       <==> exists i :: 0 <= i < |attempts| && DeliveryOf(attempts[i]) == id && attempts[i].status == 204
  {
    if attempts != [] {
      var n := |attempts| - 1;
      var before, found := Filter(attempts[..n], DeliveryOf, id), Filter(attempts, DeliveryOf, id);
      AcknowledgedExactly(attempts[..n], id);
      if DeliveryOf(attempts[n]) == id { assert found[..|found| - 1] == before; }
      if i :| 0 <= i < n && DeliveryOf(attempts[i]) == id && attempts[i].status == 204 {
        assert attempts[..n][i] == attempts[i];
      }
      if Acknowledged(before) != [] {
        var i :| 0 <= i < n && DeliveryOf(attempts[..n][i]) == id && attempts[..n][i].status == 204;
        assert attempts[i] == attempts[..n][i];
      }
    }
  }

  ghost predicate AcknowledgedOnce(attempts: seq<Attempt>, id: string) {
    exists i :: 0 <= i < |attempts| && DeliveryOf(attempts[i]) == id && attempts[i].status == 204
  }

  /** Every delivered notification was acknowledged, no pending, failed or cancelled one ever was, the
      attempts of one delivery carry one body, and every attempt names a committed notification. */
  lemma DeliveriesMean(record: Record, facts: Facts, attempts: seq<Attempt>)
    requires ProviderFits(record, facts, attempts)
    ensures forall k :: 0 <= k < |facts.outbox| && facts.outbox[k].status == Delivered ==>
              AcknowledgedOnce(attempts, facts.outbox[k].effect)
    ensures forall k :: 0 <= k < |facts.outbox| && facts.outbox[k].status in {Pending, Failed, Cancelled} ==>
              !AcknowledgedOnce(attempts, facts.outbox[k].effect)
    ensures forall i, j :: 0 <= i < |attempts| && 0 <= j < |attempts|
                           && DeliveryOf(attempts[i]) == DeliveryOf(attempts[j]) ==>
              attempts[i].bodySha256 == attempts[j].bodySha256
    ensures forall i :: 0 <= i < |attempts| ==> Queued(facts.outbox, DeliveryOf(attempts[i]))
  {
    forall k | 0 <= k < |facts.outbox|
      ensures facts.outbox[k].status == Delivered ==> AcknowledgedOnce(attempts, facts.outbox[k].effect)
      ensures facts.outbox[k].status in {Pending, Failed, Cancelled} ==>
              !AcknowledgedOnce(attempts, facts.outbox[k].effect)
    {
      AcknowledgedExactly(attempts, facts.outbox[k].effect);
      assert DeliveryFits(record, facts.outbox[k], Filter(attempts, DeliveryOf, facts.outbox[k].effect));
    }
  }

  // ---- Whole journeys ------------------------------------------------------------------------------------------

  datatype Checkpoint = Checkpoint(step: Step, record: Record, facts: Facts, attempts: seq<Attempt>)

  ghost predicate AcceptedThen(memory: Memory, c: Checkpoint) { Accepts(memory, c.step, c.record, c.facts, c.attempts) }

  ghost function Remembers(memory: Memory, c: Checkpoint): Memory { After(memory, c.step, c.facts, c.attempts) }

  ghost function Checked(memory: Memory, c: Checkpoint): Option<Memory> {
    if AcceptedThen(memory, c) then Some(Remembers(memory, c)) else None
  }

  /** Steps one after the other, as long as each gives something. */
  ghost function Folded<M, C>(step: (M, C) -> Option<M>, start: M, items: seq<C>): Option<M> {
    if items == [] then Some(start)
    else
      var before := Folded(step, start, items[..|items| - 1]);
      if before.Some? then step(before.value, items[|items| - 1]) else None
  }

  /** The observer's memory after the checkpoints, when all were accepted. */
  ghost function Journey(checkpoints: seq<Checkpoint>): Option<Memory> {
    Folded(Checked, Memory(None, {}), checkpoints)
  }

  /** All the states of a fold that gives something. */
  lemma {:induction false} FoldedStates<M, C>(step: (M, C) -> Option<M>, start: M, items: seq<C>)
    returns (states: seq<M>)
    requires Folded(step, start, items).Some?
    ensures |states| == |items| + 1 && states[|items|] == Folded(step, start, items).value
    ensures forall k :: 0 <= k < |items| ==> step(states[k], items[k]) == Some(states[k + 1])
  {
    if items == [] {
      states := [start];
    } else {
      var n := |items| - 1;
      var before := FoldedStates(step, start, items[..n]);
      states := before + [Folded(step, start, items).value];
    }
  }

  lemma CheckedRemembers(memory: Memory, c: Checkpoint, next: Memory)
    requires Checked(memory, c) == Some(next)
    ensures AcceptedThen(memory, c) && next == Remembers(memory, c)
  {}

  /** Each checkpoint is accepted against the memory that the one before it left. */
  ghost predicate Follow(memories: seq<Memory>, checkpoints: seq<Checkpoint>) {
    && |memories| == |checkpoints| + 1
    && (forall k :: 0 <= k < |checkpoints| ==> AcceptedThen(memories[k], checkpoints[k]))
    && (forall k :: 0 <= k < |checkpoints| ==> memories[k + 1] == Remembers(memories[k], checkpoints[k]))
  }

  /** The memories an accepted journey went through. */
  lemma Memories(checkpoints: seq<Checkpoint>) returns (memories: seq<Memory>)
    requires Journey(checkpoints).Some?
    ensures Follow(memories, checkpoints)
  {
    memories := FoldedStates(Checked, Memory(None, {}), checkpoints);
    forall k | 0 <= k < |checkpoints|
      ensures AcceptedThen(memories[k], checkpoints[k]) && memories[k + 1] == Remembers(memories[k], checkpoints[k])
    {
      CheckedRemembers(memories[k], checkpoints[k], memories[k + 1]);
    }
  }

  /** What holds from each to the next, of everything to itself and from end to end, holds across the block. */
  lemma {:induction false} Across<T(!new)>(r: (T, T) -> bool, xs: seq<T>, i: nat, j: nat)
    requires i <= j < |xs| && forall k :: i < k <= j ==> r(xs[k - 1], xs[k])
    requires (forall x :: r(x, x)) && forall x, y, z :: r(x, y) && r(y, z) ==> r(x, z)
    ensures r(xs[i], xs[j])
  {
    if i < j { Across(r, xs, i, j - 1); }
  }

  ghost predicate Kept(before: Checkpoint, now: Checkpoint) { OnlyProgress(before.facts, now.facts) }

  /** Across an unbroken block of read-only steps the committed facts stay the same. */
  lemma BlockKeepsFacts(checkpoints: seq<Checkpoint>, i: nat, j: nat)
    requires Journey(checkpoints).Some? && i <= j < |checkpoints|
    requires forall k :: i < k <= j ==> ChangesNothing(checkpoints[k].step)
    ensures OnlyProgress(checkpoints[i].facts, checkpoints[j].facts)
  {
    forall k | i < k <= j ensures Kept(checkpoints[k - 1], checkpoints[k]) { NextKeepsFacts(checkpoints, k); }
    forall a, b, c | Kept(a, b) && Kept(b, c) ensures Kept(a, c) { ProgressGoesOn(a.facts, b.facts, c.facts); }
    Across(Kept, checkpoints, i, j);
  }

  lemma NextKeepsFacts(checkpoints: seq<Checkpoint>, j: nat)
    requires Journey(checkpoints).Some? && 0 < j < |checkpoints| && ChangesNothing(checkpoints[j].step)
    ensures OnlyProgress(checkpoints[j - 1].facts, checkpoints[j].facts)
  {
    var memories := Memories(checkpoints);
    RemembersFacts(memories[j - 1], checkpoints[j - 1]);
    AcceptedKeepsFacts(memories[j], checkpoints[j], checkpoints[j - 1].facts);
  }

  lemma RemembersFacts(memory: Memory, c: Checkpoint)
    ensures Remembers(memory, c).prior == Some(c.facts)
  {}

  lemma AcceptedKeepsFacts(memory: Memory, c: Checkpoint, prior: Facts)
    requires AcceptedThen(memory, c) && memory.prior == Some(prior) && ChangesNothing(c.step)
    ensures OnlyProgress(prior, c.facts)
  {}

  lemma ProgressGoesOn(a: Facts, b: Facts, c: Facts)
    requires OnlyProgress(a, b) && OnlyProgress(b, c)
    ensures OnlyProgress(a, c)
  {
    forall k | 0 <= k < |c.outbox| ensures SameNotification(a.outbox[k], c.outbox[k]) {
      assert SameNotification(b.outbox[k], c.outbox[k]);
      assert SameNotification(a.outbox[k], b.outbox[k]);
    }
  }

  ghost predicate Final(row: Row) { row.status == Delivered || row.status == Cancelled }

  /** A row fits its checks with its mail removed exactly when it has settled. */
  lemma SettledExactly(step: Step, record: Record, facts: Facts, k: nat)
    requires StoredFits(record, facts) && Keyed(facts) && DeletedOnce(record)
    requires OutboxFits(step, record, facts) && k < |facts.outbox|
    ensures Final(facts.outbox[k]) <==> facts.outbox[k].payload == Removed
  {
    var i := EveryRowBelongs(step, record, facts, k);
  }

  /** In such a block no notification settles either: its mail is removed exactly when it settles, and the
      comparison of the facts includes the mail. */
  lemma BlockSettlesNothing(checkpoints: seq<Checkpoint>, i: nat, j: nat, k: nat)
    requires Journey(checkpoints).Some? && i <= j < |checkpoints|
    requires forall n :: i < n <= j ==> ChangesNothing(checkpoints[n].step)
    requires forall n :: i <= n <= j ==> Keyed(checkpoints[n].facts) && DeletedOnce(checkpoints[n].record)
    requires k < |checkpoints[i].facts.outbox|
    ensures k < |checkpoints[j].facts.outbox|
    ensures Final(checkpoints[j].facts.outbox[k]) <==> Final(checkpoints[i].facts.outbox[k])
    ensures checkpoints[j].facts.outbox[k].effect == checkpoints[i].facts.outbox[k].effect
  {
    var c, d := checkpoints[i], checkpoints[j];
    BlockKeepsFacts(checkpoints, i, j);
    assert SameNotification(c.facts.outbox[k], d.facts.outbox[k]);
    var memories := Memories(checkpoints);
    SettledExactly(c.step, c.record, c.facts, k);
    SettledExactly(d.step, d.record, d.facts, k);
  }

  /** A replay queued no notification: the deliveries are those seen when the submissions were made. */
  lemma ReplayQueuesNothing(checkpoints: seq<Checkpoint>, i: nat, j: nat)
    requires Journey(checkpoints).Some? && i < j < |checkpoints|
    requires checkpoints[i].step == Submitted && checkpoints[j].step == SubmissionReplay
    requires forall k :: i < k < j ==> checkpoints[k].step != Submitted
    ensures Deliveries(checkpoints[j].attempts) == Deliveries(checkpoints[i].attempts)
  {
    var memories := Memories(checkpoints);
    RemembersDeliveries(memories, checkpoints, i, j);
    AcceptedReplay(memories[j], checkpoints[j]);
  }

  lemma AcceptedReplay(memory: Memory, c: Checkpoint)
    requires AcceptedThen(memory, c) && c.step == SubmissionReplay
    ensures Deliveries(c.attempts) == memory.deliveredAtSubmitted
  {}

  lemma {:induction false} RemembersDeliveries(
      memories: seq<Memory>, checkpoints: seq<Checkpoint>, i: nat, n: nat)
    requires Follow(memories, checkpoints) && i < n <= |checkpoints| && checkpoints[i].step == Submitted
    requires forall k :: i < k < n ==> checkpoints[k].step != Submitted
    ensures memories[n].deliveredAtSubmitted == Deliveries(checkpoints[i].attempts)
  {
    assert memories[n] == Remembers(memories[n - 1], checkpoints[n - 1]);
    if n > i + 1 { RemembersDeliveries(memories, checkpoints, i, n - 1); }
  }
}
