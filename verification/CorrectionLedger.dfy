/** Corrections to one completed interview: the rules the storage enforces on every client, the versioned
    and idempotent HTTP command on top of them, and what every run of many actors keeps. */
module CorrectionLedger {
  import opened HttpReceipts
  import opened Options

  /** Answers, scores and recommendation, as one opaque value. */
  type Content = nat

  /** Who sent the command, and under which idempotency key; the command id is derived from both. */
  datatype Identity = Identity(person: nat, key: nat)

  /** A strong entity tag: the interview's revision, its co-interviewer and the version of its authority. */
  datatype ETag = ETag(revision: int, coInterviewer: Option<nat>, authority: nat)

  datatype Body = Body(expectedRevision: int, content: Content)

  /** What the request digest is computed from. */
  datatype Digest = Digest(body: Body, ifMatch: ETag)

  datatype Assessment = Assessment(
    predecessor: int, resulting: int, content: Content, correctedBy: nat, correctedAt: int, command: Identity)
  datatype Receipt = Receipt(command: Identity, body: Body, predecessor: int, resulting: int)
  datatype Entry = Entry(command: Identity, actor: nat, predecessor: int, resulting: int)

  /** The representation sent back, byte for byte. */
  datatype Response = Response(command: Identity, predecessor: int, resulting: int, replayed: bool, etag: ETag)

  /** A window in which corrections are allowed again after the decision closed. */
  datatype Window = Window(openedBy: nat, openedAt: int, endsAt: int, closedAt: Option<int>)

  /** The admission decision on the application: still open, or closed on what the interview was then. */
  datatype Decision = Undecided | Closed(completed: bool, cancelled: bool)

  /** What surrounds a correction and other commands change. `applicant` is the person the application is linked to. */
  datatype Fence = Fence(
    interviewer: nat,
    coInterviewer: Option<nat>,
    applicant: Option<nat>,
    cancelled: bool,
    decision: Decision,
    semesterEndsAt: int,
    window: Option<Window>)

  /** Every row the interview owns. `base` is the revision of its conduct and `original` its content. */
  datatype Ledger = Ledger(
    base: nat,
    original: Content,
    fence: Fence,
    revision: int,
    assessments: seq<Assessment>,
    receipts: seq<Receipt>,
    audit: seq<Entry>,
    http: map<Identity, Stored<Digest, Response>>)

  function Fresh(base: nat, original: Content, fence: Fence): Ledger {
    Ledger(base, original, fence, base, [], [], [], map[])
  }

  function Effective(l: Ledger): int {
    if l.assessments == [] then l.base else l.assessments[|l.assessments| - 1].resulting
  }

  // ---- The storage: one statement of any client ------------------------------------------------------------

  datatype Statement =
    | AdvanceRevision(expected: int)
    | SetRevision(revision: int)
    | ChangeFence(fence: Fence)
    | InsertAssessment(assessment: Assessment)
    | InsertReceipt(receipt: Receipt)
    | InsertAudit(entry: Entry)
    | InsertHttp(identity: Identity, stored: Stored<Digest, Response>)
    | RewriteAssessment(index: nat, assessment: Assessment)
    | RewriteReceipt(index: nat, receipt: Receipt)
    | RewriteAudit(index: nat, entry: Entry)
    | DeleteCorrection(index: nat)

  function MaxResulting(l: Ledger): int { MaxOf(l.assessments, l.base) }

  /** The largest resulting revision, or the base when there is no correction. */
  function MaxOf(assessments: seq<Assessment>, base: int): int {
    if assessments == [] then base
    else
      var last := assessments[|assessments| - 1].resulting;
      if |assessments| == 1 then last
      else var before := MaxOf(assessments[..|assessments| - 1], base); if last < before then before else last
  }

  predicate Participant(f: Fence, person: nat) { person == f.interviewer || Some(person) == f.coInterviewer }

  /** The decision fence on a correction row: an assigned interviewer who is not the applicant, an interview that
      was completed and not cancelled as far as the decision goes, and after it closed a current window that
      somebody else opened. */
  predicate FenceAllows(f: Fence, person: nat, at: int) {
    && (if f.decision.Closed? then f.decision.completed && !f.decision.cancelled else !f.cancelled)
    && Participant(f, person) && Some(person) != f.applicant
    && (f.decision.Closed? ==>
          && f.window.Some? && f.window.value.closedAt.None? && f.window.value.openedBy != person
          && f.window.value.openedAt <= at < f.window.value.endsAt)
  }

  /** What the triggers, keys and foreign keys let through; `None` when the statement is rejected. */
  function Accept(l: Ledger, s: Statement): Option<Ledger> {
    match s
    case AdvanceRevision(expected) => if l.revision == expected then Some(l.(revision := l.revision + 1)) else None
    case SetRevision(revision) => Some(l.(revision := revision))
    case ChangeFence(fence) => Some(l.(fence := fence))
    case InsertAssessment(a) =>
      if && FenceAllows(l.fence, a.correctedBy, a.correctedAt)
         && a.predecessor == MaxResulting(l) && a.resulting == MaxResulting(l) + 1 && l.revision == a.resulting
         && 0 <= a.predecessor < a.resulting
         && (forall b :: b in l.assessments ==> b.command != a.command && b.resulting != a.resulting)
      then Some(l.(assessments := l.assessments + [a])) else None
    case InsertReceipt(r) =>
      if && (exists a :: a in l.assessments && AssessmentTuple(a) == (r.command, r.predecessor, r.resulting))
         && (forall b :: b in l.receipts ==> b.command != r.command)
      then Some(l.(receipts := l.receipts + [r])) else None
    case InsertAudit(e) =>
      if && (exists r :: r in l.receipts && ReceiptTuple(r) == (e.command, e.predecessor, e.resulting))
         && (forall b :: b in l.audit ==> b.command != e.command)
      then Some(l.(audit := l.audit + [e])) else None
    case InsertHttp(identity, stored) =>
      if identity in l.http then None else Some(l.(http := l.http[identity := stored]))
    case RewriteAssessment(_, _) => None
    case RewriteReceipt(_, _) => None
    case RewriteAudit(_, _) => None
    case DeleteCorrection(_) => None
  }

  function AssessmentTuple(a: Assessment): (Identity, int, int) { (a.command, a.predecessor, a.resulting) }
  function ReceiptTuple(r: Receipt): (Identity, int, int) { (r.command, r.predecessor, r.resulting) }
  function EntryTuple(e: Entry): (Identity, int, int) { (e.command, e.predecessor, e.resulting) }

  /** The statements of one client, each accepted or rejected on its own. */
  function Statements(l: Ledger, ss: seq<Statement>): Ledger {
    if ss == [] then l
    else
      var before := Statements(l, ss[..|ss| - 1]);
      var after := Accept(before, ss[|ss| - 1]);
      if after.Some? then after.value else before
  }

  /** Each correction starts where the previous one ended, the first at the conduct. */
  ghost predicate Chained(l: Ledger) {
    forall i :: 0 <= i < |l.assessments| ==>
      l.assessments[i].predecessor == l.base + i && l.assessments[i].resulting == l.base + i + 1
  }

  ghost predicate Linked(l: Ledger) {
    && (forall r :: r in l.receipts ==> exists a :: a in l.assessments && AssessmentTuple(a) == ReceiptTuple(r))
    && (forall e :: e in l.audit ==> exists r :: r in l.receipts && ReceiptTuple(r) == EntryTuple(e))
    && (forall i, j :: 0 <= i < j < |l.assessments| ==> l.assessments[i].command != l.assessments[j].command)
    && (forall i, j :: 0 <= i < j < |l.receipts| ==> l.receipts[i].command != l.receipts[j].command)
    && (forall i, j :: 0 <= i < j < |l.audit| ==> l.audit[i].command != l.audit[j].command)
  }

  lemma {:induction false} ChainedMax(l: Ledger, n: nat)
    requires Chained(l) && n <= |l.assessments|
    ensures MaxOf(l.assessments[..n], l.base) == l.base + n
  {
    if n > 1 {
      assert l.assessments[..n][..n - 1] == l.assessments[..n - 1];
      ChainedMax(l, n - 1);
    }
  }

  lemma AcceptChained(l: Ledger, s: Statement)
    requires Chained(l) && Accept(l, s).Some?
    ensures Chained(Accept(l, s).value)
    ensures s.InsertAssessment? ==>
              && s.assessment.predecessor == l.base + |l.assessments|
              && s.assessment.resulting == l.base + |l.assessments| + 1
  {
    ChainedMax(l, |l.assessments|);
    assert l.assessments[..|l.assessments|] == l.assessments;
  }

  lemma AcceptLinked(l: Ledger, s: Statement)
    requires Linked(l) && Accept(l, s).Some?
    ensures Linked(Accept(l, s).value)
  {
    var next := Accept(l, s).value;
    match s
    case InsertAssessment(_) => assert forall a :: a in l.assessments ==> a in next.assessments;
    case InsertReceipt(_) => assert forall r :: r in l.receipts ==> r in next.receipts;
    case _ =>
  }

  /** The chain and its links hold, and what `earlier` held is still there. */
  ghost predicate ChainKept(earlier: Ledger, later: Ledger) {
    && Chained(later) && Linked(later)
    && earlier.assessments <= later.assessments && earlier.receipts <= later.receipts && earlier.audit <= later.audit
    && later.base == earlier.base && later.original == earlier.original
  }

  lemma StatementKeepsChain(earlier: Ledger, l: Ledger, s: Statement)
    requires ChainKept(earlier, l) && Accept(l, s).Some?
    ensures ChainKept(earlier, Accept(l, s).value)
  {
    AcceptChained(l, s);
    AcceptLinked(l, s);
  }

  /** Whatever statements any client sends in whatever order, the corrections form one chain from the
      conduct, receipts name corrections, audit entries name receipts, no row is ever changed or removed,
      and the conduct stays as it was. */
  lemma {:induction false} StorageKeepsChain(l: Ledger, ss: seq<Statement>)
    requires Chained(l) && Linked(l)
    ensures ChainKept(l, Statements(l, ss))
  {
    if ss != [] {
      var before, s := Statements(l, ss[..|ss| - 1]), ss[|ss| - 1];
      StorageKeepsChain(l, ss[..|ss| - 1]);
      if Accept(before, s).Some? { StatementKeepsChain(l, before, s); }
    }
  }

  /** The largest resulting revision of the corrections, or the conduct's when there is none. */
  ghost predicate IsLargest(l: Ledger, largest: int) {
    if l.assessments == [] then largest == l.base
    else
      && (exists a :: a in l.assessments && a.resulting == largest)
      && forall a :: a in l.assessments ==> a.resulting <= largest
  }

  lemma ChainedLargest(l: Ledger)
    requires Chained(l)
    ensures IsLargest(l, l.base + |l.assessments|)
  {
    var n := |l.assessments|;
    if n > 0 { assert l.assessments[n - 1] in l.assessments; }
  }

  lemma {:induction false} MaxExactly(assessments: seq<Assessment>, base: int)
    requires assessments != []
    ensures exists a :: a in assessments && a.resulting == MaxOf(assessments, base)
    ensures forall a :: a in assessments ==> a.resulting <= MaxOf(assessments, base)
  {
    var n := |assessments| - 1;
    assert assessments == assessments[..n] + [assessments[n]];
    if n > 0 { MaxExactly(assessments[..n], base); }
  }

  /** A correction row gets in exactly when the decision fence allows its corrector at that time (an interviewer other
      than the applicant; before the decision an interview not cancelled, after it one completed and not cancelled
      then, and a current window opened by somebody else), it continues the largest revision under a new command, and
      the interview already carries its resulting revision. */
  lemma InsertExactly(l: Ledger, a: Assessment, largest: int)
    requires IsLargest(l, largest)
    ensures Accept(l, InsertAssessment(a)).Some? <==>
              && (a.correctedBy == l.fence.interviewer || Some(a.correctedBy) == l.fence.coInterviewer)
              && Some(a.correctedBy) != l.fence.applicant
              && (if l.fence.decision == Undecided then !l.fence.cancelled
                  else
                    && l.fence.decision.completed && !l.fence.decision.cancelled
                    && l.fence.window.Some? && l.fence.window.value.closedAt == None
                    && l.fence.window.value.openedBy != a.correctedBy
                    && l.fence.window.value.openedAt <= a.correctedAt
                    && a.correctedAt < l.fence.window.value.endsAt)
              && a.predecessor == largest && a.resulting == largest + 1 == l.revision && largest >= 0
              && (forall b :: b in l.assessments ==> b.command != a.command)
  {
    if l.assessments != [] { MaxExactly(l.assessments, l.base); }
  }

  /** What else gets in, and what it changes: any revision and any surroundings, the next revision on the expected one,
      a receipt of a correction and an audit entry of a receipt under a new command, an HTTP receipt under a new
      identity; no row is rewritten or deleted. */
  lemma StatementsExactly(l: Ledger, s: Statement)
    ensures s.SetRevision? ==> Accept(l, s) == Some(l.(revision := s.revision))
    ensures s.ChangeFence? ==> Accept(l, s) == Some(l.(fence := s.fence))
    ensures s.AdvanceRevision? && s.expected == l.revision ==> Accept(l, s) == Some(l.(revision := s.expected + 1))
    ensures s.AdvanceRevision? && s.expected != l.revision ==> Accept(l, s) == None
    ensures s.InsertAssessment? && Accept(l, s).Some? ==>
              Accept(l, s).value == l.(assessments := l.assessments + [s.assessment])
    ensures s.InsertReceipt? ==>
              (Accept(l, s).Some? <==>
                 && (exists a :: a in l.assessments && a.command == s.receipt.command
                                 && a.predecessor == s.receipt.predecessor && a.resulting == s.receipt.resulting)
                 && forall r :: r in l.receipts ==> r.command != s.receipt.command)
              && (Accept(l, s).Some? ==> Accept(l, s).value == l.(receipts := l.receipts + [s.receipt]))
    ensures s.InsertAudit? ==>
              (Accept(l, s).Some? <==>
                 && (exists r :: r in l.receipts && r.command == s.entry.command
                                 && r.predecessor == s.entry.predecessor && r.resulting == s.entry.resulting)
                 && forall e :: e in l.audit ==> e.command != s.entry.command)
              && (Accept(l, s).Some? ==> Accept(l, s).value == l.(audit := l.audit + [s.entry]))
    ensures s.InsertHttp? ==>
              Accept(l, s) == if s.identity in l.http then None else Some(l.(http := l.http[s.identity := s.stored]))
    ensures s.RewriteAssessment? || s.RewriteReceipt? || s.RewriteAudit? || s.DeleteCorrection? ==> Accept(l, s) == None
  {}

  // ---- The command --------------------------------------------------------------------------------------------

  datatype Problem =
    | CredentialInvalid | AuthorityDenied | NotFound | AlreadyCancelled | ScopeDenied | AlreadyFinalized
    | RequestMalformed | BodyInvalid | PreconditionRequired | PreconditionInvalid | KeyInvalid
    | InFlight | DigestConflict | ResponseExpired | PreconditionFailed | AnswersInvalid | DependencyUnavailable

  function StatusOf(p: Problem): int {
    match p
    case CredentialInvalid => 401
    case AuthorityDenied => 403
    case ScopeDenied => 403
    case NotFound => 404
    case RequestMalformed => 400
    case PreconditionInvalid => 400
    case KeyInvalid => 400
    case PreconditionRequired => 428
    case PreconditionFailed => 412
    case BodyInvalid => 422
    case AnswersInvalid => 422
    case DependencyUnavailable => 503
    case _ => 409
  }

  datatype Field<T> = Missing | Malformed | Present(value: T)

  /** What the request body decoded to: not JSON, not of the schema, or a body. */
  datatype Decoded = NotJson | OffSchema | Read(body: Body)

  /** A write stage at which the storage fails: the four of the correction, then the HTTP receipt. */
  datatype Stage = AtRevision | AtAssessment | AtReceipt | AtAudit | AtHttp

  datatype Attempt = Attempt(
    person: nat,
    key: Field<nat>,
    body: Decoded,
    ifMatch: Field<ETag>,
    /** What the endpoint's credential and authority checks refuse, if anything. */
    endpoint: Option<Problem>,
    authority: nat,
    answersFit: bool,
    now: int,
    busy: bool,
    fault: Option<Stage>)

  datatype Answer = Committed(response: Response) | Replayed(response: Response) | Refused(problem: Problem)

  /** Whether corrections are open to a participant now. */
  predicate CanCorrect(f: Fence, person: nat, now: int) {
    !f.cancelled && now < f.semesterEndsAt
    && (f.decision.Undecided?
        || (f.window.Some? && f.window.value.closedAt.None? && f.window.value.openedAt <= now < f.window.value.endsAt
            && person != f.window.value.openedBy))
  }

  predicate OpenedIt(f: Fence, person: nat, now: int) {
    && f.decision.Closed? && f.window.Some? && f.window.value.closedAt.None?
    && now < f.window.value.endsAt && f.window.value.openedBy == person
  }

  /** Endpoint authority first, then who corrects, then the lifecycle and the correction window. */
  function Gate(f: Fence, a: Attempt): Option<Problem> {
    if a.endpoint.Some? then a.endpoint
    else if Some(a.person) == f.applicant || !Participant(f, a.person) then Some(ScopeDenied)
    else if f.cancelled then Some(AlreadyCancelled)
    else if CanCorrect(f, a.person, a.now) then None
    else if OpenedIt(f, a.person, a.now) then Some(ScopeDenied)
    else Some(AlreadyFinalized)
  }

  /** The decision closed on an interview that was not completed by then, or was cancelled. */
  predicate EarlyDecision(f: Fence) { f.decision.Closed? && !(f.decision.completed && !f.decision.cancelled) }

  /** What passes the gate passes the decision fence of the storage, and only an early decision parts them: then
      the gate lets through what the fence refuses. */
  lemma GateMeetsFence(f: Fence, a: Attempt)
    requires Gate(f, a).None?
    ensures FenceAllows(f, a.person, a.now) <==> !EarlyDecision(f)
  {
    if f.decision.Closed? { assert f.window.Some?; } else { assert !f.cancelled; }
  }

  /** Who may correct now, of the fields alone: an interviewer or co-interviewer other than the applicant, of an
      interview that is not cancelled, before its semester ends, and either before the decision or in a window that
      is open now and that somebody else opened. */
  predicate MayCorrect(f: Fence, person: nat, now: int) {
    && (person == f.interviewer || (f.coInterviewer.Some? && person == f.coInterviewer.value))
    && (f.applicant.Some? ==> person != f.applicant.value)
    && !f.cancelled && now < f.semesterEndsAt
    && (|| f.decision == Undecided
        || (&& f.window.Some? && f.window.value.closedAt == None && f.window.value.openedAt <= now
            && now < f.window.value.endsAt && f.window.value.openedBy != person))
  }

  /** The gate lets exactly those through whom the endpoint and these conditions let through, and each refusal has its
      own cause: 403 for the wrong person or the opener of a window that has not ended, `already-cancelled` for a
      cancelled interview, `already-finalized` for everything else. */
  lemma GateExactly(f: Fence, a: Attempt)
    ensures Gate(f, a) == None <==> a.endpoint == None && MayCorrect(f, a.person, a.now)
    ensures a.endpoint.Some? ==> Gate(f, a) == a.endpoint
    ensures a.endpoint == None ==>
              var concerned := (a.person == f.interviewer || Some(a.person) == f.coInterviewer)
                               && Some(a.person) != f.applicant;
              var opener := f.decision.Closed? && f.window.Some? && f.window.value.closedAt == None
                            && a.now < f.window.value.endsAt && f.window.value.openedBy == a.person;
              && (Gate(f, a) == Some(AlreadyCancelled) <==> concerned && f.cancelled)
              && (Gate(f, a) == Some(ScopeDenied) <==> !concerned || (!f.cancelled && opener))
              && (Gate(f, a) == Some(AlreadyFinalized) <==>
                    concerned && !f.cancelled && !opener && !MayCorrect(f, a.person, a.now))
  {
    if a.endpoint == None && !f.cancelled && f.decision.Closed? && f.window.Some? {}
  }

  /** What is refused before the transaction begins, in the order the request is read. */
  function Unreadable(a: Attempt): Option<Problem> {
    match a.body
    case NotJson => Some(RequestMalformed)
    case OffSchema => Some(BodyInvalid)
    case Read(_) =>
      match a.ifMatch
      case Missing => Some(PreconditionRequired)
      case Malformed => Some(PreconditionInvalid)
      case Present(_) => None
  }

  function IdentityOf(a: Attempt): Identity
    requires a.key.Present?
  {
    Identity(a.person, a.key.value)
  }

  function DigestOf(a: Attempt): Digest
    requires Unreadable(a).None?
  {
    Digest(a.body.body, a.ifMatch.value)
  }

  function TagOf(l: Ledger, a: Attempt): ETag { ETag(l.revision, l.fence.coInterviewer, a.authority) }

  function Refusal(l: Ledger, a: Attempt): Option<Problem>
    requires Unreadable(a).None?
  {
    if a.ifMatch.value != TagOf(l, a) then Some(PreconditionFailed)
    else if a.body.body.expectedRevision != l.revision then Some(PreconditionFailed)
    else if !a.answersFit then Some(AnswersInvalid)
    else if a.fault.Some? || !FenceAllows(l.fence, a.person, a.now) then Some(DependencyUnavailable)
    else None
  }

  function Correction(l: Ledger, a: Attempt): Assessment
    requires Unreadable(a).None? && a.key.Present?
  {
    Assessment(l.revision, l.revision + 1, a.body.body.content, a.person, a.now, IdentityOf(a))
  }

  function AfterRevision(l: Ledger): Ledger { l.(revision := l.revision + 1) }

  function ResponseTo(l: Ledger, a: Attempt): Response
    requires a.key.Present?
  {
    Response(IdentityOf(a), l.revision, l.revision + 1, false, TagOf(AfterRevision(l), a))
  }

  /** All five writes at once. */
  function Commit(l: Ledger, a: Attempt): Ledger
    requires Unreadable(a).None? && a.key.Present?
  {
    var identity := IdentityOf(a);
    l.(revision := l.revision + 1,
       assessments := l.assessments + [Correction(l, a)],
       receipts := l.receipts + [Receipt(identity, a.body.body, l.revision, l.revision + 1)],
       audit := l.audit + [Entry(identity, a.person, l.revision, l.revision + 1)],
       http := l.http[identity := Complete(DigestOf(a), ResponseTo(l, a), a.now)])
  }

  datatype Outcome = Outcome(ledger: Ledger, answer: Answer)

  /** What one attempt does, as one atomic step. */
  function Apply(l: Ledger, a: Attempt): Outcome {
    if Unreadable(a).Some? then Outcome(l, Refused(Unreadable(a).value))
    else if Gate(l.fence, a).Some? then Outcome(l, Refused(Gate(l.fence, a).value))
    else if !a.key.Present? then Outcome(l, Refused(KeyInvalid))
    else if a.busy then Outcome(l, Refused(InFlight))
    else
      var read := l.(http := Redacted(l.http, IdentityOf(a), a.now));
      match Judge(read.http, IdentityOf(a), DigestOf(a))
      case Conflict => Outcome(read, Refused(DigestConflict))
      case Gone => Outcome(read, Refused(ResponseExpired))
      case Replay(response) => Outcome(read, Replayed(response))
      case Unknown =>
        if Refusal(l, a).Some? then Outcome(l, Refused(Refusal(l, a).value))
        else Outcome(Commit(l, a), Committed(ResponseTo(l, a)))
  }

  /** Attempts of any actors in the serial order the storage gives them, the sweep of expired receipts, and
      whatever other commands change around the corrections. */
  datatype Event = Send(attempt: Attempt) | Sweep(now: int) | Surround(fence: Fence)

  function Next(l: Ledger, e: Event): Ledger {
    match e
    case Send(a) => Apply(l, a).ledger
    case Sweep(now) => l.(http := Swept(l.http, now))
    case Surround(fence) => l.(fence := fence)
  }

  function Run(l: Ledger, events: seq<Event>): Ledger {
    if events == [] then l else Next(Run(l, events[..|events| - 1]), events[|events| - 1])
  }

  // ---- What every run keeps -----------------------------------------------------------------------------------

  ghost predicate Named(l: Ledger, identity: Identity) {
    exists i :: 0 <= i < |l.assessments| && l.assessments[i].command == identity
  }

  /** Correction, receipt and audit entry number `i` belong together. */
  ghost predicate Aligned(l: Ledger, i: nat)
    requires i < |l.assessments| && i < |l.receipts| && i < |l.audit|
  {
    var a := l.assessments[i];
    && AssessmentTuple(a) == ReceiptTuple(l.receipts[i]) == EntryTuple(l.audit[i])
    && l.audit[i].actor == a.correctedBy == a.command.person
    && l.receipts[i].body == Body(a.predecessor, a.content)
  }

  ghost predicate DistinctCommands(l: Ledger) {
    forall i, j :: 0 <= i < j < |l.assessments| ==> l.assessments[i].command != l.assessments[j].command
  }

  /** The aggregate carries the last resulting revision, each correction has its own receipt, audit entry
      and HTTP receipt, and there are no others. */
  ghost predicate Consistent(l: Ledger) {
    && Chained(l) && DistinctCommands(l)
    && l.revision == l.base + |l.assessments|
    && |l.receipts| == |l.assessments| == |l.audit|
    && (forall i :: 0 <= i < |l.assessments| ==> Aligned(l, i))
    && (forall identity :: identity in l.http <==> Named(l, identity))
  }

  lemma ReceiptStage(l: Ledger, r: Receipt)
    requires l.assessments != [] && AssessmentTuple(l.assessments[|l.assessments| - 1]) == ReceiptTuple(r)
    requires forall b :: b in l.receipts ==> b.command != r.command
    ensures Accept(l, InsertReceipt(r)) == Some(l.(receipts := l.receipts + [r]))
  {
    assert l.assessments[|l.assessments| - 1] in l.assessments;
  }

  lemma AuditStage(l: Ledger, e: Entry)
    requires l.receipts != [] && ReceiptTuple(l.receipts[|l.receipts| - 1]) == EntryTuple(e)
    requires forall b :: b in l.audit ==> b.command != e.command
    ensures Accept(l, InsertAudit(e)) == Some(l.(audit := l.audit + [e]))
  {
    assert l.receipts[|l.receipts| - 1] in l.receipts;
  }

  /** A command without an HTTP receipt has no row of its own anywhere. */
  lemma NewCommand(l: Ledger, identity: Identity)
    requires Consistent(l) && identity !in l.http
    ensures forall a :: a in l.assessments ==> a.command != identity
    ensures forall r :: r in l.receipts ==> r.command != identity
    ensures forall e :: e in l.audit ==> e.command != identity
  {
    assert !Named(l, identity);
    forall i | 0 <= i < |l.assessments|
      ensures l.assessments[i].command != identity && l.receipts[i].command != identity
              && l.audit[i].command != identity
    {
      assert Aligned(l, i);
    }
  }

  function AfterAssessment(l: Ledger, a: Attempt): Ledger
    requires Unreadable(a).None? && a.key.Present?
  {
    AfterRevision(l).(assessments := l.assessments + [Correction(l, a)])
  }

  function ReceiptOf(l: Ledger, a: Attempt): Receipt
    requires Unreadable(a).None? && a.key.Present?
  {
    Receipt(IdentityOf(a), a.body.body, l.revision, l.revision + 1)
  }

  function EntryOf(l: Ledger, a: Attempt): Entry
    requires a.key.Present?
  {
    Entry(IdentityOf(a), a.person, l.revision, l.revision + 1)
  }

  function StoredOf(l: Ledger, a: Attempt): Stored<Digest, Response>
    requires Unreadable(a).None? && a.key.Present?
  {
    Complete(DigestOf(a), ResponseTo(l, a), a.now)
  }

  /** On a consistent ledger whose fence allows the corrector the storage lets all five staged writes through;
      together they are the commit. */
  lemma StagesCommit(l: Ledger, a: Attempt)
    requires Consistent(l) && Unreadable(a).None? && a.key.Present? && IdentityOf(a) !in l.http
    requires a.body.body.expectedRevision == l.revision && FenceAllows(l.fence, a.person, a.now)
    ensures Accept(l, AdvanceRevision(a.body.body.expectedRevision)) == Some(AfterRevision(l))
    ensures Accept(AfterRevision(l), InsertAssessment(Correction(l, a))) == Some(AfterAssessment(l, a))
    ensures var s3 := AfterAssessment(l, a).(receipts := l.receipts + [ReceiptOf(l, a)]);
            var s4 := s3.(audit := l.audit + [EntryOf(l, a)]);
            && Accept(AfterAssessment(l, a), InsertReceipt(ReceiptOf(l, a))) == Some(s3)
            && Accept(s3, InsertAudit(EntryOf(l, a))) == Some(s4)
            && Accept(s4, InsertHttp(IdentityOf(a), StoredOf(l, a))) == Some(Commit(l, a))
  {
    NewCommand(l, IdentityOf(a));
    ChainedLargest(AfterRevision(l));
    InsertExactly(AfterRevision(l), Correction(l, a), l.revision);
    ReceiptStage(AfterAssessment(l, a), ReceiptOf(l, a));
    AuditStage(AfterAssessment(l, a).(receipts := l.receipts + [ReceiptOf(l, a)]), EntryOf(l, a));
  }

  lemma CommitConsistent(l: Ledger, a: Attempt)
    requires Consistent(l) && Unreadable(a).None? && a.key.Present? && IdentityOf(a) !in l.http
    requires a.body.body.expectedRevision == l.revision
    ensures Consistent(Commit(l, a))
  {
    var next := Commit(l, a);
    var n := |l.assessments|;
    NewCommand(l, IdentityOf(a));
    forall i | 0 <= i <= n ensures Aligned(next, i) {
      if i < n { assert Aligned(l, i); }
    }
    forall identity ensures identity in next.http <==> Named(next, identity) {
      if identity == IdentityOf(a) { assert next.assessments[n].command == identity; }
      else if Named(l, identity) {
        var i :| 0 <= i < n && l.assessments[i].command == identity;
        assert next.assessments[i].command == identity;
      }
    }
  }

  /** The effective revision is the aggregate's; with `Linked`, the foreign keys hold too. */
  lemma ConsistentLinked(l: Ledger)
    requires Consistent(l)
    ensures Linked(l) && Effective(l) == l.revision
  {
    forall r | r in l.receipts ensures exists a :: a in l.assessments && AssessmentTuple(a) == ReceiptTuple(r) {
      var i :| 0 <= i < |l.receipts| && l.receipts[i] == r;
      assert Aligned(l, i) && l.assessments[i] in l.assessments;
    }
    forall e | e in l.audit ensures exists r :: r in l.receipts && ReceiptTuple(r) == EntryTuple(e) {
      var i :| 0 <= i < |l.audit| && l.audit[i] == e;
      assert Aligned(l, i) && l.receipts[i] in l.receipts;
    }
    forall i, j | 0 <= i < j < |l.receipts|
      ensures l.receipts[i].command != l.receipts[j].command && l.audit[i].command != l.audit[j].command
    {
      assert Aligned(l, i) && Aligned(l, j);
    }
  }

  /** Rows other than HTTP receipts are the same, and those only aged. */
  ghost predicate RowsKept(l: Ledger, next: Ledger) {
    next == l.(http := next.http) && OnlyAged(l.http, next.http)
  }

  lemma AgedConsistent(l: Ledger, next: Ledger)
    requires Consistent(l) && RowsKept(l, next)
    ensures Consistent(next)
  {
    forall i | 0 <= i < |l.assessments| ensures Aligned(next, i) { assert Aligned(l, i); }
    forall identity ensures identity in next.http <==> Named(next, identity) {
      assert Named(next, identity) <==> Named(l, identity);
    }
  }

  lemma SurroundConsistent(l: Ledger, fence: Fence)
    requires Consistent(l)
    ensures Consistent(l.(fence := fence))
  {
    var next := l.(fence := fence);
    forall i | 0 <= i < |l.assessments| ensures Aligned(next, i) { assert Aligned(l, i); }
    forall identity ensures identity in next.http <==> Named(next, identity) {
      assert Named(next, identity) <==> Named(l, identity);
    }
  }

  lemma NextConsistent(l: Ledger, e: Event)
    requires Consistent(l)
    ensures Consistent(Next(l, e))
  {
    if e.Send? && Apply(l, e.attempt).answer.Committed? {
      CommitConsistent(l, e.attempt);
    } else if e.Surround? {
      SurroundConsistent(l, e.fence);
    } else {
      AgedConsistent(l, Next(l, e));
    }
  }

  /** In every run, under any order of attempts by any actors, faults and sweeps. */
  lemma {:induction false} EveryRun(l: Ledger, events: seq<Event>)
    requires Consistent(l)
    ensures Consistent(Run(l, events)) && Linked(Run(l, events)) && Effective(Run(l, events)) == Run(l, events).revision
  {
    ConsistentLinked(l);
    if events != [] {
      EveryRun(l, events[..|events| - 1]);
      NextConsistent(Run(l, events[..|events| - 1]), events[|events| - 1]);
      ConsistentLinked(Run(l, events));
    }
  }

  lemma FreshConsistent(base: nat, original: Content, fence: Fence)
    ensures Consistent(Fresh(base, original, fence))
  {
    forall identity ensures !Named(Fresh(base, original, fence), identity) {}
  }

  /** So everything below holds of every run from a conduct without corrections. */
  lemma EveryFreshRun(base: nat, original: Content, fence: Fence, events: seq<Event>)
    ensures var l := Run(Fresh(base, original, fence), events);
            Consistent(l) && Linked(l) && Effective(l) == l.revision
  {
    FreshConsistent(base, original, fence);
    EveryRun(Fresh(base, original, fence), events);
  }

  /** Rows are only added, and the conduct stays. */
  ghost predicate Grows(earlier: Ledger, later: Ledger) {
    && earlier.assessments <= later.assessments && earlier.receipts <= later.receipts && earlier.audit <= later.audit
    && later.base == earlier.base && later.original == earlier.original && earlier.revision <= later.revision
    && earlier.http.Keys <= later.http.Keys
  }

  lemma NextGrows(l: Ledger, e: Event)
    ensures Grows(l, Next(l, e))
  {}

  /** Rows are only ever added: what a longer run holds begins with what a shorter one held. */
  lemma {:induction false} HistoryOnlyGrows(l: Ledger, events: seq<Event>, n: nat)
    requires n <= |events|
    ensures Grows(Run(l, events[..n]), Run(l, events))
  {
    if n == |events| {
      assert events[..n] == events;
    } else {
      var m := |events| - 1;
      HistoryOnlyGrows(l, events[..m], n);
      assert events[..m][..n] == events[..n];
      NextGrows(Run(l, events[..m]), events[m]);
    }
  }

  lemma {:induction false} RunKeepsOriginal(l: Ledger, events: seq<Event>)
    ensures Run(l, events).base == l.base && Run(l, events).original == l.original
  {
    if events != [] { RunKeepsOriginal(l, events[..|events| - 1]); }
  }

  // ---- Who commits ----------------------------------------------------------------------------------------------

  /** The attempt gets as far as its write stages: readable, allowed, alone under its key and unknown there, naming
      the current tag and revision, and fitting the questions. */
  predicate ReachesWrites(l: Ledger, a: Attempt) {
    && a.body.Read? && a.ifMatch.Present? && Gate(l.fence, a).None? && a.key.Present? && !a.busy
    && Identity(a.person, a.key.value) !in l.http
    && a.ifMatch.value == TagOf(l, a) && a.body.body.expectedRevision == l.revision && a.answersFit
  }

  lemma CommitsWhere(l: Ledger, a: Attempt)
    ensures Apply(l, a).answer.Committed? <==> ReachesWrites(l, a) && a.fault.None? && !EarlyDecision(l.fence)
  {
    if Gate(l.fence, a).None? { GateMeetsFence(l.fence, a); }
  }

  /** An attempt commits exactly when its body and If-Match are readable, the endpoint refuses nothing, its sender may
      correct now, it is alone and unknown under its key, it names the current revision and tag, its answers fit,
      nothing fails, and the decision, if closed, rests on a completed, uncancelled interview. */
  lemma CommitsExactly(l: Ledger, a: Attempt)
    ensures Apply(l, a).answer.Committed? <==>
              && a.body.Read? && a.ifMatch.Present? && a.key.Present?
              && a.endpoint == None && MayCorrect(l.fence, a.person, a.now)
              && !a.busy && Identity(a.person, a.key.value) !in l.http
              && a.ifMatch.value == ETag(l.revision, l.fence.coInterviewer, a.authority)
              && a.body.body.expectedRevision == l.revision && a.answersFit && a.fault == None
              && (l.fence.decision.Closed? ==> l.fence.decision.completed && !l.fence.decision.cancelled)
  {
    GateExactly(l.fence, a);
    CommitsWhere(l, a);
  }

  /** The attempt gets to the stored response of its key, if any. */
  predicate ReachesKey(l: Ledger, a: Attempt) {
    && a.body.Read? && a.ifMatch.Present? && a.endpoint == None && MayCorrect(l.fence, a.person, a.now)
    && a.key.Present?
  }

  /** Each status an attempt is answered with of its own, and not by its endpoint or the gate, has one cause. */
  lemma StatusesExactly(l: Ledger, a: Attempt)
    requires a.endpoint == None
    ensures var answer := Apply(l, a).answer;
            var status := if answer.Refused? then StatusOf(answer.problem) else 200;
            var unknown := ReachesKey(l, a) && !a.busy && Identity(a.person, a.key.value) !in l.http;
            var current := a.ifMatch.Present? && a.ifMatch.value == ETag(l.revision, l.fence.coInterviewer, a.authority)
                           && a.body.Read? && a.body.body.expectedRevision == l.revision;
            && (status == 400 <==>
                  || a.body.NotJson? || (a.body.Read? && a.ifMatch.Malformed?)
                  || (a.body.Read? && a.ifMatch.Present? && MayCorrect(l.fence, a.person, a.now) && !a.key.Present?))
            && (status == 428 <==> a.body.Read? && a.ifMatch.Missing?)
            && (status == 422 <==> a.body.OffSchema? || (unknown && current && !a.answersFit))
            && (status == 412 <==> unknown && !current)
            && (status == 503 <==>
                  && unknown && current && a.answersFit
                  && (a.fault.Some? || (l.fence.decision.Closed?
                                        && !(l.fence.decision.completed && !l.fence.decision.cancelled))))
            && (answer == Refused(InFlight) <==> ReachesKey(l, a) && a.busy)
            && (answer == Refused(RequestMalformed) <==> a.body.NotJson?)
            && (answer == Refused(BodyInvalid) <==> a.body.OffSchema?)
            && (answer == Refused(PreconditionInvalid) <==> a.body.Read? && a.ifMatch.Malformed?)
    ensures var answer := Apply(l, a).answer;
            var f := l.fence;
            var readable := a.body.Read? && a.ifMatch.Present?;
            var concerned := (a.person == f.interviewer || Some(a.person) == f.coInterviewer)
                             && Some(a.person) != f.applicant;
            var opener := f.decision.Closed? && f.window.Some? && f.window.value.closedAt == None
                          && a.now < f.window.value.endsAt && f.window.value.openedBy == a.person;
            (answer.Refused? && StatusOf(answer.problem) == 403 <==>
               readable && (!concerned || (!f.cancelled && opener)))
  {
    GateExactly(l.fence, a);
    if Gate(l.fence, a).None? { GateMeetsFence(l.fence, a); }
  }

  /** What the endpoint refuses of a readable attempt is answered as it is: 401 without a credential, 403 without
      authority, 404 for an interview that is not there, 409 for a state that does not allow it. */
  lemma EndpointRefuses(l: Ledger, a: Attempt)
    requires a.body.Read? && a.ifMatch.Present? && a.endpoint.Some?
    ensures Apply(l, a) == Outcome(l, Refused(a.endpoint.value))
    ensures var status := StatusOf(a.endpoint.value);
            && (status == 401 <==> a.endpoint == Some(CredentialInvalid))
            && (status == 403 <==> a.endpoint == Some(AuthorityDenied) || a.endpoint == Some(ScopeDenied))
            && (status == 404 <==> a.endpoint == Some(NotFound))
            && (status == 409 <==>
                  a.endpoint.value in {AlreadyCancelled, AlreadyFinalized, InFlight, DigestConflict, ResponseExpired})
  {}

  /** Any other attempt leaves every row as it was; at most its own expired response is redacted. */
  lemma RefusedLeavesAll(l: Ledger, a: Attempt)
    requires !Apply(l, a).answer.Committed?
    ensures var next := Apply(l, a);
            && RowsKept(l, next.ledger)
            && (next.answer.Replayed? ==> next.ledger == l)
            && (next.ledger != l ==>
                  && next.answer in {Refused(DigestConflict), Refused(ResponseExpired)}
                  && IdentityOf(a) in l.http && l.http[IdentityOf(a)].Complete?
                  && l.http[IdentityOf(a)].committedAt + DAY <= a.now
                  && next.ledger.http == l.http[IdentityOf(a) := Tombstone(l.http[IdentityOf(a)].digest)])
  {
    if Unreadable(a).None? && Gate(l.fence, a).None? && a.key.Present? && !a.busy && IdentityOf(a) in l.http {
      var stored := l.http[IdentityOf(a)];
      if Expire(stored, a.now) == stored { assert l.http[IdentityOf(a) := stored] == l.http; }
    }
  }

  function Answered(l: Ledger, events: seq<Event>, i: nat): Answer
    requires i < |events| && events[i].Send?
  {
    Apply(Run(l, events[..i]), events[i].attempt).answer
  }

  /** Of all commands on one base revision at most one commits: a later commit names a later base. */
  lemma OneCommitPerBase(l: Ledger, events: seq<Event>, i: nat, j: nat)
    requires Consistent(l) && i < j < |events| && events[i].Send? && events[j].Send?
    requires Answered(l, events, i).Committed? && Answered(l, events, j).Committed?
    ensures events[i].attempt.body.body.expectedRevision < events[j].attempt.body.body.expectedRevision
  {
    var until := events[..j];
    assert until[..i] == events[..i] && until[..i + 1] == events[..i + 1];
    assert events[..i + 1][..i] == events[..i];
    HistoryOnlyGrows(l, until, i + 1);
    assert until == events[..j];
  }

  /** The correction row an attempt asks for on revision `from`. */
  function RowOf(a: Attempt, from: int): Assessment
    requires a.body.Read? && a.key.Present?
  {
    Assessment(from, from + 1, a.body.body.content, a.person, a.now, Identity(a.person, a.key.value))
  }

  /** A committed command leaves its own content as the effective assessment, on the revision it named, and
      its response carries the tag the next command must name. */
  lemma CommittedRecords(l: Ledger, a: Attempt)
    requires Consistent(l) && Apply(l, a).answer.Committed?
    ensures a.body.Read? && a.key.Present?
    ensures var next := Apply(l, a).ledger;
            var response := Apply(l, a).answer.response;
            var from := a.body.body.expectedRevision;
            && EffectiveContent(next) == a.body.body.content && next.revision == from + 1
            && next.assessments == l.assessments + [RowOf(a, from)]
            && response == Response(
                 Identity(a.person, a.key.value), from, from + 1, false,
                 ETag(from + 1, l.fence.coInterviewer, a.authority))
            && FenceAllows(l.fence, a.person, a.now)
  {
    CommitConsistent(l, a);
  }

  /** The last correction's content, or the original. */
  function EffectiveContent(l: Ledger): Content {
    if l.assessments == [] then l.original else l.assessments[|l.assessments| - 1].content
  }

  lemma RowAdded(l: Ledger, a: Attempt, k: nat)
    requires Consistent(l) && Apply(l, a).answer.Committed? && k == |l.assessments|
    ensures a.body.Read? && a.key.Present?
    ensures k < |Apply(l, a).ledger.assessments| && Apply(l, a).ledger.assessments[k] == RowOf(a, l.base + k)
    ensures FenceAllows(l.fence, a.person, a.now)
  {
    CommittedRecords(l, a);
  }

  /** Each correction row was committed by an attempt of the run, with its content, by its sender, whom the
      decision fence allowed at that moment: an assigned interviewer other than the applicant, and after the
      decision within a window somebody else had opened. */
  lemma {:induction false} RowWasCommitted(l: Ledger, events: seq<Event>, k: nat) returns (i: nat)
    requires Consistent(l) && |l.assessments| <= k < |Run(l, events).assessments|
    ensures i < |events| && events[i].Send? && Answered(l, events, i).Committed?
    ensures var a := events[i].attempt;
            && a.body.Read? && a.key.Present?
            && Run(l, events).assessments[k] == RowOf(a, l.base + k)
            && FenceAllows(Run(l, events[..i]).fence, a.person, a.now)
  {
    var n := |events| - 1;
    var before := Run(l, events[..n]);
    EveryRun(l, events[..n]);
    RunKeepsOriginal(l, events[..n]);
    if k < |before.assessments| {
      i := RowWasCommitted(l, events[..n], k);
      assert events[..n][..i] == events[..i];
    } else {
      i := n;
      RowAdded(before, events[n].attempt, k);
    }
  }

  /** Two commands that would each commit on the same ledger race: whichever comes second is refused with 412. */
  lemma RaceHasOneWinner(l: Ledger, a: Attempt, b: Attempt)
    requires Consistent(l) && Apply(l, a).answer.Committed? && Apply(l, b).answer.Committed?
    requires (a.person, a.key) != (b.person, b.key)
    ensures Apply(Apply(l, a).ledger, b) == Outcome(Apply(l, a).ledger, Refused(PreconditionFailed))
    ensures StatusOf(PreconditionFailed) == 412
  {
    CommittedRecords(l, a);
  }

  lemma {:induction false} RunJoins(l: Ledger, earlier: seq<Event>, later: seq<Event>)
    ensures Run(l, earlier + later) == Run(Run(l, earlier), later)
  {
    if later == [] {
      assert earlier + later == earlier;
    } else {
      var n := |later| - 1;
      assert (earlier + later)[..|earlier| + n] == earlier + later[..n];
      RunJoins(l, earlier, later[..n]);
    }
  }

  /** An attempt that changed nothing can be left out of any run: what comes after it ends in the same ledger. */
  lemma LeftOut(l: Ledger, before: seq<Event>, e: Event, after: seq<Event>)
    requires Next(Run(l, before), e) == Run(l, before)
    ensures Run(l, before + [e] + after) == Run(l, before + after)
    ensures Run(l, before + [e]) == Run(l, before)
  {
    RunJoins(l, before + [e], after);
    RunJoins(l, before, after);
    assert (before + [e])[..|before|] == before;
  }

  lemma FaultRefuses(l: Ledger, a: Attempt, stage: Stage)
    requires Apply(l, a).answer.Committed?
    ensures Apply(l, a.(fault := Some(stage))) == Outcome(l, Refused(DependencyUnavailable))
  {
    CommitsWhere(l, a);
  }

  lemma AnsweredThere(l: Ledger, before: seq<Event>, a: Attempt, after: seq<Event>)
    ensures Answered(l, before + [Send(a)] + after, |before|) == Apply(Run(l, before), a).answer
  {
    assert (before + [Send(a)] + after)[..|before|] == before;
  }

  lemma AnsweredLast(l: Ledger, before: seq<Event>, a: Attempt)
    ensures Answered(l, before + [Send(a)], |before|) == Apply(Run(l, before), a).answer
  {
    assert (before + [Send(a)])[..|before|] == before;
  }

  lemma FailedLeavesRun(l: Ledger, before: seq<Event>, a: Attempt, stage: Stage, after: seq<Event>)
    requires Apply(Run(l, before), a).answer.Committed?
    ensures var failing := Send(a.(fault := Some(stage)));
            && Answered(l, before + [failing] + after, |before|) == Refused(DependencyUnavailable)
            && Run(l, before + [failing] + after) == Run(l, before + after)
            && Run(l, before + [failing]) == Run(l, before)
  {
    FaultRefuses(Run(l, before), a, stage);
    AnsweredThere(l, before, a.(fault := Some(stage)), after);
    LeftOut(l, before, Send(a.(fault := Some(stage))), after);
  }

  /** Whichever write stage fails, in any run: the command that would have committed answers 503, the run goes on as
      if it had never been sent, and the same command sent next commits what it would have committed. */
  lemma FailedStageLeavesAll(l: Ledger, before: seq<Event>, a: Attempt, stage: Stage, after: seq<Event>)
    requires Apply(Run(l, before), a).answer.Committed?
    ensures var failing := Send(a.(fault := Some(stage)));
            && Answered(l, before + [failing] + after, |before|) == Refused(DependencyUnavailable)
            && Run(l, before + [failing] + after) == Run(l, before + after)
            && Answered(l, before + [failing] + [Send(a)], |before| + 1) == Apply(Run(l, before), a).answer
            && Run(l, before + [failing] + [Send(a)]) == Run(l, before + [Send(a)])
    ensures StatusOf(DependencyUnavailable) == 503
  {
    FailedLeavesRun(l, before, a, stage, after);
    FailedLeavesRun(l, before, a, stage, [Send(a)]);
    AnsweredLast(l, before + [Send(a.(fault := Some(stage)))], a);
  }

  /** After an early decision no attempt commits any more, although the gate may let it through. */
  lemma {:induction false} EarlyDecisionBlocks(l: Ledger, events: seq<Event>)
    requires EarlyDecision(l.fence)
    requires forall i :: 0 <= i < |events| && events[i].Surround? ==> events[i].fence.decision == l.fence.decision
    ensures EarlyDecision(Run(l, events).fence) && Run(l, events).fence.decision == l.fence.decision
    ensures Run(l, events).assessments == l.assessments && Run(l, events).revision == l.revision
  {
    if events != [] {
      var before := events[..|events| - 1];
      var last := events[|events| - 1];
      EarlyDecisionBlocks(l, before);
      if last.Send? { CommitsWhere(Run(l, before), last.attempt); }
    }
  }

  /** A command that would commit with the interview completed before the decision closed answers 503 with it
      completed afterwards. */
  lemma EarlyDecisionRefuses(l: Ledger, a: Attempt)
    requires Apply(l, a).answer.Committed? && l.fence.decision.Closed?
    ensures var early := l.(fence := l.fence.(decision := Closed(false, false)));
            Gate(early.fence, a).None? && Apply(early, a) == Outcome(early, Refused(DependencyUnavailable))
  {
    CommitsWhere(l, a);
  }

  // ---- Replay ------------------------------------------------------------------------------------------------------

  /** The clock of an event; what surrounds the corrections changes without one. */
  function NowOf(e: Event, otherwise: int): int {
    match e
    case Send(a) => a.now
    case Sweep(now) => now
    case Surround(_) => otherwise
  }

  ghost predicate Remembers(l: Ledger, a: Attempt, r: Response, now: int)
    requires Unreadable(a).None? && a.key.Present?
  {
    Remembered(l.http, IdentityOf(a), DigestOf(a), r, a.now, now)
  }

  lemma NextRemembers(l: Ledger, e: Event, a: Attempt, r: Response, now: int)
    requires Unreadable(a).None? && a.key.Present? && Remembers(l, a, r, now) && NowOf(e, now) <= now
    ensures Remembers(Next(l, e), a, r, now)
  {}

  lemma {:induction false} RunRemembers(l: Ledger, events: seq<Event>, i: nat, now: int)
    requires i < |events| && events[i].Send? && Answered(l, events, i).Committed?
    requires forall k :: i <= k < |events| ==> NowOf(events[k], now) <= now
    ensures var a := events[i].attempt;
            Unreadable(a).None? && a.key.Present? && Remembers(Run(l, events), a, Answered(l, events, i).response, now)
  {
    var n := |events| - 1;
    if i < n {
      assert events[..n][..i] == events[..i];
      RunRemembers(l, events[..n], i, now);
      NextRemembers(Run(l, events[..n]), events[n], events[i].attempt, Answered(l, events, i).response, now);
    }
  }

  /** However many commands commit in between, the same request under the same key gets the first stored
      response again for a day, then `response-expired`; another payload or If-Match under that key is
      refused; and without current authority neither is looked up. Nothing is written either way. */
  lemma ReplayIsExact(l: Ledger, events: seq<Event>, i: nat, again: Attempt)
    requires i < |events| && events[i].Send? && Answered(l, events, i).Committed?
    requires forall k :: i <= k < |events| ==> NowOf(events[k], again.now) <= again.now
    requires again.body.Read? && again.ifMatch.Present?
    requires again.person == events[i].attempt.person && again.key == events[i].attempt.key
    ensures var a := events[i].attempt;
            var answer := Apply(Run(l, events), again).answer;
            && (again.endpoint == None && MayCorrect(Run(l, events).fence, again.person, again.now) ==>
                  answer ==
                    (if again.busy then Refused(InFlight)
                     else if again.body != a.body || again.ifMatch != a.ifMatch then Refused(DigestConflict)
                     else if a.now + 86_400_000 <= again.now then Refused(ResponseExpired)
                     else Replayed(Answered(l, events, i).response)))
            && (again.endpoint.Some? || !MayCorrect(Run(l, events).fence, again.person, again.now) ==>
                  && Gate(Run(l, events).fence, again).Some?
                  && answer == Refused(Gate(Run(l, events).fence, again).value))
  {
    RunRemembers(l, events, i, again.now);
    GateExactly(Run(l, events).fence, again);
    var a := events[i].attempt;
    var first := Answered(l, events, i).response;
    RememberedAnswers(Run(l, events).http, IdentityOf(a), DigestOf(a), first, a.now, again.now, DigestOf(again));
  }

  /** The commit whose response is stored under this identity. */
  lemma {:induction false} StoredWasCommitted(l: Ledger, events: seq<Event>, identity: Identity) returns (i: nat)
    requires l.http == map[]
    requires identity in Run(l, events).http && Run(l, events).http[identity].Complete?
    ensures i < |events| && events[i].Send? && Answered(l, events, i).Committed?
    ensures var a := events[i].attempt;
            && Unreadable(a).None? && a.key.Present? && IdentityOf(a) == identity
            && Run(l, events).http[identity] == Complete(DigestOf(a), Answered(l, events, i).response, a.now)
  {
    var n := |events| - 1;
    var before := Run(l, events[..n]);
    var stored := Run(l, events).http[identity];
    if identity in before.http {
      assert before.http[identity] == stored;
      i := StoredWasCommitted(l, events[..n], identity);
      assert events[..n][..i] == events[..i];
    } else {
      i := n;
    }
  }

  /** Whatever is replayed was committed before, by the same person under the same key for the same request, and is
      replayed only to whom a correction is still open now. */
  lemma ReplayedWasCommitted(l: Ledger, events: seq<Event>, again: Attempt) returns (i: nat)
    requires l.http == map[]
    requires Apply(Run(l, events), again).answer.Replayed?
    ensures i < |events| && events[i].Send?
    ensures Answered(l, events, i) == Committed(Apply(Run(l, events), again).answer.response)
    ensures var a := events[i].attempt;
            && a.person == again.person && a.key == again.key && a.body == again.body && a.ifMatch == again.ifMatch
            && again.now < a.now + 86_400_000
    ensures again.endpoint == None && MayCorrect(Run(l, events).fence, again.person, again.now)
  {
    i := StoredWasCommitted(l, events, IdentityOf(again));
    GateExactly(Run(l, events).fence, again);
  }

  /** What surrounds the corrections may become anything between two attempts. */
  lemma SurroundExactly(l: Ledger, events: seq<Event>, fence: Fence)
    ensures Run(l, events + [Surround(fence)]) == Run(l, events).(fence := fence)
  {
    assert (events + [Surround(fence)])[..|events|] == events;
  }

  /** The sweep redacts exactly the responses that are a day old, and keeps everything else. */
  lemma SweepExactly(l: Ledger, now: int, identity: Identity)
    requires identity in l.http
    ensures var next := Next(l, Sweep(now));
            && next == l.(http := next.http) && next.http.Keys == l.http.Keys
            && next.http[identity]
                 == if l.http[identity].Complete? && l.http[identity].committedAt + 86_400_000 <= now
                    then Tombstone(l.http[identity].digest) else l.http[identity]
  {}

  // ---- The transaction, stage by stage ------------------------------------------------------------------------------

  lemma FiveStages(fault: Option<Stage>)
    ensures fault in {None, Some(AtRevision), Some(AtAssessment), Some(AtReceipt), Some(AtAudit), Some(AtHttp)}
  {
    match fault
    case None =>
    case Some(AtRevision) =>
    case Some(AtAssessment) =>
    case Some(AtReceipt) =>
    case Some(AtAudit) =>
    case Some(AtHttp) =>
  }

  /** The ledger after the first `n` of the five writes. */
  function StageLedger(l: Ledger, a: Attempt, n: nat): Ledger
    requires Unreadable(a).None? && a.key.Present?
  {
    var all := Commit(l, a);
    Ledger(
      l.base, l.original, l.fence,
      if n >= 1 then all.revision else l.revision,
      if n >= 2 then all.assessments else l.assessments,
      if n >= 3 then all.receipts else l.receipts,
      if n >= 4 then all.audit else l.audit,
      if n >= 5 then all.http else l.http)
  }

  /** How many writes the attempt makes: a failing one has written, one the decision fence refuses has not. */
  function WrittenStages(f: Fence, a: Attempt): nat {
    if a.fault == Some(AtRevision) || !FenceAllows(f, a.person, a.now) then 1
    else if a.fault == Some(AtAssessment) then 2
    else if a.fault == Some(AtReceipt) then 3
    else if a.fault == Some(AtAudit) then 4
    else 5
  }

  /** The write that comes after the first `n`. */
  function StageStatement(l: Ledger, a: Attempt, n: nat): Statement
    requires Unreadable(a).None? && a.key.Present? && n < 5
  {
    if n == 0 then AdvanceRevision(a.body.body.expectedRevision)
    else if n == 1 then InsertAssessment(Correction(l, a))
    else if n == 2 then InsertReceipt(ReceiptOf(l, a))
    else if n == 3 then InsertAudit(EntryOf(l, a))
    else InsertHttp(IdentityOf(a), StoredOf(l, a))
  }

  /** The storage lets the writes through one after the other, the second only for whom the decision fence allows. */
  lemma StageNext(l: Ledger, a: Attempt, n: nat)
    requires Consistent(l) && Unreadable(a).None? && a.key.Present? && IdentityOf(a) !in l.http
    requires a.body.body.expectedRevision == l.revision
    requires n == 0 || FenceAllows(l.fence, a.person, a.now)
    requires n < 5
    ensures Accept(StageLedger(l, a, n), StageStatement(l, a, n)) == Some(StageLedger(l, a, n + 1))
  {
    if FenceAllows(l.fence, a.person, a.now) { StagesCommit(l, a); }
  }

  lemma FenceStops(l: Ledger, a: Attempt)
    requires Unreadable(a).None? && a.key.Present? && !FenceAllows(l.fence, a.person, a.now)
    ensures Accept(StageLedger(l, a, 1), StageStatement(l, a, 1)).None?
  {}

  class Store {
    var base: nat
    var original: Content
    var fence: Fence
    var revision: int
    var assessments: seq<Assessment>
    var receipts: seq<Receipt>
    var audit: seq<Entry>
    var http: map<Identity, Stored<Digest, Response>>

    function Rows(): Ledger
      reads this
    {
      Ledger(base, original, fence, revision, assessments, receipts, audit, http)
    }

    constructor (base: nat, original: Content, fence: Fence)
      ensures Rows() == Fresh(base, original, fence)
    {
      this.base, this.original, this.fence, revision := base, original, fence, base;
      assessments, receipts, audit, http := [], [], [], map[];
    }

    method Restore(rows: Ledger)
      modifies this
      ensures Rows() == rows
    {
      base, original, fence, revision := rows.base, rows.original, rows.fence, rows.revision;
      assessments, receipts, audit, http := rows.assessments, rows.receipts, rows.audit, rows.http;
    }

    /** One write. A rejected statement writes nothing; a failing one has written before it fails. */
    method Write(s: Statement, fails: bool) returns (ok: bool)
      modifies this
      ensures ok == (Accept(old(Rows()), s).Some? && !fails)
      ensures Rows() == if Accept(old(Rows()), s).Some? then Accept(old(Rows()), s).value else old(Rows())
    {
      var accepted := Accept(Rows(), s);
      if accepted.Some? { Restore(accepted.value); }
      ok := accepted.Some? && !fails;
    }

    /** The revision and the correction row; the decision fence is looked at with the row. */
    method WriteRow(a: Attempt) returns (ok: bool)
      requires Consistent(Rows()) && Unreadable(a).None? && a.key.Present? && IdentityOf(a) !in http
      requires a.body.body.expectedRevision == revision
      modifies this
      ensures ok == (WrittenStages(old(fence), a) >= 2 && a.fault != Some(AtAssessment))
      ensures ok ==> FenceAllows(old(fence), a.person, a.now)
      ensures Rows() == StageLedger(old(Rows()), a, if WrittenStages(old(fence), a) >= 2 then 2 else 1)
    {
      ghost var before := Rows();
      var from := revision;
      StageNext(before, a, 0);
      ok := Write(AdvanceRevision(a.body.body.expectedRevision), a.fault == Some(AtRevision));
      if !ok { return; }
      if FenceAllows(fence, a.person, a.now) { StageNext(before, a, 1); } else { FenceStops(before, a); }
      var row := Assessment(from, revision, a.body.body.content, a.person, a.now, IdentityOf(a));
      ok := Write(InsertAssessment(row), a.fault == Some(AtAssessment));
    }

    /** Its receipt, its audit entry and the HTTP receipt. */
    method WriteReceipts(a: Attempt, from: int, ghost before: Ledger) returns (ok: bool)
      requires Consistent(before) && Unreadable(a).None? && a.key.Present? && IdentityOf(a) !in before.http
      requires a.body.body.expectedRevision == from == before.revision && FenceAllows(before.fence, a.person, a.now)
      requires Rows() == StageLedger(before, a, 2) && a.fault !in {Some(AtRevision), Some(AtAssessment)}
      modifies this
      ensures ok == a.fault.None?
      ensures Rows() == StageLedger(before, a, WrittenStages(before.fence, a))
    {
      FiveStages(a.fault);
      StageNext(before, a, 2);
      ok := Write(InsertReceipt(Receipt(IdentityOf(a), a.body.body, from, revision)), a.fault == Some(AtReceipt));
      if !ok { return; }
      StageNext(before, a, 3);
      ok := Write(InsertAudit(Entry(IdentityOf(a), a.person, from, revision)), a.fault == Some(AtAudit));
      if !ok { return; }
      StageNext(before, a, 4);
      var response := Response(IdentityOf(a), from, revision, false, ETag(revision, fence.coInterviewer, a.authority));
      ok := Write(InsertHttp(IdentityOf(a), Complete(DigestOf(a), response, a.now)), a.fault == Some(AtHttp));
    }

    /** The five writes in their order; the first that fails or is rejected ends them, and the rows hold what was
        written until then. */
    method WriteStages(a: Attempt) returns (ok: bool)
      requires Consistent(Rows()) && Unreadable(a).None? && a.key.Present? && IdentityOf(a) !in http
      requires a.body.body.expectedRevision == revision
      modifies this
      ensures ok == (a.fault.None? && FenceAllows(old(fence), a.person, a.now))
      ensures Rows() == StageLedger(old(Rows()), a, WrittenStages(old(fence), a))
    {
      ghost var before := Rows();
      var from := revision;
      ok := WriteRow(a);
      if !ok { return; }
      ok := WriteReceipts(a, from, before);
    }

    /** One attempt with its checks, stages and rollback does exactly what the atomic step does. An attempt that
        reaches its writes and fails in one of them, or is refused by the decision fence, leaves the rows it found. */
    method Correct(a: Attempt) returns (answer: Answer)
      requires Consistent(Rows())
      modifies this
      ensures Rows() == Apply(old(Rows()), a).ledger && answer == Apply(old(Rows()), a).answer
      ensures ReachesWrites(old(Rows()), a) && (a.fault.Some? || EarlyDecision(old(fence))) ==>
                answer == Refused(DependencyUnavailable) && Rows() == old(Rows())
      ensures Consistent(Rows())
    {
      ghost var entry := Rows();
      NextConsistent(entry, Send(a));
      var unreadable := Unreadable(a);
      if unreadable.Some? { return Refused(unreadable.value); }
      var gate := Gate(fence, a);
      if gate.Some? { return Refused(gate.value); }
      if !a.key.Present? { return Refused(KeyInvalid); }
      if a.busy { return Refused(InFlight); }
      var identity := IdentityOf(a);
      http := Redacted(http, identity, a.now);
      match Judge(http, identity, DigestOf(a)) {
        case Conflict => return Refused(DigestConflict);
        case Gone => return Refused(ResponseExpired);
        case Replay(response) => return Replayed(response);
        case Unknown =>
      }
      if a.ifMatch.value != ETag(revision, fence.coInterviewer, a.authority) { return Refused(PreconditionFailed); }
      if a.body.body.expectedRevision != revision { return Refused(PreconditionFailed); }
      if !a.answersFit { return Refused(AnswersInvalid); }
      var before := Rows();
      var response := ResponseTo(before, a);
      var ok := WriteStages(a);
      if !ok {
        Restore(before);
        return Refused(DependencyUnavailable);
      }
      return Committed(response);
    }
  }
}
