/** Deciding and announcing admission outcomes: the evidence an outcome rests on, the guards of the
    storage, the two commands with their receipts and mail, and what every run of many actors keeps. */
module AdmissionOutcomes {
  import opened HttpReceipts
  import opened Options

  datatype Basis = Ja | Kanskje | Nei | Returning | Unreviewed
  type Recommendation = b: Basis | b in {Ja, Kanskje, Nei} witness Ja
  datatype Outcome = Admitted | Rejected

  /** What the interview and the registration say now. */
  datatype Live = Live(completed: bool, cancelled: bool, recommendation: Option<Recommendation>, returning: bool)

  datatype Revision = Revision(number: int, outcome: Outcome, decider: Option<nat>)
  datatype Announcement = Announcement(outcome: Outcome, revision: int, announcer: nat)

  datatype Application = Application(
    profile: nat,
    live: Live,
    placed: bool,
    school: bool,
    /** The basis the first recorded outcome froze; one from before citations is `Unreviewed`. */
    frozen: Option<Basis>,
    history: seq<Revision>,
    announcement: Option<Announcement>)

  function LiveBasis(live: Live): Basis {
    if live.completed && !live.cancelled && live.recommendation.Some? then live.recommendation.value
    else if live.returning then Returning
    else Unreviewed
  }

  function BasisOf(app: Application): Basis { if app.frozen.Some? then app.frozen.value else LiveBasis(app.live) }

  function Latest(app: Application): Option<Outcome> {
    if app.history == [] then None else Some(app.history[|app.history| - 1].outcome)
  }

  function LatestNumber(app: Application): int {
    if app.history == [] then 0 else app.history[|app.history| - 1].number
  }

  /** The one outcome every reader sees: announced, else decided, else derived by the interview. */
  function OutcomeOf(app: Application): Option<Outcome> {
    if app.announcement.Some? then Some(app.announcement.value.outcome)
    else if app.frozen.Some? then Latest(app)
    else
      match LiveBasis(app.live)
      case Ja => Some(Admitted)
      case Nei => Some(Rejected)
      case _ => Latest(app)
  }

  /** A completed interview that is not cancelled ends in this recommendation. */
  predicate Recommends(live: Live, r: Recommendation) {
    live.completed && !live.cancelled && live.recommendation == Some(r)
  }

  /** What an application rests on: what was frozen, else the interview, else the registration as returning. */
  lemma BasisExactly(app: Application)
    ensures BasisOf(app) == Ja <==> app.frozen == Some(Ja) || (app.frozen == None && Recommends(app.live, Ja))
    ensures BasisOf(app) == Kanskje <==>
              app.frozen == Some(Kanskje) || (app.frozen == None && Recommends(app.live, Kanskje))
    ensures BasisOf(app) == Nei <==> app.frozen == Some(Nei) || (app.frozen == None && Recommends(app.live, Nei))
    ensures BasisOf(app) == Returning <==>
              || app.frozen == Some(Returning)
              || (&& app.frozen == None && app.live.returning
                  && !Recommends(app.live, Ja) && !Recommends(app.live, Kanskje) && !Recommends(app.live, Nei))
  {
    assert app.live.recommendation.Some? ==> app.live.recommendation.value in {Ja, Kanskje, Nei};
  }

  /** The outcome everybody reads: what was announced, else with a frozen basis what was recorded last, else what the
      interview recommends, else what was recorded last. */
  lemma OutcomeExactly(app: Application, outcome: Outcome)
    ensures OutcomeOf(app) == Some(outcome) <==>
              if app.announcement.Some? then app.announcement.value.outcome == outcome
              else if app.frozen == None && Recommends(app.live, Ja) then outcome == Admitted
              else if app.frozen == None && Recommends(app.live, Nei) then outcome == Rejected
              else app.history != [] && app.history[|app.history| - 1].outcome == outcome
  {
    BasisExactly(app);
  }

  /** What the commands read, and what their entity tags are derived from. */
  datatype Entry = Entry(
    profile: nat, basis: Basis, announced: bool, outcome: Option<Outcome>, placed: bool, revision: int)

  function Read(app: Application): Entry {
    Entry(app.profile, BasisOf(app), app.announcement.Some?, OutcomeOf(app), app.placed,
          LatestNumber(app) + if app.announcement.Some? then 1 else 0)
  }

  // ---- The storage guards -------------------------------------------------------------------------------

  /** A revision follows the latest one, never an announcement; a derived outcome takes no decision, and
      any other takes nothing but one. */
  predicate RevisionAllowed(app: Application, r: Revision) {
    && app.announcement.None? && r.number == LatestNumber(app) + 1
    && match BasisOf(app)
       case Ja => app.frozen.None? && r.decider.None? && OutcomeOf(app) == Some(r.outcome)
       case Nei => app.frozen.None? && r.decider.None? && OutcomeOf(app) == Some(r.outcome)
       case Kanskje => r.decider.Some?
       case Returning => r.decider.Some?
       case Unreviewed => false
  }

  /** The first revision freezes the basis it rests on. */
  function AppendRevision(app: Application, r: Revision): Option<Application> {
    if RevisionAllowed(app, r)
    then Some(app.(history := app.history + [r], frozen := Some(BasisOf(app))))
    else None
  }

  function InsertAnnouncement(app: Application, a: Announcement): Option<Application> {
    if && app.announcement.None? && app.history != []
       && a.revision == LatestNumber(app) && Latest(app) == Some(a.outcome) && OutcomeOf(app) == Some(a.outcome)
    then Some(app.(announcement := Some(a)))
    else None
  }

  /** A revision gets in exactly when nothing is announced, it is the next one, and it is either the outcome that the
      interview recommends, undecided, while nothing was recorded, or somebody's decision where a decision is open. */
  lemma RevisionExactly(app: Application, r: Revision)
    ensures AppendRevision(app, r).Some? <==>
              && app.announcement == None
              && r.number == (if app.history == [] then 1 else app.history[|app.history| - 1].number + 1)
              && (|| (r.decider == None && app.frozen == None
                      && ((r.outcome == Admitted && Recommends(app.live, Ja))
                          || (r.outcome == Rejected && Recommends(app.live, Nei))))
                  || (r.decider.Some?
                      && (if app.frozen.Some? then app.frozen.value == Kanskje || app.frozen.value == Returning
                          else || Recommends(app.live, Kanskje)
                               || (&& app.live.returning
                                   && !Recommends(app.live, Ja) && !Recommends(app.live, Nei)))))
    ensures AppendRevision(app, r).Some? ==>
              var after := AppendRevision(app, r).value;
              && after == app.(history := app.history + [r], frozen := after.frozen)
              && (app.frozen.Some? ==> after.frozen == app.frozen)
              && (app.frozen == None ==>
                    && (after.frozen == Some(Ja) <==> Recommends(app.live, Ja))
                    && (after.frozen == Some(Nei) <==> Recommends(app.live, Nei))
                    && (after.frozen == Some(Kanskje) <==> Recommends(app.live, Kanskje))
                    && after.frozen.Some? && after.frozen != Some(Unreviewed))
  {
    BasisExactly(app);
    OutcomeExactly(app, r.outcome);
  }

  /** An announcement gets in exactly when there is none, it names the last revision and its outcome, and with nothing
      frozen the interview does not recommend the contrary. */
  lemma AnnouncementExactly(app: Application, a: Announcement)
    ensures InsertAnnouncement(app, a).Some? <==>
              && app.announcement == None && app.history != []
              && a.revision == app.history[|app.history| - 1].number
              && a.outcome == app.history[|app.history| - 1].outcome
              && (app.frozen == None && Recommends(app.live, Ja) ==> a.outcome == Admitted)
              && (app.frozen == None && Recommends(app.live, Nei) ==> a.outcome == Rejected)
    ensures InsertAnnouncement(app, a).Some? ==> InsertAnnouncement(app, a).value == app.(announcement := Some(a))
  {
    OutcomeExactly(app, a.outcome);
  }

  // ---- The two commands on one application ------------------------------------------------------------------

  datatype Problem =
    | RequestMalformed | ValidationFailed | PreconditionRequired | PreconditionInvalid | KeyInvalid | NotFound
    | CredentialInvalid | AuthorityDenied | InFlight | DigestConflict | ResponseExpired | PreconditionFailed
    | Final | Derived | UnreviewedProblem | Undecided | PlacementActive | StorageRefused | Unavailable

  function StatusOf(p: Problem): int {
    match p
    case RequestMalformed => 400
    case PreconditionInvalid => 400
    case KeyInvalid => 400
    case CredentialInvalid => 401
    case AuthorityDenied => 403
    case NotFound => 404
    case PreconditionFailed => 412
    case ValidationFailed => 422
    case Derived => 422
    case UnreviewedProblem => 422
    case PreconditionRequired => 428
    case StorageRefused => 500
    case Unavailable => 503
    case _ => 409
  }

  datatype Change = No(problem: Problem) | Yes(application: Application)

  function Store(app: Option<Application>): Change { if app.Some? then Yes(app.value) else No(StorageRefused) }

  function Decide(app: Application, outcome: Outcome, actor: nat): Change {
    var current := Read(app);
    if current.announced then No(Final)
    else if current.basis in {Ja, Nei} then No(Derived)
    else if current.basis == Unreviewed then No(UnreviewedProblem)
    else if current.outcome == Some(outcome) then Yes(app)
    else if outcome == Rejected && current.placed then No(PlacementActive)
    else Store(AppendRevision(app, Revision(LatestNumber(app) + 1, outcome, Some(actor))))
  }

  /** A derived outcome becomes the final revision unless the latest one already says it. */
  function Finalized(app: Application, outcome: Outcome): Option<Application> {
    if Latest(app) == Some(outcome) then Some(app)
    else AppendRevision(app, Revision(LatestNumber(app) + 1, outcome, None))
  }

  function Announce(app: Application, actor: nat): Change {
    var current := Read(app);
    if current.announced then No(Final)
    else if current.outcome.None? then No(if current.basis == Unreviewed then UnreviewedProblem else Undecided)
    else if current.outcome == Some(Rejected) && current.placed then No(PlacementActive)
    else
      var outcome := current.outcome.value;
      var final := Finalized(app, outcome);
      if final.None? then No(StorageRefused)
      else Store(InsertAnnouncement(final.value, Announcement(outcome, LatestNumber(final.value), actor)))
  }

  /** Revisions are contiguous; the first froze a basis; derived bases have one undecided revision, and it
      is announced; decided ones have only decisions; an announcement names the last revision. */
  ghost predicate Sound(app: Application) {
    && (forall i :: 0 <= i < |app.history| ==> app.history[i].number == i + 1)
    && (app.frozen.Some? <==> app.history != [])
    && (app.announcement.Some? ==>
          && app.history != [] && app.announcement.value.revision == |app.history|
          && Latest(app) == Some(app.announcement.value.outcome))
    && (app.frozen.Some? && app.frozen.value in {Ja, Nei} ==>
          && |app.history| == 1 && app.history[0].decider.None? && app.announcement.Some?
          && app.history[0].outcome == if app.frozen.value == Ja then Admitted else Rejected)
    && (app.frozen.Some? && app.frozen.value in {Kanskje, Returning} ==>
          forall i :: 0 <= i < |app.history| ==> app.history[i].decider.Some?)
  }

  /** What the decision stores: the same application for the current outcome, or one revision more. */
  lemma DecideStores(app: Application, outcome: Outcome, actor: nat)
    requires Sound(app)
    ensures Decide(app, outcome, actor) != No(StorageRefused)
    ensures Decide(app, outcome, actor).Yes? ==>
              var after := Decide(app, outcome, actor).application;
              && Sound(after) && Latest(after) == Some(outcome) == OutcomeOf(after) && BasisOf(after) == BasisOf(app)
              && after.history
                   == if Latest(app) == Some(outcome) then app.history
                      else app.history + [Revision(|app.history| + 1, outcome, Some(actor))]
  {}

  /** What the announcement stores: its own row, and for a derived outcome the one revision. */
  lemma AnnounceStores(app: Application, actor: nat)
    requires Sound(app)
    ensures Announce(app, actor) != No(StorageRefused)
    ensures Announce(app, actor).Yes? ==>
              var after := Announce(app, actor).application;
              && Sound(after) && OutcomeOf(app).Some? && OutcomeOf(after) == OutcomeOf(app)
              && after.announcement == Some(Announcement(OutcomeOf(app).value, |after.history|, actor))
              && after.history
                   == if app.frozen.Some? then app.history else [Revision(1, OutcomeOf(app).value, None)]
  {}

  /** Each refusal of a decision names its own cause. */
  lemma DecideProblems(app: Application, outcome: Outcome, actor: nat)
    requires Sound(app)
    ensures var change := Decide(app, outcome, actor);
            var open := app.announcement == None && BasisOf(app) in {Kanskje, Returning};
            && (change == No(Final) <==> app.announcement.Some?)
            && (change == No(Derived) <==> app.announcement == None && BasisOf(app) in {Ja, Nei})
            && (change == No(UnreviewedProblem) <==> app.announcement == None && BasisOf(app) == Unreviewed)
            && (change == No(PlacementActive) <==>
                  open && outcome == Rejected && app.placed && OutcomeOf(app) != Some(Rejected))
  {
    DecideStores(app, outcome, actor);
    BasisExactly(app);
  }

  /** Each refusal of an announcement names its own cause. */
  lemma AnnounceProblems(app: Application, actor: nat)
    requires Sound(app)
    ensures var change := Announce(app, actor);
            var unknown := app.announcement == None && OutcomeOf(app) == None;
            && (change == No(Final) <==> app.announcement.Some?)
            && (change == No(UnreviewedProblem) <==> unknown && BasisOf(app) == Unreviewed)
            && (change == No(Undecided) <==> unknown && BasisOf(app) != Unreviewed)
            && (change == No(PlacementActive) <==>
                  app.announcement == None && OutcomeOf(app) == Some(Rejected) && app.placed)
  {
    AnnounceStores(app, actor);
  }

  /** On a sound application a decision is made exactly when it may be; the storage never refuses it. */
  lemma DecideExactly(app: Application, outcome: Outcome, actor: nat)
    requires Sound(app)
    ensures var change := Decide(app, outcome, actor);
            && change != No(StorageRefused)
            && (change.Yes? <==>
                  && app.announcement.None? && BasisOf(app) in {Kanskje, Returning}
                  && (Latest(app) == Some(outcome) || outcome == Admitted || !app.placed))
            && (change.Yes? ==>
                  && Sound(change.application)
                  && Latest(change.application) == Some(outcome) == OutcomeOf(change.application)
                  && BasisOf(change.application) == BasisOf(app)
                  && change.application.history
                       == if Latest(app) == Some(outcome) then app.history
                          else app.history + [Revision(|app.history| + 1, outcome, Some(actor))])
            && (change.No? ==>
                  && (StatusOf(change.problem) == 422 <==>
                        app.announcement.None? && BasisOf(app) in {Ja, Nei, Unreviewed})
                  && (StatusOf(change.problem) == 409 <==>
                        app.announcement.Some? || BasisOf(app) in {Kanskje, Returning}))
    ensures app.frozen == None && app.announcement == None ==>
              (Decide(app, outcome, actor).Yes? <==>
                 && (|| Recommends(app.live, Kanskje)
                     || (app.live.returning && !Recommends(app.live, Ja) && !Recommends(app.live, Nei)))
                 && (outcome == Admitted || !app.placed))
  {
    DecideStores(app, outcome, actor);
    BasisExactly(app);
  }

  /** On a sound application an announcement is made exactly when there is an outcome to announce that no
      active placement contradicts; it names that outcome and the last revision, and only a derived
      outcome adds one. */
  lemma AnnounceExactly(app: Application, actor: nat)
    requires Sound(app)
    ensures var change := Announce(app, actor);
            && change != No(StorageRefused)
            && (change.Yes? <==>
                  app.announcement.None? && OutcomeOf(app).Some? && (OutcomeOf(app) == Some(Rejected) ==> !app.placed))
            && (change.Yes? ==>
                  && Sound(change.application)
                  && OutcomeOf(change.application) == OutcomeOf(app)
                  && change.application.announcement
                       == Some(Announcement(OutcomeOf(app).value, |change.application.history|, actor))
                  && change.application.history
                       == if app.frozen.Some? then app.history else [Revision(1, OutcomeOf(app).value, None)])
            && (change.No? ==>
                  && (StatusOf(change.problem) == 422 <==>
                        app.announcement.None? && OutcomeOf(app).None? && BasisOf(app) == Unreviewed)
                  && (StatusOf(change.problem) == 409 <==>
                        app.announcement.Some? || OutcomeOf(app).Some? || BasisOf(app) != Unreviewed))
    ensures app.frozen == None && app.announcement == None ==>
              && (Announces(app, actor, Admitted) <==> Recommends(app.live, Ja))
              && (Announces(app, actor, Rejected) <==> Recommends(app.live, Nei) && !app.placed)
  {
    AnnounceStores(app, actor);
    BasisExactly(app);
  }

  /** The announcement is made and names this outcome. */
  predicate Announces(app: Application, actor: nat, outcome: Outcome) {
    && Announce(app, actor).Yes?
    && Announce(app, actor).application.announcement.Some?
    && Announce(app, actor).application.announcement.value.outcome == outcome
  }

  // ---- The commands over HTTP -----------------------------------------------------------------------------------

  datatype Operation = Deciding | Announcing
  datatype Identity = Identity(person: nat, operation: Operation, application: nat, key: nat)

  /** The representation a tag belongs to, and the entry it was derived from. */
  datatype Kind = Full | Minimal
  datatype ETag = ETag(kind: Kind, entry: Entry)

  datatype Field<T> = Missing | Malformed | Present(value: T)

  /** The body: not JSON, not of the schema, an outcome to decide, or the empty command to announce. */
  datatype Body = NotJson | OffSchema | DecideBody(outcome: Outcome) | AnnounceBody

  /** What current authority says of the sender in the department of the application. */
  datatype Authority = Authority(credential: bool, decide: bool, announce: bool)

  datatype Attempt = Attempt(
    person: nat,
    operation: Operation,
    application: nat,
    key: Field<nat>,
    body: Body,
    ifMatch: Field<ETag>,
    authority: Authority,
    now: int,
    busy: bool,
    /** A template that does not render, a mail row or a receipt that does not commit. */
    fault: bool)

  datatype Digest = Digest(body: Body, ifMatch: ETag)

  /** The one mail of an announcement; its delivery id is derived from the application. */
  datatype Template = RejectedMail | AdmittedWithSchool | AdmittedPlacementPending
  datatype Envelope = Envelope(application: nat, template: Template, profile: nat)

  /** The entry sent back and the representation it is sent in. */
  datatype Response = Response(etag: ETag)

  datatype World = World(
    applications: map<nat, Application>,
    outbox: seq<Envelope>,
    http: map<Identity, Stored<Digest, Response>>)

  datatype Answer = Committed(response: Response) | Replayed(response: Response) | Refused(problem: Problem)

  function Unreadable(a: Attempt): Option<Problem> {
    if a.body.NotJson? then Some(RequestMalformed)
    else if a.body.OffSchema? || (a.operation == Deciding) != a.body.DecideBody? then Some(ValidationFailed)
    else if a.ifMatch.Missing? then Some(PreconditionRequired)
    else if a.ifMatch.Malformed? then Some(PreconditionInvalid)
    else if !a.key.Present? then Some(KeyInvalid)
    else None
  }

  function IdentityOf(a: Attempt): Identity
    requires a.key.Present?
  {
    Identity(a.person, a.operation, a.application, a.key.value)
  }

  function DigestOf(a: Attempt): Digest
    requires a.ifMatch.Present?
  {
    Digest(a.body, a.ifMatch.value)
  }

  /** Whether the application exists, then who may do what. */
  function Gate(w: World, a: Attempt): Option<Problem> {
    if a.application !in w.applications then Some(NotFound)
    else if !a.authority.credential then Some(CredentialInvalid)
    else if !(if a.operation == Deciding then a.authority.decide else a.authority.announce) then Some(AuthorityDenied)
    else None
  }

  /** A decision needs the full representation's tag; an announcement also takes the minimal one. */
  predicate Current(a: Attempt, app: Application)
    requires a.ifMatch.Present?
  {
    var tag := a.ifMatch.value;
    tag.entry == Read(app)
    && (tag.kind == (if a.operation == Deciding then Full else Minimal)
        || (a.operation == Announcing && a.authority.decide))
  }

  function MailOf(app: Application): Template {
    if OutcomeOf(app) == Some(Rejected) then RejectedMail
    else if app.placed && app.school then AdmittedWithSchool
    else AdmittedPlacementPending
  }

  /** What the operation makes of the application, the tag aside. */
  function ChangeOf(a: Attempt, app: Application): Change
    requires Unreadable(a).None?
  {
    if a.operation == Deciding then Decide(app, a.body.outcome, a.person) else Announce(app, a.person)
  }

  function Execute(a: Attempt, app: Application): Change
    requires Unreadable(a).None?
  {
    if !Current(a, app) then No(PreconditionFailed)
    else
      var change := ChangeOf(a, app);
      if change.Yes? && a.fault then No(Unavailable) else change
  }

  function ResponseTo(a: Attempt, app: Application): Response {
    Response(ETag(if a.operation == Deciding then Full else Minimal, Read(app)))
  }

  /** Outcome, announcement, envelope and receipt commit together. */
  function Commit(w: World, a: Attempt, changed: Application): World
    requires Unreadable(a).None? && a.application in w.applications
  {
    w.(applications := w.applications[a.application := changed],
       outbox := if a.operation == Announcing
                 then w.outbox + [Envelope(a.application, MailOf(changed), changed.profile)] else w.outbox,
       http := w.http[IdentityOf(a) := Complete(DigestOf(a), ResponseTo(a, changed), a.now)])
  }

  datatype Step = Step(world: World, answer: Answer)

  function Apply(w: World, a: Attempt): Step {
    if Unreadable(a).Some? then Step(w, Refused(Unreadable(a).value))
    else if Gate(w, a).Some? then Step(w, Refused(Gate(w, a).value))
    else if a.busy then Step(w, Refused(InFlight))
    else
      var read := w.(http := Redacted(w.http, IdentityOf(a), a.now));
      match Judge(read.http, IdentityOf(a), DigestOf(a))
      case Conflict => Step(read, Refused(DigestConflict))
      case Gone => Step(read, Refused(ResponseExpired))
      case Replay(response) => Step(read, Replayed(response))
      case Unknown =>
        match Execute(a, w.applications[a.application])
        case No(problem) => Step(w, Refused(problem))
        case Yes(changed) => Step(Commit(w, a, changed), Committed(ResponseTo(a, changed)))
  }

  /** Attempts of any actors, and what the rest of the system does to an application meanwhile. */
  datatype Event =
    | Send(attempt: Attempt)
    | Evolve(application: nat, profile: nat, live: Live, placed: bool, school: bool)
    | Sweep(now: int)

  function Next(w: World, e: Event): World {
    match e
    case Send(a) => Apply(w, a).world
    case Evolve(id, profile, live, placed, school) =>
      if id in w.applications
      then w.(applications := w.applications[id :=
                w.applications[id].(profile := profile, live := live, placed := placed, school := school)])
      else w
    case Sweep(now) => w.(http := Swept(w.http, now))
  }

  function Run(w: World, events: seq<Event>): World {
    if events == [] then w else Next(Run(w, events[..|events| - 1]), events[|events| - 1])
  }

  /** The rest of the system may change the profile, the evidence and the placement of an application to anything, and
      nothing else; the sweep redacts exactly the responses that are a day old. */
  lemma MeanwhileExactly(w: World, events: seq<Event>, id: nat, profile: nat, live: Live, placed: bool, school: bool)
    ensures var now := Run(w, events);
            var next := Run(w, events + [Evolve(id, profile, live, placed, school)]);
            && next == now.(applications := next.applications) && next.applications.Keys == now.applications.Keys
            && (forall other :: other in now.applications && other != id ==>
                  next.applications[other] == now.applications[other])
            && (id in now.applications ==>
                  var app := now.applications[id];
                  next.applications[id] == Application(
                    profile, live, placed, school, app.frozen, app.history, app.announcement))
    ensures forall at, identity :: identity in Run(w, events).http ==>
              var now, next := Run(w, events), Next(Run(w, events), Sweep(at));
              var stored := now.http[identity];
              && next == now.(http := next.http) && next.http.Keys == now.http.Keys
              && next.http[identity] == if stored.Complete? && stored.committedAt + 86_400_000 <= at
                                        then Tombstone(stored.digest) else stored
  {
    var e := Evolve(id, profile, live, placed, school);
    assert (events + [e])[..|events|] == events;
  }

  // ---- What every run keeps ---------------------------------------------------------------------------------------

  ghost predicate Mailed(w: World, id: nat) {
    exists i :: 0 <= i < |w.outbox| && w.outbox[i].application == id
  }

  /** An application is announced exactly when it has an envelope, and it has one, that says the outcome. */
  ghost predicate OneMailEach(w: World) {
    && (forall i, j :: 0 <= i < j < |w.outbox| ==> w.outbox[i].application != w.outbox[j].application)
    && (forall i :: 0 <= i < |w.outbox| ==>
          && w.outbox[i].application in w.applications
          && var app := w.applications[w.outbox[i].application];
             && app.announcement.Some?
             && (w.outbox[i].template == RejectedMail <==> app.announcement.value.outcome == Rejected))
    && (forall id :: id in w.applications && w.applications[id].announcement.Some? ==> Mailed(w, id))
  }

  ghost predicate Valid(w: World) {
    (forall id :: id in w.applications ==> Sound(w.applications[id])) && OneMailEach(w)
  }

  /** What happens to one application in a step: nothing of the record, one decision, or the announcement. */
  ghost predicate Moves(before: Application, after: Application) {
    && before.history <= after.history
    && (before.announcement.Some? ==> after.announcement == before.announcement && after.history == before.history)
    && (before.frozen.Some? ==> after.frozen == before.frozen)
    && (before.frozen.None? && after.frozen.Some? ==> after.frozen.value == BasisOf(before))
    && |after.history| <= |before.history| + 1
    && (|after.history| > |before.history| ==>
          if after.history[|before.history|].decider.Some? then BasisOf(before) in {Kanskje, Returning}
          else BasisOf(before) in {Ja, Nei} && after.announcement.Some?)
  }

  /** What an executed command does to its application. */
  lemma ExecuteMoves(a: Attempt, app: Application)
    requires Sound(app) && Unreadable(a).None? && Execute(a, app).Yes?
    ensures var changed := Execute(a, app).application;
            && Sound(changed) && Moves(app, changed) && app.announcement.None?
            && (a.operation == Deciding ==> changed.announcement.None?)
            && (a.operation == Announcing ==>
                  changed.announcement.Some? && OutcomeOf(changed) == Some(changed.announcement.value.outcome))
  {
    if a.operation == Deciding {
      DecideExactly(app, a.body.outcome, a.person);
    } else {
      AnnounceExactly(app, a.person);
    }
  }

  lemma CommitMail(w: World, a: Attempt, changed: Application)
    requires OneMailEach(w) && Unreadable(a).None? && a.application in w.applications
    requires w.applications[a.application].announcement.None?
    requires a.operation == Deciding ==> changed.announcement.None?
    requires a.operation == Announcing ==>
               changed.announcement.Some? && OutcomeOf(changed) == Some(changed.announcement.value.outcome)
    ensures OneMailEach(Commit(w, a, changed))
  {
    var next := Commit(w, a, changed);
    var n := |w.outbox|;
    assert forall i :: 0 <= i < n ==> next.outbox[i] == w.outbox[i] && w.outbox[i].application != a.application;
    forall id | id in next.applications && next.applications[id].announcement.Some? ensures Mailed(next, id) {
      if id == a.application {
        assert next.outbox[n].application == id;
      } else {
        var i :| 0 <= i < n && w.outbox[i].application == id;
        assert next.outbox[i].application == id;
      }
    }
  }

  lemma CommitValid(w: World, a: Attempt, changed: Application)
    requires Valid(w) && Unreadable(a).None? && a.application in w.applications
    requires Execute(a, w.applications[a.application]) == Yes(changed)
    ensures Valid(Commit(w, a, changed)) && Moves(w.applications[a.application], changed)
  {
    ExecuteMoves(a, w.applications[a.application]);
    CommitMail(w, a, changed);
  }

  /** A step that only ages receipts, or changes what surrounds the record of an application. */
  ghost predicate RecordsKept(w: World, next: World) {
    && next.outbox == w.outbox && next.applications.Keys == w.applications.Keys
    && forall id :: id in w.applications ==>
         && Moves(w.applications[id], next.applications[id])
         && next.applications[id].history == w.applications[id].history
         && next.applications[id].announcement == w.applications[id].announcement
         && next.applications[id].frozen == w.applications[id].frozen
  }

  lemma SoundKept(app: Application, next: Application)
    requires Sound(app) && next.history == app.history && next.announcement == app.announcement
    requires next.frozen == app.frozen
    ensures Sound(next)
  {}

  lemma RecordsKeptValid(w: World, next: World)
    requires Valid(w) && RecordsKept(w, next)
    ensures Valid(next)
  {
    forall id | id in next.applications ensures Sound(next.applications[id]) {
      SoundKept(w.applications[id], next.applications[id]);
    }
    forall id | id in next.applications && next.applications[id].announcement.Some? ensures Mailed(next, id) {
      assert Mailed(w, id);
    }
  }

  /** What an attempt that committed did. */
  lemma CommittedIs(w: World, a: Attempt)
    requires Apply(w, a).answer.Committed?
    ensures Unreadable(a).None? && Gate(w, a).None? && !a.busy && IdentityOf(a) !in w.http
    ensures Execute(a, w.applications[a.application]).Yes?
    ensures Apply(w, a).world == Commit(w, a, Execute(a, w.applications[a.application]).application)
  {}

  /** An attempt that does not commit changes nothing but, at most, its own expired receipt. */
  lemma RefusedLeavesAll(w: World, a: Attempt)
    requires !Apply(w, a).answer.Committed?
    ensures var step := Apply(w, a);
            && step.world == w.(http := step.world.http) && OnlyAged(w.http, step.world.http)
            && (step.world != w ==> step.answer in {Refused(DigestConflict), Refused(ResponseExpired)})
  {
    if Unreadable(a).None? && Gate(w, a).None? && !a.busy && IdentityOf(a) in w.http {
      var stored := w.http[IdentityOf(a)];
      if Expire(stored, a.now) == stored { assert w.http[IdentityOf(a) := stored] == w.http; }
    }
  }

  lemma SendValid(w: World, a: Attempt)
    requires Valid(w)
    ensures Valid(Apply(w, a).world) && Apply(w, a).world.applications.Keys == w.applications.Keys
    ensures forall id :: id in w.applications ==> Moves(w.applications[id], Apply(w, a).world.applications[id])
  {
    if Apply(w, a).answer.Committed? {
      CommittedIs(w, a);
      CommitValid(w, a, Execute(a, w.applications[a.application]).application);
    } else {
      RefusedLeavesAll(w, a);
      RecordsKeptValid(w, Apply(w, a).world);
    }
  }

  lemma NextValid(w: World, e: Event)
    requires Valid(w)
    ensures Valid(Next(w, e)) && Next(w, e).applications.Keys == w.applications.Keys
    ensures forall id :: id in w.applications ==> Moves(w.applications[id], Next(w, e).applications[id])
  {
    if e.Send? { SendValid(w, e.attempt); } else { RecordsKeptValid(w, Next(w, e)); }
  }

  lemma {:induction false} EveryRun(w: World, events: seq<Event>)
    requires Valid(w)
    ensures Valid(Run(w, events)) && Run(w, events).applications.Keys == w.applications.Keys
  {
    if events != [] {
      EveryRun(w, events[..|events| - 1]);
      NextValid(Run(w, events[..|events| - 1]), events[|events| - 1]);
    }
  }

  /** What may lie between two moments of one application: more history, at most one announcement. */
  ghost predicate Later(earlier: Application, later: Application) {
    && earlier.history <= later.history
    && Read(earlier).revision <= Read(later).revision
    && (earlier.announcement.Some? ==> later.announcement == earlier.announcement && later.history == earlier.history)
    && (earlier.frozen.Some? ==> later.frozen == earlier.frozen)
  }

  lemma MovesLater(a: Application, b: Application, c: Application)
    requires Later(a, b) && Moves(b, c) && Sound(b) && Sound(c)
    ensures Later(a, c)
  {}

  /** The last step of a run, as one application sees it. */
  lemma LastMove(w: World, events: seq<Event>, id: nat) returns (before: Application, after: Application)
    requires Valid(w) && events != [] && id in w.applications
    ensures var start := Run(w, events[..|events| - 1]);
            id in start.applications && before == start.applications[id]
    ensures id in Run(w, events).applications && after == Run(w, events).applications[id]
    ensures Sound(before) && Sound(after) && Moves(before, after)
  {
    EveryRun(w, events[..|events| - 1]);
    NextValid(Run(w, events[..|events| - 1]), events[|events| - 1]);
    before := Run(w, events[..|events| - 1]).applications[id];
    after := Run(w, events).applications[id];
  }

  /** Nothing recorded of an application is ever lost; once announced, nothing is added either; and the
      basis of its first recorded outcome stays. */
  lemma {:induction false} RecordOnlyGrows(w: World, events: seq<Event>, n: nat, id: nat)
    requires Valid(w) && n <= |events| && id in w.applications
    ensures id in Run(w, events[..n]).applications && id in Run(w, events).applications
    ensures Later(Run(w, events[..n]).applications[id], Run(w, events).applications[id])
  {
    if n == |events| {
      EveryRun(w, events);
      assert events[..n] == events;
    } else {
      var m := |events| - 1;
      RecordOnlyGrows(w, events[..m], n, id);
      assert events[..m][..n] == events[..n];
      var before, after := LastMove(w, events, id);
      MovesLater(Run(w, events[..n]).applications[id], before, after);
    }
  }

  function Envelopes(outbox: seq<Envelope>, id: nat): nat {
    if outbox == [] then 0
    else Envelopes(outbox[..|outbox| - 1], id) + if outbox[|outbox| - 1].application == id then 1 else 0
  }

  lemma {:induction false} CountEnvelopes(outbox: seq<Envelope>, id: nat)
    requires forall i, j :: 0 <= i < j < |outbox| ==> outbox[i].application != outbox[j].application
    ensures Envelopes(outbox, id) == if exists i :: 0 <= i < |outbox| && outbox[i].application == id then 1 else 0
  {
    if outbox != [] {
      var n := |outbox| - 1;
      CountEnvelopes(outbox[..n], id);
      if i :| 0 <= i < n && outbox[i].application == id { assert outbox[..n][i].application == id; }
    }
  }

  /** In every run an application that is announced has exactly one envelope, and any other has none. */
  lemma OneEnvelopePerAnnouncement(w: World, events: seq<Event>, id: nat)
    requires Valid(w) && id in w.applications
    ensures id in Run(w, events).applications
    ensures Envelopes(Run(w, events).outbox, id) == if Run(w, events).applications[id].announcement.Some? then 1 else 0
  {
    EveryRun(w, events);
    CountEnvelopes(Run(w, events).outbox, id);
    assert Run(w, events).applications[id].announcement.Some? <==> Mailed(Run(w, events), id);
  }

  /** Every revision a run adds is a decision exactly when the frozen basis is Kanskje or Returning; on Ja
      and Nei it is the derived outcome, undecided and announced; without cited evidence there is none. */
  lemma {:induction false} DerivedNeverDecided(w: World, events: seq<Event>, id: nat, k: nat)
    requires Valid(w) && id in w.applications && id in Run(w, events).applications
    requires |w.applications[id].history| <= k < |Run(w, events).applications[id].history|
    ensures var app := Run(w, events).applications[id];
            && app.frozen.Some? && app.frozen.value != Unreviewed
            && (app.history[k].decider.Some? <==> app.frozen.value in {Kanskje, Returning})
            && (app.history[k].decider.None? ==>
                  && k == 0 && |app.history| == 1 && app.announcement.Some?
                  && app.history[0].outcome == if app.frozen.value == Ja then Admitted else Rejected)
  {
    if events != [] {
      var before, after := LastMove(w, events, id);
      if k < |before.history| {
        DerivedNeverDecided(w, events[..|events| - 1], id, k);
        assert after.history[k] == before.history[k];
      }
    }
  }

  function Answered(w: World, events: seq<Event>, i: nat): Answer
    requires i < |events| && events[i].Send?
  {
    Apply(Run(w, events[..i]), events[i].attempt).answer
  }

  lemma RunStep(w: World, events: seq<Event>, i: nat)
    requires i < |events|
    ensures Run(w, events[..i + 1]) == Next(Run(w, events[..i]), events[i])
  {
    assert events[..i + 1][..i] == events[..i];
  }

  /** Only who may send the command to an application there is: the right body, a tag and a key, a valid credential,
      and the authority to decide or to announce. */
  predicate Allowed(w: World, a: Attempt) {
    && (if a.operation == Deciding then a.body.DecideBody? else a.body == AnnounceBody)
    && a.ifMatch.Present? && a.key.Present? && a.application in w.applications && a.authority.credential
    && (if a.operation == Deciding then a.authority.decide else a.authority.announce)
  }

  /** The tag names the application as it is, field by field, in a representation the command takes: the full one, and
      to announce also the minimal one, which who may decide need not have. */
  predicate NamesCurrent(a: Attempt, app: Application) {
    && a.ifMatch.Present?
    && a.ifMatch.value.entry
         == Entry(app.profile, BasisOf(app), app.announcement.Some?, OutcomeOf(app), app.placed,
                  |app.history| + if app.announcement.Some? then 1 else 0)
    && (if a.operation == Deciding then a.ifMatch.value.kind == Full
        else a.ifMatch.value.kind == Minimal || a.authority.decide)
  }

  lemma AllowedExactly(w: World, a: Attempt)
    ensures Unreadable(a).None? && Gate(w, a).None? <==> Allowed(w, a)
  {}

  lemma CommittedWhere(w: World, a: Attempt)
    ensures Apply(w, a).answer.Committed? <==>
              && Allowed(w, a) && !a.busy && Identity(a.person, a.operation, a.application, a.key.value) !in w.http
              && Unreadable(a).None? && Execute(a, w.applications[a.application]).Yes?
  {
    AllowedExactly(w, a);
  }

  /** What the operation demands of the application. */
  predicate Demands(a: Attempt, app: Application) {
    && app.announcement == None
    && if a.operation == Deciding
       then
         && a.body.DecideBody? && BasisOf(app) in {Kanskje, Returning}
         && (a.body.outcome == Admitted || !app.placed || Latest(app) == Some(Rejected))
       else OutcomeOf(app).Some? && (OutcomeOf(app) == Some(Rejected) ==> !app.placed)
  }

  lemma ExecuteExactly(a: Attempt, app: Application)
    requires Sound(app) && Unreadable(a).None?
    ensures Execute(a, app).Yes? <==> NamesCurrent(a, app) && Demands(a, app) && !a.fault
  {
    CurrentExactly(a, app);
    if a.operation == Deciding {
      DecideExactly(app, a.body.outcome, a.person);
    } else {
      AnnounceExactly(app, a.person);
    }
  }

  /** A command commits exactly when it is allowed, alone and unknown under its key, names the application as it is,
      meets what its operation demands, and nothing fails. */
  lemma CommitsExactly(w: World, a: Attempt)
    requires Valid(w)
    ensures Apply(w, a).answer.Committed? <==>
              && Allowed(w, a) && !a.busy && Identity(a.person, a.operation, a.application, a.key.value) !in w.http
              && NamesCurrent(a, w.applications[a.application]) && Demands(a, w.applications[a.application])
              && !a.fault
  {
    AllowedExactly(w, a);
    CommittedWhere(w, a);
    if Allowed(w, a) { ExecuteExactly(a, w.applications[a.application]); }
  }

  lemma CurrentExactly(a: Attempt, app: Application)
    requires Sound(app)
    ensures a.ifMatch.Present? ==> (Current(a, app) <==> NamesCurrent(a, app))
  {}

  /** Each status of an attempt that is not refused for what the application is has one cause. */
  lemma StatusesExactly(w: World, a: Attempt)
    requires Valid(w)
    ensures var answer := Apply(w, a).answer;
            var status := if answer.Refused? then StatusOf(answer.problem) else 200;
            var shaped := if a.operation == Deciding then a.body.DecideBody? else a.body == AnnounceBody;
            var read := shaped && a.ifMatch.Present? && a.key.Present?;
            var there := read && a.application in w.applications;
            var unknown := Allowed(w, a) && !a.busy
                         && Identity(a.person, a.operation, a.application, a.key.value) !in w.http;
            && (status == 400 <==>
                  a.body.NotJson? || (shaped && (a.ifMatch.Malformed? || (a.ifMatch.Present? && !a.key.Present?))))
            && (status == 428 <==> shaped && a.ifMatch.Missing?)
            && (!shaped && !a.body.NotJson? ==> status == 422)
            && (status == 404 <==> read && a.application !in w.applications)
            && (status == 401 <==> there && !a.authority.credential)
            && (status == 403 <==>
                  there && a.authority.credential
                  && !(if a.operation == Deciding then a.authority.decide else a.authority.announce))
            && (status == 412 <==> unknown && !NamesCurrent(a, w.applications[a.application]))
            && (answer == Refused(InFlight) <==> Allowed(w, a) && a.busy)
            && status != 500
            && (answer == Refused(RequestMalformed) <==> a.body.NotJson?)
            && (answer == Refused(PreconditionInvalid) <==> shaped && a.ifMatch.Malformed?)
            && (answer == Refused(KeyInvalid) <==> shaped && a.ifMatch.Present? && !a.key.Present?)
  {
    if Allowed(w, a) { ExecuteStatus(a, w.applications[a.application]); }
    assert Unreadable(a).None? <==> IsShaped(a) && a.ifMatch.Present? && a.key.Present?;
  }

  predicate IsShaped(a: Attempt) { if a.operation == Deciding then a.body.DecideBody? else a.body == AnnounceBody }

  lemma DecideStatus(app: Application, outcome: Outcome, actor: nat)
    requires Sound(app) && Decide(app, outcome, actor).No?
    ensures StatusOf(Decide(app, outcome, actor).problem) in {409, 422}
  {
    DecideStores(app, outcome, actor);
  }

  lemma AnnounceStatus(app: Application, actor: nat)
    requires Sound(app) && Announce(app, actor).No?
    ensures StatusOf(Announce(app, actor).problem) in {409, 422}
  {
    AnnounceStores(app, actor);
  }

  lemma ChangeStatus(a: Attempt, app: Application)
    requires Sound(app) && Unreadable(a).None? && ChangeOf(a, app).No?
    ensures StatusOf(ChangeOf(a, app).problem) in {409, 422}
  {
    if a.operation == Deciding { DecideStatus(app, a.body.outcome, a.person); } else { AnnounceStatus(app, a.person); }
  }

  /** What an application refuses a command with: 412 exactly for another tag. */
  lemma ExecuteStatus(a: Attempt, app: Application)
    requires Sound(app) && Unreadable(a).None?
    ensures Execute(a, app).No? ==> StatusOf(Execute(a, app).problem) in {409, 412, 422, 503}
    ensures Execute(a, app).No? && StatusOf(Execute(a, app).problem) == 412 <==> !NamesCurrent(a, app)
  {
    CurrentExactly(a, app);
    var change := ChangeOf(a, app);
    assert Execute(a, app) == if !Current(a, app) then No(PreconditionFailed)
                              else if change.Yes? && a.fault then No(Unavailable) else change;
    if change.No? { ChangeStatus(a, app); }
  }

  /** A command that was to record something and meets a failure answers 503 and records nothing. */
  lemma FailureLeavesAll(w: World, a: Attempt)
    requires Valid(w) && Apply(w, a).answer.Committed?
    ensures Apply(w, a.(fault := true)) == Step(w, Refused(Unavailable)) && StatusOf(Unavailable) == 503
  {
    CommittedIs(w, a);
  }

  /** An executed command left the application as it was or raised its revision. */
  lemma ExecutedRaises(a: Attempt, app: Application)
    requires Sound(app) && Unreadable(a).None? && Execute(a, app).Yes?
    ensures var after := Execute(a, app).application; after == app || Read(after).revision > Read(app).revision
  {
    if a.operation == Deciding {
      DecideExactly(app, a.body.outcome, a.person);
    } else {
      AnnounceExactly(app, a.person);
    }
  }

  /** A committed command that recorded something moved the revision its tag was derived from. */
  lemma CommitMovesRevision(w: World, events: seq<Event>, i: nat) returns (before: Application, after: Application)
    requires Valid(w) && i < |events| && events[i].Send? && Answered(w, events, i).Committed?
    ensures var id := events[i].attempt.application;
            && id in w.applications
            && id in Run(w, events[..i]).applications && before == Run(w, events[..i]).applications[id]
            && id in Run(w, events[..i + 1]).applications && after == Run(w, events[..i + 1]).applications[id]
    ensures events[i].attempt.ifMatch.Present? && events[i].attempt.ifMatch.value.entry == Read(before)
    ensures after == before || Read(after).revision > Read(before).revision
  {
    var a := events[i].attempt;
    var start := Run(w, events[..i]);
    EveryRun(w, events[..i]);
    RunStep(w, events, i);
    CommittedIs(start, a);
    before := start.applications[a.application];
    after := Execute(a, before).application;
    ExecutedRaises(a, before);
  }

  /** Of all commands on one version of an application at most one records anything: when two commit under
      the same entry, the first only repeated the current outcome. */
  lemma OneChangePerVersion(w: World, events: seq<Event>, i: nat, j: nat)
    requires Valid(w) && i < j < |events| && events[i].Send? && events[j].Send?
    requires Answered(w, events, i).Committed? && Answered(w, events, j).Committed?
    requires events[i].attempt.application == events[j].attempt.application
    requires events[i].attempt.ifMatch.Present? && events[j].attempt.ifMatch.Present?
    requires events[i].attempt.ifMatch.value.entry == events[j].attempt.ifMatch.value.entry
    ensures var id := events[i].attempt.application;
            var before, after := Run(w, events[..i]), Run(w, events[..i + 1]);
            id in before.applications && id in after.applications && after.applications[id] == before.applications[id]
  {
    var before, after := CommitMovesRevision(w, events, i);
    var later, _ := CommitMovesRevision(w, events, j);
    assert events[..j][..i + 1] == events[..i + 1];
    RecordOnlyGrows(w, events[..j], i + 1, events[i].attempt.application);
  }

  /** An announcement queues one envelope, in the words of its outcome and placement; a decision none. Either
      answers with the tag that is current afterwards. */
  lemma CommitQueues(w: World, a: Attempt)
    requires Valid(w) && Apply(w, a).answer.Committed?
    ensures a.application in w.applications && a.application in Apply(w, a).world.applications
    ensures var before, after := w.applications[a.application], Apply(w, a).world.applications[a.application];
            var next := Apply(w, a).world;
            && (a.operation == Deciding ==>
                a.body.DecideBody? && next.outbox == w.outbox && OutcomeOf(after) == Some(a.body.outcome))
            && (a.operation == Announcing ==>
                  && OutcomeOf(before).Some? && OutcomeOf(after) == OutcomeOf(before) && after.announcement.Some?
                  && next.outbox == w.outbox + [Envelope(a.application,
                       if OutcomeOf(before) == Some(Rejected) then RejectedMail
                       else if before.placed && before.school then AdmittedWithSchool else AdmittedPlacementPending,
                       before.profile)])
            && Apply(w, a).answer.response.etag == ETag(if a.operation == Deciding then Full else Minimal, Read(after))
            && (forall id :: id in w.applications && id != a.application ==>
                next.applications[id] == w.applications[id])
  {
    CommittedIs(w, a);
    var app := w.applications[a.application];
    if a.operation == Deciding {
      DecideExactly(app, a.body.outcome, a.person);
    } else {
      AnnounceExactly(app, a.person);
    }
  }

  // ---- Replay -----------------------------------------------------------------------------------------

  function NowOf(e: Event, otherwise: int): int {
    match e
    case Send(a) => a.now
    case Sweep(now) => now
    case Evolve(_, _, _, _, _) => otherwise
  }

  ghost predicate Remembers(w: World, a: Attempt, r: Response, now: int)
    requires Unreadable(a).None?
  {
    Remembered(w.http, IdentityOf(a), DigestOf(a), r, a.now, now)
  }

  lemma NextRemembers(w: World, e: Event, a: Attempt, r: Response, now: int)
    requires Unreadable(a).None? && Remembers(w, a, r, now) && NowOf(e, now) <= now
    ensures Remembers(Next(w, e), a, r, now)
  {}

  lemma {:induction false} RunRemembers(w: World, events: seq<Event>, i: nat, now: int)
    requires i < |events| && events[i].Send? && Answered(w, events, i).Committed?
    requires forall k :: i <= k < |events| ==> NowOf(events[k], now) <= now
    ensures var a := events[i].attempt;
            Unreadable(a).None? && Remembers(Run(w, events), a, Answered(w, events, i).response, now)
  {
    var n := |events| - 1;
    if i == n {
      CommittedIs(Run(w, events[..n]), events[n].attempt);
    } else {
      assert events[..n][..i] == events[..i];
      RunRemembers(w, events[..n], i, now);
      NextRemembers(Run(w, events[..n]), events[n], events[i].attempt, Answered(w, events, i).response, now);
    }
  }

  /** Whatever was decided or announced since, the same command under the same key gets its first answer
      for a day; another one under that key is refused; without current authority nothing is looked up. */
  lemma ReplayIsExact(w: World, events: seq<Event>, i: nat, again: Attempt)
    requires i < |events| && events[i].Send? && Answered(w, events, i).Committed?
    requires forall k :: i <= k < |events| ==> NowOf(events[k], again.now) <= again.now
    requires Unreadable(again).None?
    requires again.person == events[i].attempt.person && again.operation == events[i].attempt.operation
    requires again.application == events[i].attempt.application && again.key == events[i].attempt.key
    ensures var a := events[i].attempt;
            var last := Run(w, events);
            var step := Apply(last, again);
            && step.answer ==
                 (if again.application !in last.applications then Refused(NotFound)
                  else if !again.authority.credential then Refused(CredentialInvalid)
                  else if !Allowed(last, again) then Refused(AuthorityDenied)
                  else if again.busy then Refused(InFlight)
                  else if again.body != a.body || again.ifMatch != a.ifMatch then Refused(DigestConflict)
                  else if a.now + 86_400_000 <= again.now then Refused(ResponseExpired)
                  else Replayed(Answered(w, events, i).response))
            && step.world.applications == last.applications && step.world.outbox == last.outbox
  {
    var a := events[i].attempt;
    RunRemembers(w, events, i, again.now);
    var first := Answered(w, events, i).response;
    RememberedAnswers(Run(w, events).http, IdentityOf(a), DigestOf(a), first, a.now, again.now, DigestOf(again));
  }

  /** Only executed commands keep a receipt: each one was committed under its identity. */
  lemma {:induction false} ReceiptWasCommitted(w: World, events: seq<Event>, identity: Identity) returns (i: nat)
    requires identity !in w.http && identity in Run(w, events).http
    ensures i < |events| && events[i].Send? && Answered(w, events, i).Committed?
    ensures var a := events[i].attempt;
            && a.key.Present? && identity == Identity(a.person, a.operation, a.application, a.key.value)
  {
    var n := |events| - 1;
    var before := Run(w, events[..n]);
    if identity in before.http {
      i := ReceiptWasCommitted(w, events[..n], identity);
      assert events[..n][..i] == events[..i];
    } else {
      i := n;
      if !Answered(w, events, n).Committed? { RefusedLeavesAll(before, events[n].attempt); }
      CommittedIs(before, events[n].attempt);
    }
  }

  // ---- The transaction, write by write ----------------------------------------------------------------

  class Board {
    var applications: map<nat, Application>
    var outbox: seq<Envelope>
    var http: map<Identity, Stored<Digest, Response>>

    function Rows(): World
      reads this
    {
      World(applications, outbox, http)
    }

    constructor (rows: World)
      ensures Rows() == rows
    {
      applications, outbox, http := rows.applications, rows.outbox, rows.http;
    }

    method Restore(rows: World)
      modifies this
      ensures Rows() == rows
    {
      applications, outbox, http := rows.applications, rows.outbox, rows.http;
    }

    /** One row of the application, when its guard lets it through. */
    method Put(id: nat, row: Option<Application>) returns (ok: bool)
      modifies this`applications
      ensures ok == row.Some?
      ensures applications == if ok then old(applications)[id := row.value] else old(applications)
    {
      ok := row.Some?;
      if ok { applications := applications[id := row.value]; }
    }

    /** Decides in at most one write. */
    method DecideNow(id: nat, outcome: Outcome, actor: nat) returns (problem: Option<Problem>)
      requires id in applications
      modifies this`applications
      ensures Rows() == match Decide(old(applications)[id], outcome, actor)
                        case No(_) => old(Rows())
                        case Yes(app) => old(Rows()).(applications := old(applications)[id := app])
      ensures problem == match Decide(old(applications)[id], outcome, actor) case No(p) => Some(p) case Yes(_) => None
    {
      var app := applications[id];
      var current := Read(app);
      if current.announced { return Some(Final); }
      if current.basis in {Ja, Nei} { return Some(Derived); }
      if current.basis == Unreviewed { return Some(UnreviewedProblem); }
      if current.outcome == Some(outcome) {
        assert applications[id := app] == applications;
        return None;
      }
      if outcome == Rejected && current.placed { return Some(PlacementActive); }
      var ok := Put(id, AppendRevision(app, Revision(LatestNumber(app) + 1, outcome, Some(actor))));
      if !ok { return Some(StorageRefused); }
      return None;
    }

    /** Announces in three writes: the derived revision unless it is there, the announcement, the mail. A guard
        that refuses the second leaves the first to the rollback. */
    method AnnounceNow(id: nat, actor: nat) returns (problem: Option<Problem>)
      requires id in applications
      modifies this`applications, this`outbox
      ensures problem == match Announce(old(applications)[id], actor) case No(p) => Some(p) case Yes(_) => None
      ensures problem.None? ==>
                var app := Announce(old(applications)[id], actor).application;
                && applications == old(applications)[id := app]
                && outbox == old(outbox) + [Envelope(id, MailOf(app), app.profile)]
    {
      var app := applications[id];
      var current := Read(app);
      if current.announced { return Some(Final); }
      if current.outcome.None? { return Some(if current.basis == Unreviewed then UnreviewedProblem else Undecided); }
      if current.outcome == Some(Rejected) && current.placed { return Some(PlacementActive); }
      var outcome := current.outcome.value;
      if Latest(app) != Some(outcome) {
        var appended := Put(id, AppendRevision(app, Revision(LatestNumber(app) + 1, outcome, None)));
        if !appended { return Some(StorageRefused); }
      }
      var final := applications[id];
      var announced := Put(id, InsertAnnouncement(final, Announcement(outcome, LatestNumber(final), actor)));
      if !announced { return Some(StorageRefused); }
      outbox := outbox + [Envelope(id, MailOf(applications[id]), applications[id].profile)];
      return None;
    }

    /** One attempt with its checks, writes and rollback does exactly what the atomic step does. */
    method Handle(a: Attempt) returns (answer: Answer)
      modifies this
      ensures Rows() == Apply(old(Rows()), a).world && answer == Apply(old(Rows()), a).answer
    {
      var before := Rows();
      var unreadable := Unreadable(a);
      if unreadable.Some? { return Refused(unreadable.value); }
      var gate := Gate(before, a);
      if gate.Some? { return Refused(gate.value); }
      if a.busy { return Refused(InFlight); }
      http := Redacted(http, IdentityOf(a), a.now);
      match Judge(http, IdentityOf(a), DigestOf(a)) {
        case Conflict => return Refused(DigestConflict);
        case Gone => return Refused(ResponseExpired);
        case Replay(response) => return Replayed(response);
        case Unknown =>
      }
      if !Current(a, applications[a.application]) { return Refused(PreconditionFailed); }
      var problem: Option<Problem>;
      if a.operation == Deciding {
        problem := DecideNow(a.application, a.body.outcome, a.person);
      } else {
        problem := AnnounceNow(a.application, a.person);
      }
      if problem.Some? || a.fault {
        Restore(before);
        return Refused(if problem.Some? then problem.value else Unavailable);
      }
      var response := ResponseTo(a, applications[a.application]);
      http := http[IdentityOf(a) := Complete(DigestOf(a), response, a.now)];
      return Committed(response);
    }
  }
}
