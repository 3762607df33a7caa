/** One golden journey as a protocol: the body's ordered checkpoints race signals, the deadline and
    supervised exits; cleanup, source verification, the artifacts and one receipt follow. */
module Journey {
  import opened Counting
  import opened Options
  import opened Redaction
  import opened Utf16

  datatype Signal = SIGINT | SIGTERM

  datatype Reason = Signalled(signal: Signal) | Deadline

  datatype Outcome = Passed | Failed(failure: string) | Interrupted(reason: Reason)

  /** Why a run did not pass, in the order the harness decides it. */
  datatype Primary =
    | JourneyFailed(failure: string)
    | WasInterrupted(reason: Reason)
    | CleanupFailed(errors: seq<string>)
    | SourceChanged(message: string)

  datatype Receipt = Receipt(
    passed: bool,
    exitCode: nat,
    terminationSignal: Option<Signal>,
    stepIds: seq<string>,
    requiredStepIds: seq<string>)

  /** A file of the run, its bytes read as one unit each. */
  datatype Artifact = Artifact(path: string, bytes: Text)

  /** A file the harness writes itself: its text before redaction, the matches of the header rule, and its bytes. */
  datatype Draft = Draft(text: Text, headers: seq<Span>, bytes: Text)

  predicate Redacted(secrets: seq<Text>, d: Draft) {
    && Fits(Replaced(secrets, d.text), d.headers)
    && Encodes(MaskHeaders(Replaced(secrets, d.text), d.headers), d.bytes)
  }

  /** The files in which a secret occurs. */
  function LeakedPaths(secrets: seq<Text>, artifacts: seq<Artifact>): seq<string> {
    if artifacts == [] then []
    else
      var before, last := LeakedPaths(secrets, artifacts[..|artifacts| - 1]), artifacts[|artifacts| - 1];
      if Leaks(secrets, last.bytes) then before + [last.path] else before
  }

  /** A checkpoint call that passed the order check when `at` steps were recorded. */
  datatype Pending = Pending(step: string, at: nat)

  datatype Phase = Body | Settled | Cleaned | Verified | Reasoned | Reported

  datatype World = World(
    steps: seq<string>,
    /** Registered with the redactor so far. */
    secrets: seq<Text>,
    phase: Phase,
    /** Checkpoints that passed the order check and still observe. */
    pending: seq<Pending>,
    observations: seq<string>,
    received: seq<Signal>,
    /** The deferred that keeps the first signal. */
    retained: Option<Signal>,
    supervision: Option<string>,
    outcome: Outcome,
    cleanupErrors: seq<string>,
    sourceError: Option<string>,
    reason: Option<Reason>,
    primary: Option<Primary>,
    /** Signals that had arrived when the reason was computed. */
    receivedAtReason: seq<Signal>,
    /** What the harness wrote, and what else lies in the directory. */
    own: seq<Artifact>,
    others: seq<Artifact>,
    leaked: seq<string>,
    receipt: Option<Receipt>)

  function Start(steps: seq<string>): World {
    World(steps, [], Body, [], [], [], None, None, Passed, [], None, None, None, [], [], [], [], None)
  }

  /** One atomic step of the body, of its environment, or of the harness after the body. */
  datatype Event =
    | SignalArrives(signal: Signal)
    | SupervisedExit(failure: string)
    | RegisterSecret(secret: Text)
    | BeginCheckpoint(step: string)
    | CompleteCheckpoint(index: nat)
    | AbandonCheckpoint(index: nat)
    | BodySucceeds
    | BodyFails(failure: string)
    | InterruptionWins
    | DeadlineWins
    | SupervisionWins
    | CleanUp(errors: seq<string>)
    | VerifySource(error: Option<string>)
    | DecideReason
    | Report(evidence: Draft, logs: Draft, others: seq<Artifact>)

  predicate Enabled(w: World, e: Event) {
    match e
    case SignalArrives(_) => w.phase != Reported
    case SupervisedExit(_) => w.phase != Reported
    case RegisterSecret(secret) => w.phase == Body && Hex(secret)
    case BeginCheckpoint(_) => w.phase == Body
    case CompleteCheckpoint(i) => w.phase == Body && i < |w.pending|
    case AbandonCheckpoint(i) => w.phase == Body && i < |w.pending|
    case BodySucceeds => w.phase == Body
    case BodyFails(_) => w.phase == Body
    case InterruptionWins => w.phase == Body && w.retained.Some?
    case DeadlineWins => w.phase == Body
    case SupervisionWins => w.phase == Body && w.supervision.Some?
    case CleanUp(_) => w.phase == Settled
    case VerifySource(_) => w.phase == Cleaned
    case DecideReason => w.phase == Verified
    case Report(evidence, logs, _) =>
      w.phase == Reasoned && Redacted(w.secrets, evidence) && Redacted(w.secrets, logs)
  }

  function Without(xs: seq<Pending>, i: nat): seq<Pending>
    requires i < |xs|
  {
    xs[..i] + xs[i + 1..]
  }

  function Settle(w: World, outcome: Outcome): World { w.(phase := Settled, pending := [], outcome := outcome) }

  /** An interrupted outcome keeps its own reason; otherwise the retained signal is the reason. */
  function ReasonOf(w: World): Option<Reason> {
    if w.outcome.Interrupted? then Some(w.outcome.reason)
    else if w.retained.Some? then Some(Signalled(w.retained.value))
    else None
  }

  function PrimaryOf(w: World, reason: Option<Reason>): Option<Primary> {
    if w.outcome.Failed? then Some(JourneyFailed(w.outcome.failure))
    else if reason.Some? then Some(WasInterrupted(reason.value))
    else if w.cleanupErrors != [] then Some(CleanupFailed(w.cleanupErrors))
    else if w.sourceError.Some? then Some(SourceChanged(w.sourceError.value))
    else None
  }

  function ExitCodeFor(reason: Option<Reason>, passed: bool): nat {
    if reason == Some(Signalled(SIGINT)) then 130
    else if reason == Some(Signalled(SIGTERM)) then 143
    else if passed then 0 else 1
  }

  /** The evidence is always written, the logs of the processes only for a failure. */
  function OwnFiles(w: World, evidence: Draft, logs: Draft): seq<Artifact> {
    var first := [Artifact("evidence.json", evidence.bytes)];
    if w.primary.Some? then first + [Artifact("failure.log", logs.bytes)] else first
  }

  function Reporting(w: World, own: seq<Artifact>, others: seq<Artifact>): World {
    var leaked := LeakedPaths(w.secrets, own + others);
    w.(phase := Reported, own := own, others := others, leaked := leaked, receipt := Some(ReceiptOf(w, leaked)))
  }

  function ReceiptOf(w: World, leaked: seq<string>): Receipt {
    var passed := w.primary.None? && leaked == [];
    Receipt(passed, ExitCodeFor(w.reason, passed),
            if w.reason.Some? && w.reason.value.Signalled? then Some(w.reason.value.signal) else None,
            w.observations, w.steps)
  }

  function Next(w: World, e: Event): World
    requires Enabled(w, e)
  {
    match e
    case SignalArrives(s) =>
      w.(received := w.received + [s], retained := if w.retained.None? then Some(s) else w.retained)
    case SupervisedExit(f) => if w.supervision.None? then w.(supervision := Some(f)) else w
    case RegisterSecret(secret) => if secret in w.secrets then w else w.(secrets := w.secrets + [secret])
    case BeginCheckpoint(step) =>
      if |w.observations| < |w.steps| && step == w.steps[|w.observations|]
      then w.(pending := w.pending + [Pending(step, |w.observations|)]) else w
    case CompleteCheckpoint(i) =>
      w.(observations := w.observations + [w.pending[i].step], pending := Without(w.pending, i))
    case AbandonCheckpoint(i) => w.(pending := Without(w.pending, i))
    case BodySucceeds =>
      if |w.observations| == |w.steps| then Settle(w, Passed)
      else Settle(w, Failed("checkpoint: required steps missing"))
    case BodyFails(f) => Settle(w, Failed(f))
    case InterruptionWins => Settle(w, Interrupted(Signalled(w.retained.value)))
    case DeadlineWins => Settle(w, Interrupted(Deadline))
    case SupervisionWins => Settle(w, Failed(w.supervision.value))
    case CleanUp(errors) => w.(phase := Cleaned, cleanupErrors := errors)
    case VerifySource(error) => w.(phase := Verified, sourceError := error)
    case DecideReason =>
      w.(phase := Reasoned, reason := ReasonOf(w), primary := PrimaryOf(w, ReasonOf(w)), receivedAtReason := w.received)
    case Report(evidence, logs, others) => Reporting(w, OwnFiles(w, evidence, logs), others)
  }

  /** The world after a run, if every event of it was possible. */
  function Run(w: World, events: seq<Event>): Option<World> {
    if events == [] then Some(w)
    else
      var before := Run(w, events[..|events| - 1]);
      var e := events[|events| - 1];
      if before.Some? && Enabled(before.value, e) then Some(Next(before.value, e)) else None
  }

  /** If this event completes a call, no other one completed since it passed the order check. */
  ghost predicate CompletesInTurn(start: World, events: seq<Event>, n: nat)
    requires n < |events|
  {
    var w := Run(start, events[..n]);
    events[n].CompleteCheckpoint? && w.Some? && events[n].index < |w.value.pending| ==>
      w.value.pending[events[n].index].at == |w.value.observations|
  }

  /** No accepted call completes after another one completed since it passed the order check. */
  ghost predicate InTurn(start: World, events: seq<Event>) {
    forall n :: 0 <= n < |events| ==> CompletesInTurn(start, events, n)
  }

  /** Checkpoint calls do not overlap: each begins when none is observing. */
  predicate Sequential(w: World, events: seq<Event>) {
    events == []
    || (Sequential(w, events[..|events| - 1])
        && (events[|events| - 1].BeginCheckpoint? ==>
              Run(w, events[..|events| - 1]).Some? ==> Run(w, events[..|events| - 1]).value.pending == []))
  }

  // ---- Invariants --------------------------------------------------------------------------------------

  predicate Deciding(p: Phase) { p == Reasoned || p == Reported }

  function FirstOf(signals: seq<Signal>): Option<Signal> { if signals == [] then None else Some(signals[0]) }

  /** The retained signal is the first received one, and a signal interrupts only as that one. */
  ghost predicate Signals(w: World) {
    && w.retained == FirstOf(w.received)
    && (w.outcome.Interrupted? && w.outcome.reason.Signalled? ==>
          w.received != [] && w.outcome.reason.signal == w.received[0])
  }

  /** The reason and the primary failure follow from the signals that had arrived then, the receipt from them. */
  ghost predicate Decided(w: World) {
    && (Deciding(w.phase) ==>
          && w.receivedAtReason <= w.received
          && w.reason == ReasonOf(w.(retained := FirstOf(w.receivedAtReason)))
          && w.primary == PrimaryOf(w, w.reason))
    && (w.phase == Reported <==> w.receipt.Some?)
    && (w.receipt.Some? ==> w.receipt.value == ReceiptOf(w, w.leaked))
  }

  /** Holds on every run, also when checkpoints overlap. */
  ghost predicate Consistent(w: World) {
    && Signals(w) && Decided(w)
    && (w.phase != Body && w.outcome.Passed? ==> |w.observations| == |w.steps|)
  }

  /** The secrets are hexadecimal, the leaked files are those in which one occurs, and no file the harness wrote is
      among them unless a secret is empty. */
  ghost predicate Guarded(w: World) {
    && (forall i :: 0 <= i < |w.secrets| ==> Hex(w.secrets[i]))
    && (w.receipt.Some? ==>
          && w.leaked == LeakedPaths(w.secrets, w.own + w.others)
          && w.own != []
          && (forall i :: 0 <= i < |w.own| ==> (Leaks(w.secrets, w.own[i].bytes) <==> [] in w.secrets)))
  }

  /** Each pending call is of the step that was next when it passed the check. */
  ghost predicate Stamped(w: World) {
    forall i :: 0 <= i < |w.pending| ==>
      var call := w.pending[i];
      call.at <= |w.observations| && call.at < |w.steps| && call.step == w.steps[call.at]
  }

  /** One call at most is pending, and nothing was recorded since it passed the check. */
  ghost predicate Alone(w: World) {
    |w.pending| <= 1 && (w.pending != [] ==> w.pending[0].at == |w.observations|)
  }

  lemma StepSignals(w: World, e: Event)
    requires Signals(w) && Enabled(w, e)
    ensures Signals(Next(w, e))
  {}

  lemma ReasonDecided(w: World)
    requires Signals(w) && Decided(w) && Enabled(w, DecideReason)
    ensures Decided(Next(w, DecideReason))
  {}

  lemma StepDecided(w: World, e: Event)
    requires Signals(w) && Decided(w) && Enabled(w, e)
    ensures Decided(Next(w, e))
  {
    if e.DecideReason? { ReasonDecided(w); }
  }

  lemma StepConsistent(w: World, e: Event)
    requires Consistent(w) && Enabled(w, e)
    ensures Consistent(Next(w, e))
  {
    StepSignals(w, e);
    StepDecided(w, e);
  }

  lemma StepGuarded(w: World, e: Event)
    requires Guarded(w) && Enabled(w, e) && (w.receipt.Some? ==> w.phase == Reported)
    ensures Guarded(Next(w, e))
  {
    if e.Report? {
      RedactedFileLeaksExactly(w.secrets, e.evidence.text, e.evidence.headers, e.evidence.bytes);
      RedactedFileLeaksExactly(w.secrets, e.logs.text, e.logs.headers, e.logs.bytes);
    }
  }

  lemma StepStamped(w: World, e: Event)
    requires Stamped(w) && Enabled(w, e)
    ensures Stamped(Next(w, e)) && Next(w, e).steps == w.steps
  {}

  /** A step leaves the record, or completes a call: then a record in order stays so if the call completes in turn,
      and among distinct steps only then. */
  lemma StepRecords(w: World, e: Event)
    requires Stamped(w) && Enabled(w, e)
    ensures !e.CompleteCheckpoint? ==> Next(w, e).observations == w.observations
    ensures e.CompleteCheckpoint? && w.observations <= w.steps && w.pending[e.index].at == |w.observations| ==>
              Next(w, e).observations <= w.steps
    ensures Next(w, e).observations <= w.steps ==> w.observations <= w.steps
    ensures e.CompleteCheckpoint? && Next(w, e).observations <= w.steps && Distinct(w.steps) ==>
              w.pending[e.index].at == |w.observations|
  {
    var next := Next(w, e).observations;
    if e.CompleteCheckpoint? {
      var k := |w.observations|;
      assert next[..k] == w.observations && next[k] == w.steps[w.pending[e.index].at];
      assert next <= w.steps ==> next == w.steps[..k + 1] && w.observations == w.steps[..k];
    }
  }

  lemma StepAlone(w: World, e: Event)
    requires Alone(w) && Enabled(w, e) && (e.BeginCheckpoint? ==> w.pending == [])
    ensures Alone(Next(w, e))
    ensures e.CompleteCheckpoint? ==> w.pending[e.index].at == |w.observations|
  {}

  lemma {:induction false} EveryRunConsistent(steps: seq<string>, events: seq<Event>)
    requires Run(Start(steps), events).Some?
    ensures Consistent(Run(Start(steps), events).value) && Run(Start(steps), events).value.steps == steps
  {
    if events != [] {
      var before := events[..|events| - 1];
      EveryRunConsistent(steps, before);
      StepConsistent(Run(Start(steps), before).value, events[|events| - 1]);
    }
  }

  /** The moments of a run are runs. */
  lemma {:induction false} MomentRuns(start: World, events: seq<Event>, n: nat)
    requires Run(start, events).Some? && n <= |events|
    ensures Run(start, events[..n]).Some?
  {
    if n == |events| {
      assert events[..n] == events;
    } else {
      MomentRuns(start, events[..|events| - 1], n);
      assert events[..|events| - 1][..n] == events[..n];
    }
  }

  lemma InTurnUntil(start: World, events: seq<Event>, m: nat)
    requires m <= |events|
    ensures InTurn(start, events) ==> InTurn(start, events[..m])
    ensures m + 1 == |events| ==>
              (InTurn(start, events) <==> InTurn(start, events[..m]) && CompletesInTurn(start, events, m))
  {
    forall n | 0 <= n < m ensures CompletesInTurn(start, events, n) <==> CompletesInTurn(start, events[..m], n) {
      assert events[..m][..n] == events[..n];
    }
  }

  /** The record of a run is a prefix of the required steps if calls complete in turn, and for distinct steps only
      then. */
  lemma {:induction false} RecordInTurn(steps: seq<string>, events: seq<Event>)
    requires Run(Start(steps), events).Some?
    ensures var w := Run(Start(steps), events).value;
            && Stamped(w) && w.steps == steps
            && (InTurn(Start(steps), events) ==> w.observations <= steps)
            && (Distinct(steps) && w.observations <= steps ==> InTurn(Start(steps), events))
  {
    if events != [] {
      var m := |events| - 1;
      var before := Run(Start(steps), events[..m]).value;
      RecordInTurn(steps, events[..m]);
      InTurnUntil(Start(steps), events, m);
      StepStamped(before, events[m]);
      StepRecords(before, events[m]);
    }
  }

  ghost predicate PrefixAt(steps: seq<string>, events: seq<Event>, n: nat)
    requires n <= |events|
  {
    Run(Start(steps), events[..n]).Some? && Run(Start(steps), events[..n]).value.observations <= steps
  }

  /** At every moment of every run whose calls complete in turn, the record is a prefix of the required steps. */
  lemma RecordIsPrefix(steps: seq<string>, events: seq<Event>)
    requires Run(Start(steps), events).Some? && InTurn(Start(steps), events)
    ensures forall n :: 0 <= n <= |events| ==> PrefixAt(steps, events, n)
  {
    forall n | 0 <= n <= |events| ensures PrefixAt(steps, events, n) {
      MomentRuns(Start(steps), events, n);
      InTurnUntil(Start(steps), events, n);
      RecordInTurn(steps, events[..n]);
    }
  }

  /** For distinct steps that is exact: the record is a prefix at every moment of a run if and only if no accepted
      call completes after another one completed since it passed the order check. */
  lemma PrefixExactly(steps: seq<string>, events: seq<Event>)
    requires Run(Start(steps), events).Some? && Distinct(steps)
    ensures (forall n :: 0 <= n <= |events| ==> PrefixAt(steps, events, n)) <==> InTurn(Start(steps), events)
  {
    if InTurn(Start(steps), events) {
      RecordIsPrefix(steps, events);
    }
    if forall n :: 0 <= n <= |events| ==> PrefixAt(steps, events, n) {
      assert PrefixAt(steps, events, |events|) && events[..|events|] == events;
      RecordInTurn(steps, events);
    }
  }

  /** Calls that are each awaited before the next complete in turn. */
  lemma {:induction false} SequentialInTurn(steps: seq<string>, events: seq<Event>)
    requires Run(Start(steps), events).Some? && Sequential(Start(steps), events)
    ensures Alone(Run(Start(steps), events).value) && InTurn(Start(steps), events)
  {
    if events != [] {
      var m := |events| - 1;
      SequentialInTurn(steps, events[..m]);
      InTurnUntil(Start(steps), events, m);
      StepAlone(Run(Start(steps), events[..m]).value, events[m]);
    }
  }

  lemma {:induction false} EveryRunGuarded(steps: seq<string>, events: seq<Event>)
    requires Run(Start(steps), events).Some?
    ensures Guarded(Run(Start(steps), events).value)
  {
    if events != [] {
      var before := events[..|events| - 1];
      EveryRunConsistent(steps, before);
      EveryRunGuarded(steps, before);
      StepGuarded(Run(Start(steps), before).value, events[|events| - 1]);
    }
  }

  lemma {:induction false} LeakedExactly(secrets: seq<Text>, artifacts: seq<Artifact>)
    ensures LeakedPaths(secrets, artifacts) == []
       <==> forall i :: 0 <= i < |artifacts| ==> !Leaks(secrets, artifacts[i].bytes)
  {
    if artifacts != [] {
      var n := |artifacts| - 1;
      LeakedExactly(secrets, artifacts[..n]);
      assert artifacts == artifacts[..n] + [artifacts[n]];
    }
  }

  /** No file holds a registered secret. */
  ghost predicate Clean(secrets: seq<Text>, artifacts: seq<Artifact>) {
    forall i, j :: 0 <= i < |artifacts| && 0 <= j < |secrets| ==> !Contains(artifacts[i].bytes, secrets[j])
  }

  lemma CleanExactly(secrets: seq<Text>, artifacts: seq<Artifact>)
    ensures LeakedPaths(secrets, artifacts) == [] <==> Clean(secrets, artifacts)
  {
    LeakedExactly(secrets, artifacts);
  }

  // ---- What the events of a run tell -------------------------------------------------------------------

  predicate Settles(e: Event) {
    e.BodySucceeds? || e.BodyFails? || e.InterruptionWins? || e.DeadlineWins? || e.SupervisionWins?
  }

  predicate Cleans(e: Event) { e.CleanUp? }
  predicate Verifies(e: Event) { e.VerifySource? }
  predicate Decides(e: Event) { e.DecideReason? }
  predicate Reports(e: Event) { e.Report? }
  predicate Arrives(e: Event) { e.SignalArrives? }
  predicate Exits(e: Event) { e.SupervisedExit? }

  ghost predicate Had(events: seq<Event>, kind: Event -> bool) { exists i :: 0 <= i < |events| && kind(events[i]) }

  lemma HadNext(events: seq<Event>, e: Event, kind: Event -> bool)
    ensures Had(events + [e], kind) <==> Had(events, kind) || kind(e)
  {
    var more := events + [e];
    if i :| 0 <= i < |events| && kind(events[i]) { assert kind(more[i]); }
    if kind(e) { assert kind(more[|events|]); }
  }

  /** The events may be followed by this one: the body ends once and only then come cleanup, the source check, the
      reason and the report, each once; a signal or a supervised exit decides only after it came. */
  ghost predicate Possible(w: World, events: seq<Event>, e: Event) {
    match e
    case SignalArrives(_) => !Had(events, Reports)
    case SupervisedExit(_) => !Had(events, Reports)
    case RegisterSecret(secret) =>
      !Had(events, Settles) && forall u :: u in secret ==> 48 <= u <= 57 || 97 <= u <= 102
    case BeginCheckpoint(_) => !Had(events, Settles)
    case CompleteCheckpoint(i) => !Had(events, Settles) && i < |w.pending|
    case AbandonCheckpoint(i) => !Had(events, Settles) && i < |w.pending|
    case BodySucceeds => !Had(events, Settles)
    case BodyFails(_) => !Had(events, Settles)
    case InterruptionWins => !Had(events, Settles) && Had(events, Arrives)
    case DeadlineWins => !Had(events, Settles)
    case SupervisionWins => !Had(events, Settles) && Had(events, Exits)
    case CleanUp(_) => Had(events, Settles) && !Had(events, Cleans)
    case VerifySource(_) => Had(events, Cleans) && !Had(events, Verifies)
    case DecideReason => Had(events, Verifies) && !Had(events, Decides)
    case Report(evidence, logs, _) =>
      Had(events, Decides) && !Had(events, Reports) && Redacted(w.secrets, evidence) && Redacted(w.secrets, logs)
  }

  ghost predicate Phased(w: World, events: seq<Event>) {
    && (w.phase == Body <==> !Had(events, Settles))
    && (w.phase == Body || w.phase == Settled <==> !Had(events, Cleans))
    && (w.phase == Body || w.phase == Settled || w.phase == Cleaned <==> !Had(events, Verifies))
    && (w.phase == Reasoned || w.phase == Reported <==> Had(events, Decides))
    && (w.phase == Reported <==> Had(events, Reports))
  }

  lemma StepPhased(w: World, events: seq<Event>, e: Event)
    requires Phased(w, events) && Enabled(w, e)
    ensures Phased(Next(w, e), events + [e])
  {
    HadNext(events, e, Settles);
    HadNext(events, e, Cleans);
    HadNext(events, e, Verifies);
    HadNext(events, e, Decides);
    HadNext(events, e, Reports);
  }

  /** The first signal and the first supervised exit are kept, and every registered secret. */
  ghost predicate Kept(w: World, events: seq<Event>) {
    && (w.retained.Some? <==> Had(events, Arrives)) && (w.supervision.Some? <==> Had(events, Exits))
    && (forall i :: 0 <= i < |events| && events[i].SignalArrives? && !Had(events[..i], Arrives) ==>
          w.retained == Some(events[i].signal))
    && (forall i :: 0 <= i < |events| && events[i].SupervisedExit? && !Had(events[..i], Exits) ==>
          w.supervision == Some(events[i].failure))
    && (forall secret :: secret in w.secrets <==> RegisterSecret(secret) in events)
    && w.received == SignalsOf(events)
  }

  /** The signals, as they arrived. */
  function SignalsOf(events: seq<Event>): seq<Signal> {
    if events == [] then []
    else
      var before, last := SignalsOf(events[..|events| - 1]), events[|events| - 1];
      if last.SignalArrives? then before + [last.signal] else before
  }

  lemma StepKept(w: World, events: seq<Event>, e: Event)
    requires Kept(w, events) && Enabled(w, e)
    ensures Kept(Next(w, e), events + [e])
  {
    var more, next := events + [e], Next(w, e);
    HadNext(events, e, Arrives);
    HadNext(events, e, Exits);
    assert more[..|events|] == events;
    forall i | 0 <= i < |more|
      ensures more[i].SignalArrives? && !Had(more[..i], Arrives) ==> next.retained == Some(more[i].signal)
      ensures more[i].SupervisedExit? && !Had(more[..i], Exits) ==> next.supervision == Some(more[i].failure)
    {
      if i < |events| {
        assert more[..i] == events[..i];
        assert events[i].SignalArrives? ==> Arrives(events[i]);
        assert events[i].SupervisedExit? ==> Exits(events[i]);
      }
    }
  }

  /** The outcome is that of the event that ended the body. */
  ghost predicate EndTold(w: World, events: seq<Event>) {
    && (forall f :: BodyFails(f) in events ==> w.outcome == Failed(f))
    && (DeadlineWins in events ==> w.outcome == Interrupted(Deadline))
    && (InterruptionWins in events ==> w.retained.Some? && w.outcome == Interrupted(Signalled(w.retained.value)))
    && (SupervisionWins in events ==> w.supervision.Some? && w.outcome == Failed(w.supervision.value))
    && (BodySucceeds in events ==>
          w.outcome == if |w.observations| == |w.steps| then Passed else Failed("checkpoint: required steps missing"))
  }

  /** Cleanup, the source check and the reason are told by their events. */
  ghost predicate ChecksTold(w: World, events: seq<Event>) {
    && (forall errors :: CleanUp(errors) in events ==> w.cleanupErrors == errors)
    && (forall error :: VerifySource(error) in events ==> w.sourceError == error)
    && (forall i :: 0 <= i < |events| && events[i].DecideReason? ==> w.receivedAtReason == SignalsOf(events[..i]))
  }

  /** So are the files: the evidence always, the logs of the processes only for a failure. */
  ghost predicate FilesTold(w: World, events: seq<Event>) {
    forall evidence, logs, others :: Report(evidence, logs, others) in events ==>
      && w.others == others
      && w.own == if w.primary.None? then [Artifact("evidence.json", evidence.bytes)]
                  else [Artifact("evidence.json", evidence.bytes), Artifact("failure.log", logs.bytes)]
  }

  lemma HadIn(events: seq<Event>, kind: Event -> bool)
    ensures Had(events, kind) <==> exists e :: e in events && kind(e)
  {
    if e :| e in events && kind(e) {
      var i :| 0 <= i < |events| && events[i] == e;
      assert kind(events[i]);
    }
  }

  lemma StepEndTold(w: World, events: seq<Event>, e: Event)
    requires w.phase == Body <==> !Had(events, Settles)
    requires EndTold(w, events) && Enabled(w, e)
    ensures EndTold(Next(w, e), events + [e])
  {
    HadIn(events, Settles);
    var next := Next(w, e);
    if Settles(e) {
      assert forall other :: other in events ==> !Settles(other);
    } else {
      assert next.outcome == w.outcome;
    }
  }

  lemma StepChecksTold(w: World, events: seq<Event>, e: Event)
    requires Phased(w, events) && w.received == SignalsOf(events) && ChecksTold(w, events) && Enabled(w, e)
    ensures ChecksTold(Next(w, e), events + [e])
  {
    var more := events + [e];
    HadIn(events, Cleans);
    HadIn(events, Verifies);
    HadIn(events, Decides);
    assert forall i :: 0 <= i < |events| ==> more[..i] == events[..i] && more[i] == events[i];
    assert more[..|events|] == events;
  }

  lemma StepFilesTold(w: World, events: seq<Event>, e: Event)
    requires w.phase == Reported <==> Had(events, Reports)
    requires FilesTold(w, events) && Enabled(w, e)
    ensures FilesTold(Next(w, e), events + [e])
  {
    HadIn(events, Reports);
  }

  ghost predicate Told(w: World, events: seq<Event>) {
    && Phased(w, events) && Kept(w, events)
    && EndTold(w, events) && ChecksTold(w, events) && FilesTold(w, events)
  }

  lemma StartTold(steps: seq<string>)
    ensures Told(Start(steps), [])
  {}

  lemma StepTold(w: World, events: seq<Event>, e: Event)
    requires Told(w, events) && Enabled(w, e)
    ensures Told(Next(w, e), events + [e])
  {
    var next := Next(w, e);
    assert Phased(next, events + [e]) by { StepPhased(w, events, e); }
    assert Kept(next, events + [e]) by { StepKept(w, events, e); }
    assert EndTold(next, events + [e]) by { StepEndTold(w, events, e); }
    assert ChecksTold(next, events + [e]) by { StepChecksTold(w, events, e); }
    assert FilesTold(next, events + [e]) by { StepFilesTold(w, events, e); }
  }

  /** In every run the world is what the events tell. */
  lemma {:induction false} EveryRunTold(steps: seq<string>, events: seq<Event>)
    requires Run(Start(steps), events).Some?
    ensures Told(Run(Start(steps), events).value, events)
  {
    if events == [] {
      StartTold(steps);
    } else {
      var before, e := events[..|events| - 1], events[|events| - 1];
      EveryRunTold(steps, before);
      StepTold(Run(Start(steps), before).value, before, e);
      assert events == before + [e];
    }
  }

  lemma EnabledExactly(w: World, events: seq<Event>, e: Event)
    requires Phased(w, events)
    requires (w.retained.Some? <==> Had(events, Arrives)) && (w.supervision.Some? <==> Had(events, Exits))
    ensures Enabled(w, e) <==> Possible(w, events, e)
  {
    if e.RegisterSecret? { HexIsUnmarked(e.secret); }
  }

  lemma RunNext(start: World, events: seq<Event>, e: Event)
    requires Run(start, events).Some?
    ensures Run(start, events + [e]).Some? <==> Enabled(Run(start, events).value, e)
  {
    assert (events + [e])[..|events|] == events;
  }

  /** And a run goes on with exactly the events that are possible after those it had. */
  lemma GoesOnExactly(steps: seq<string>, events: seq<Event>, e: Event)
    requires Run(Start(steps), events).Some?
    ensures Run(Start(steps), events + [e]).Some? <==> Possible(Run(Start(steps), events).value, events, e)
  {
    EveryRunTold(steps, events);
    EnabledExactly(Run(Start(steps), events).value, events, e);
    RunNext(Start(steps), events, e);
  }

  // ---- Main results ------------------------------------------------------------------------------------

  /** For every interleaving: a receipt says passed exactly when its exit code is 0, and exactly when
      the body passed, no signal had been retained when the reason was computed, cleanup reported no error, the
      source was unchanged and no file holds a registered secret; then as many steps were recorded as required. */
  lemma PassedExactly(steps: seq<string>, events: seq<Event>)
    requires Run(Start(steps), events).Some? && Run(Start(steps), events).value.receipt.Some?
    ensures var w := Run(Start(steps), events).value;
            var receipt := w.receipt.value;
            && (receipt.passed <==> receipt.exitCode == 0)
            && (receipt.passed <==> w.outcome.Passed? && w.receivedAtReason == [] && w.cleanupErrors == []
                                    && w.sourceError.None? && Clean(w.secrets, w.own + w.others))
            && (receipt.passed ==> |receipt.stepIds| == |steps| && receipt.terminationSignal.None?)
            && receipt.requiredStepIds == steps
  {
    EveryRunConsistent(steps, events);
    EveryRunGuarded(steps, events);
    var w := Run(Start(steps), events).value;
    CleanExactly(w.secrets, w.own + w.others);
  }

  /** A passed receipt names the required steps in their order if calls complete in turn, and for distinct steps only
      then. */
  lemma PassedInOrderExactly(steps: seq<string>, events: seq<Event>)
    requires Run(Start(steps), events).Some? && Run(Start(steps), events).value.receipt.Some?
    requires Run(Start(steps), events).value.receipt.value.passed
    ensures var stepIds := Run(Start(steps), events).value.receipt.value.stepIds;
            && (InTurn(Start(steps), events) ==> stepIds == steps)
            && (Distinct(steps) && stepIds == steps ==> InTurn(Start(steps), events))
  {
    EveryRunConsistent(steps, events);
    PassedExactly(steps, events);
    RecordInTurn(steps, events);
    var w := Run(Start(steps), events).value;
    assert w.observations <= steps && |w.observations| == |steps| ==> w.observations == steps[..|steps|];
  }

  /** In every run the files the harness writes show a registered secret exactly when one of them is empty; so when
      none is, only another file can fail a run for a leak. */
  lemma OwnFilesLeakExactly(steps: seq<string>, events: seq<Event>)
    requires Run(Start(steps), events).Some? && Run(Start(steps), events).value.receipt.Some?
    ensures var w := Run(Start(steps), events).value;
            && (Clean(w.secrets, w.own) <==> [] !in w.secrets)
            && ([] !in w.secrets ==> (w.leaked == [] <==> Clean(w.secrets, w.others)))
  {
    EveryRunGuarded(steps, events);
    var w := Run(Start(steps), events).value;
    LeakedExactly(w.secrets, w.own);
    CleanExactly(w.secrets, w.own);
    CleanExactly(w.secrets, w.own + w.others);
    CleanJoins(w.secrets, w.own, w.others);
    assert 0 < |w.own|;
    if [] !in w.secrets {
      assert forall i :: 0 <= i < |w.own| ==> !Leaks(w.secrets, w.own[i].bytes);
    } else {
      assert Leaks(w.secrets, w.own[0].bytes);
    }
  }

  lemma CleanJoins(secrets: seq<Text>, own: seq<Artifact>, others: seq<Artifact>)
    ensures Clean(secrets, own + others) <==> Clean(secrets, own) && Clean(secrets, others)
  {
    var all := own + others;
    if Clean(secrets, all) {
      forall i, j | 0 <= i < |own| && 0 <= j < |secrets| ensures !Contains(own[i].bytes, secrets[j]) {
        assert all[i] == own[i];
      }
      forall i, j | 0 <= i < |others| && 0 <= j < |secrets| ensures !Contains(others[i].bytes, secrets[j]) {
        assert all[|own| + i] == others[i];
      }
    }
  }

  /** The first signal the reason names, unless the deadline came first. */
  function FirstSignal(w: World): Option<Signal> {
    if w.outcome == Interrupted(Deadline) then None else FirstOf(w.receivedAtReason)
  }

  lemma ReasonExactly(w: World)
    requires Consistent(w) && Deciding(w.phase)
    requires w.outcome.Interrupted? && w.outcome.reason.Signalled? ==> w.receivedAtReason != []
    ensures w.reason == if w.outcome == Interrupted(Deadline) then Some(Deadline)
                        else if FirstSignal(w).Some? then Some(Signalled(FirstSignal(w).value)) else None
  {
    if w.receivedAtReason != [] {
      assert w.receivedAtReason == w.received[..|w.receivedAtReason|];
      assert w.receivedAtReason[0] == w.received[0];
    }
    if w.outcome.Interrupted? {
      assert w.reason == Some(w.outcome.reason);
      assert w.outcome.reason.Deadline? ==> w.outcome == Interrupted(Deadline);
    }
  }

  /** The exit code names the first signal, unless the deadline interrupted the journey first. */
  lemma ExitCodeExactly(steps: seq<string>, events: seq<Event>)
    requires Run(Start(steps), events).Some? && Run(Start(steps), events).value.receipt.Some?
    ensures var w := Run(Start(steps), events).value;
            var receipt := w.receipt.value;
            var first := FirstSignal(w);
            && receipt.terminationSignal == first
            && receipt.exitCode == (if first == Some(SIGINT) then 130 else if first == Some(SIGTERM) then 143
                                    else if receipt.passed then 0 else 1)
  {
    EveryRunConsistent(steps, events);
    SignalBeforeReason(steps, events);
    ReasonExactly(Run(Start(steps), events).value);
  }

  predicate ReasonHeard(w: World) {
    Deciding(w.phase) && w.outcome.Interrupted? && w.outcome.reason.Signalled? ==> w.receivedAtReason != []
  }

  lemma StepHeard(w: World, e: Event)
    requires ReasonHeard(w) && Signals(w) && Enabled(w, e)
    ensures ReasonHeard(Next(w, e))
  {}

  /** A journey that a signal interrupted had that signal when its reason was computed. */
  lemma {:induction false} SignalBeforeReason(steps: seq<string>, events: seq<Event>)
    requires Run(Start(steps), events).Some?
    ensures ReasonHeard(Run(Start(steps), events).value)
  {
    if events != [] {
      var before := events[..|events| - 1];
      EveryRunConsistent(steps, before);
      SignalBeforeReason(steps, before);
      StepHeard(Run(Start(steps), before).value, events[|events| - 1]);
    }
  }

  // ---- What the receipt does not say -------------------------------------------------------------------

  /** One more event of a run. */
  lemma Step(start: World, events: seq<Event>, w: World, e: Event) returns (more: seq<Event>, next: World)
    requires Run(start, events) == Some(w) && Enabled(w, e)
    ensures more == events + [e] && Run(start, more) == Some(next) && next == Next(w, e)
  {
    more, next := events + [e], Next(w, e);
    assert more[..|events|] == events;
  }

  /** The harness computes the reason of a run whose body passed and which nothing disturbs. */
  lemma Finish(start: World, events: seq<Event>, w: World) returns (done: seq<Event>, last: World)
    requires Run(start, events) == Some(w) && w.phase == Settled && w.outcome == Passed && w.retained.None?
    ensures Run(start, done) == Some(last) && last.phase == Reasoned && last.primary.None? && last.reason.None?
    ensures done == events + [CleanUp([])] + [VerifySource(None)] + [DecideReason]
    ensures last == w.(phase := Reasoned, cleanupErrors := [], sourceError := None, reason := None, primary := None,
                       receivedAtReason := w.received)
  {
    var cleaned, verified;
    done, cleaned := Step(start, events, w, CleanUp([]));
    done, verified := Step(start, done, cleaned, VerifySource(None));
    done, last := Step(start, done, verified, DecideReason);
  }

  /** Without secrets an empty evidence and no other file make a passed receipt. */
  lemma Pass(start: World, events: seq<Event>, w: World) returns (done: seq<Event>, last: World)
    requires Run(start, events) == Some(w) && w.phase == Reasoned && w.primary.None? && w.reason.None?
    requires w.secrets == []
    ensures Run(start, done) == Some(last) && last.receipt.Some? && last.receipt.value.passed
    ensures last.observations == w.observations && last.received == w.received
  {
    var blank := Draft([], [], []);
    assert Replaced([], []) == [] && Redacted([], blank);
    done, last := Step(start, events, w, Report(blank, blank, []));
    LeakedExactly([], last.own + last.others);
  }

  /** A checkpoint call becomes pending exactly when it is of the step that is next; any other is refused and changes
      nothing. */
  lemma BeginsExactly(w: World, step: string)
    requires w.phase == Body
    ensures Enabled(w, BeginCheckpoint(step))
    ensures var call := Pending(step, |w.observations|);
            Next(w, BeginCheckpoint(step))
              == if |w.observations| < |w.steps| && w.steps[|w.observations|] == step
                 then w.(pending := w.pending + [call]) else w
  {}

  /** Each required step begun and completed before the next. */
  function Awaited(steps: seq<string>): seq<Event> {
    if steps == [] then []
    else Awaited(steps[..|steps| - 1]) + [BeginCheckpoint(steps[|steps| - 1])] + [CompleteCheckpoint(0)]
  }

  /** An awaited call of the next step records it. */
  lemma CallRecords(start: World, events: seq<Event>, w: World, step: string)
    requires Run(start, events) == Some(w) && w.phase == Body && w.pending == []
    requires |w.observations| < |w.steps| && w.steps[|w.observations|] == step
    ensures Run(start, events + [BeginCheckpoint(step)] + [CompleteCheckpoint(0)])
         == Some(w.(observations := w.observations + [step]))
  {
    var more, begun := Step(start, events, w, BeginCheckpoint(step));
    assert begun == w.(pending := [Pending(step, |w.observations|)]);
    var all, done := Step(start, more, begun, CompleteCheckpoint(0));
    assert Without(begun.pending, 0) == [];
  }

  lemma AwaitedNext(steps: seq<string>, step: string)
    ensures Awaited(steps + [step]) == Awaited(steps) + [BeginCheckpoint(step)] + [CompleteCheckpoint(0)]
  {
    assert (steps + [step])[..|steps|] == steps;
  }

  /** One more awaited call. */
  lemma AwaitsNext(start: World, done: seq<string>, w: World, step: string)
    requires Run(start, Awaited(done)) == Some(w) && w.phase == Body && w.pending == []
    requires |w.observations| < |w.steps| && w.steps[|w.observations|] == step
    ensures Run(start, Awaited(done + [step])) == Some(w.(observations := w.observations + [step]))
  {
    AwaitedNext(done, step);
    CallRecords(start, Awaited(done), w, step);
  }

  lemma {:induction false} AwaitedRuns(steps: seq<string>, n: nat) returns (w: World)
    requires n <= |steps|
    ensures Run(Start(steps), Awaited(steps[..n])) == Some(w) && w == Start(steps).(observations := steps[..n])
  {
    w := Start(steps);
    if n > 0 {
      var before := AwaitedRuns(steps, n - 1);
      AwaitsNext(w, steps[..n - 1], before, steps[n - 1]);
      assert steps[..n - 1] + [steps[n - 1]] == steps[..n];
      w := before.(observations := steps[..n]);
    }
  }

  /** What follows a body that succeeded when nothing disturbs it. */
  function Finishing(evidence: Draft, logs: Draft, others: seq<Artifact>): seq<Event> {
    [BodySucceeds] + [CleanUp([])] + [VerifySource(None)] + [DecideReason] + [Report(evidence, logs, others)]
  }

  lemma FinishingPasses(start: World, events: seq<Event>, w: World, evidence: Draft, logs: Draft, others: seq<Artifact>)
    requires Run(start, events) == Some(w) && w.phase == Body && |w.observations| == |w.steps| && w.retained.None?
    requires w.secrets == [] && Redacted([], evidence) && Redacted([], logs)
    ensures var after := Run(start, events + Finishing(evidence, logs, others));
            after.Some? && after.value.receipt == Some(Receipt(true, 0, None, w.observations, w.steps))
  {
    var settled, after := Step(start, events, w, BodySucceeds);
    var finished, last := Finish(start, settled, after);
    Passes(start, finished, last, evidence, logs, others);
    var report := Report(evidence, logs, others);
    assert finished + [report] == events + Finishing(evidence, logs, others);
  }

  /** Whatever the required steps are: the run that awaits each in order, succeeds and is disturbed by nothing ends in
      a passed receipt that names them all. */
  lemma AwaitedPasses(steps: seq<string>, evidence: Draft, logs: Draft, others: seq<Artifact>)
    requires Redacted([], evidence) && Redacted([], logs)
    ensures var w := Run(Start(steps), Awaited(steps) + Finishing(evidence, logs, others));
            && w.Some? && w.value.receipt == Some(Receipt(true, 0, None, steps, steps))
  {
    var w := AwaitedRuns(steps, |steps|);
    assert steps[..|steps|] == steps;
    FinishingPasses(Start(steps), Awaited(steps), w, evidence, logs, others);
  }

  /** Without secrets and without a primary failure the receipt says passed. */
  lemma Passes(start: World, events: seq<Event>, w: World, evidence: Draft, logs: Draft, others: seq<Artifact>)
    requires Run(start, events) == Some(w) && w.phase == Reasoned && w.primary.None? && w.reason.None?
    requires w.secrets == [] && Redacted([], evidence) && Redacted([], logs)
    ensures var after := Run(start, events + [Report(evidence, logs, others)]);
            after.Some? && after.value.receipt == Some(Receipt(true, 0, None, w.observations, w.steps))
  {
    var all, last := Step(start, events, w, Report(evidence, logs, others));
    LeakedExactly([], last.own + last.others);
  }

  /** A signal that arrives after the reason was computed leaves a passed receipt. */
  lemma LateSignalPasses(signal: Signal)
    ensures exists events :: var w := Run(Start([]), events);
      w.Some? && w.value.receipt.Some? && w.value.receipt.value.passed && w.value.received == [signal]
  {
    var start := Start([]);
    var done, w := Step(start, [], start, BodySucceeds);
    done, w := Finish(start, done, w);
    done, w := Step(start, done, w, SignalArrives(signal));
    done, w := Pass(start, done, w);
  }

  /** Two overlapping calls of the first of two steps both pass the order check, and both are recorded. */
  lemma Overlap(a: string, b: string) returns (events: seq<Event>, w: World)
    ensures Run(Start([a, b]), events) == Some(w)
    ensures w.phase == Body && w.observations == [a, a] && w.steps == [a, b]
    ensures w.retained.None? && w.received == [] && w.secrets == []
  {
    var start := Start([a, b]);
    events, w := Step(start, [], start, BeginCheckpoint(a));
    events, w := Step(start, events, w, BeginCheckpoint(a));
    events, w := Step(start, events, w, CompleteCheckpoint(0));
    events, w := Step(start, events, w, CompleteCheckpoint(0));
  }

  /** Overlapping checkpoints defeat the order check: for any two required steps some run passes with a record
      that names the first one twice. */
  lemma OverlapDefeatsOrder(a: string, b: string)
    ensures exists events :: var w := Run(Start([a, b]), events);
      w.Some? && w.value.receipt.Some? && w.value.receipt.value.passed && w.value.observations == [a, a]
  {
    var start := Start([a, b]);
    var done, w := Overlap(a, b);
    done, w := Step(start, done, w, BodySucceeds);
    done, w := Finish(start, done, w);
    done, w := Pass(start, done, w);
  }
}
