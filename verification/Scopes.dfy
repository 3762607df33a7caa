/** Scopes as stacks of finalizers: supervised processes, the disposable cluster, and the backend's
    replaceable sub-scope inside the journey scope. Each event is one atomic step, so a crash, a
    watcher or an interruption may fall between any two steps of an acquisition or a release. */
module Scopes {
  import opened Counting
  import opened Options

  datatype Kind = Drain | Kill | MarkStopping | StopCluster | StopWatcher | EndPool | CloseChild

  /** `of` is the process it releases, or for `CloseChild` the scope it closes. */
  datatype Finalizer = Do(kind: Kind, of: nat)

  datatype Status = Open | Closing | Closed

  /** `pushed` and `done` record every finalizer added and every one that ran; `failed` are those that ran
      without ending what they release. */
  datatype Scope = Scope(
    status: Status, stack: seq<Finalizer>, pushed: seq<Finalizer>, done: seq<Finalizer>, failed: set<Finalizer>)

  datatype Process = Process(
    scope: nat,
    cluster: bool,
    supervised: bool,
    alive: bool,
    /** It exited by itself. */
    crashed: bool,
    /** The release ended it. */
    byRelease: bool,
    /** The release marked its exit as expected. */
    stopping: bool,
    /** The finalizer that marks its exit as expected is in place. */
    marked: bool,
    watched: bool,
    poolOpen: bool,
    /** Its watcher saw it gone: not yet, before the mark, or after it. */
    seen: Option<bool>)

  datatype World = World(
    processes: seq<Process>,
    /** Scope 0 is the journey scope; the others are backend scopes forked from it. */
    scopes: seq<Scope>,
    supervision: Option<nat>,
    /** The variable `backendScope`, and the scope that is booting. */
    backend: Option<nat>,
    booting: Option<nat>,
    bootFailed: bool)

  const EMPTY := Scope(Open, [], [], [], {})

  function Start(): World { World([], [EMPTY], None, None, None, false) }

  function NewProcess(s: nat, cluster: bool, supervised: bool): Process {
    Process(s, cluster, supervised, true, false, false, false, false, false, false, None)
  }

  datatype Event =
    | Acquire(s: nat, supervised: bool)
    | AddMark(p: nat)
    | Watch(p: nat)
    | AcquireCluster
    | WatchCluster(p: nat)
    | OpenPool(p: nat)
    | Crash(p: nat)
    | Report(p: nat)
    | BeginClose(s: nat)
    /** `ended` says whether what it releases is gone afterwards: a signalled group may survive, and the end
        of a pool may time out. */
    | RunFinalizer(s: nat, ended: bool)
    | FinishClose(s: nat)
    | ForkBackend
    | BootSucceeds
    | BootFails

  predicate Usable(w: World, s: nat) { s < |w.scopes| && w.scopes[s].status == Open }

  function Top(scope: Scope): Finalizer
    requires scope.stack != []
  {
    scope.stack[|scope.stack| - 1]
  }

  /** The closing journey scope has reached the finalizer of this child. */
  predicate Reached(w: World, k: nat) {
    |w.scopes| > 0 && w.scopes[0].status == Closing && w.scopes[0].stack != []
    && Top(w.scopes[0]) == Do(CloseChild, k)
  }

  /** A closing scope runs its newest finalizer; that of a child waits until the child has closed. */
  predicate CanRelease(w: World, s: nat) {
    s < |w.scopes| && w.scopes[s].status == Closing && w.scopes[s].stack != []
    && var top := Top(w.scopes[s]);
       top.kind == CloseChild ==> top.of < |w.scopes| && w.scopes[top.of].status == Closed
  }

  /** Only what is still there can outlast its finalizer. */
  predicate CanFail(w: World, f: Finalizer) {
    f.of < |w.processes|
    && (if f.kind == EndPool then w.processes[f.of].poolOpen
        else EndsProcess(f.kind) && w.processes[f.of].alive)
  }

  predicate Enabled(w: World, e: Event) {
    match e
    case Acquire(s, _) =>
      Usable(w, s) && Usable(w, 0) && (s != 0 ==> w.booting == Some(s) && w.scopes[s].pushed == [])
    case AddMark(p) =>
      p < |w.processes| && !w.processes[p].cluster && Usable(w, w.processes[p].scope) && Usable(w, 0)
      && !w.processes[p].marked
    case Watch(p) =>
      p < |w.processes| && w.processes[p].marked && !w.processes[p].watched
      && Usable(w, w.processes[p].scope) && Usable(w, 0)
    case AcquireCluster => Usable(w, 0)
    case WatchCluster(p) =>
      p < |w.processes| && w.processes[p].cluster && !w.processes[p].watched && Usable(w, w.processes[p].scope)
    case OpenPool(p) =>
      p < |w.processes| && w.processes[p].cluster && w.processes[p].watched && !w.processes[p].poolOpen
      && Usable(w, w.processes[p].scope)
    case Crash(p) => p < |w.processes| && w.processes[p].alive
    case Report(p) => p < |w.processes| && w.processes[p].watched && !w.processes[p].alive && w.processes[p].seen.None?
    case BeginClose(s) =>
      Usable(w, s) && (s == 0 || (Usable(w, 0) && w.backend == Some(s) && w.booting.None?) || Reached(w, s))
    case RunFinalizer(s, ended) => CanRelease(w, s) && (!ended ==> CanFail(w, Top(w.scopes[s])))
    case FinishClose(s) => s < |w.scopes| && w.scopes[s].status == Closing && w.scopes[s].stack == []
    case ForkBackend =>
      // A failed boot fails the journey's body, which boots no more.
      Usable(w, 0) && w.booting.None? && !w.bootFailed
      && (w.backend.Some? ==> w.backend.value < |w.scopes| && w.scopes[w.backend.value].status == Closed)
    case BootSucceeds => w.booting.Some?
    case BootFails => w.booting.Some?
  }

  function Grown(scope: Scope, more: seq<Finalizer>): Scope {
    scope.(stack := scope.stack + more, pushed := scope.pushed + more)
  }

  /** The processes change, and a scope gets more finalizers. */
  function Grow(w: World, s: nat, processes: seq<Process>, more: seq<Finalizer>): World
    requires s < |w.scopes|
  {
    w.(processes := processes, scopes := w.scopes[s := Grown(w.scopes[s], more)])
  }

  function Update(w: World, p: nat, process: Process): World
    requires p < |w.processes|
  {
    w.(processes := w.processes[p := process])
  }

  predicate EndsProcess(kind: Kind) { kind == Kill || kind == StopCluster }

  /** What one finalizer does to the process it releases. */
  function Effect(kind: Kind, ended: bool, process: Process): Process {
    var ends := ended && EndsProcess(kind);
    process.(alive := process.alive && !ends,
             byRelease := process.byRelease || (ends && process.alive),
             stopping := process.stopping || kind == MarkStopping || kind == StopCluster,
             watched := process.watched && kind != StopWatcher,
             poolOpen := process.poolOpen && !(ended && kind == EndPool))
  }

  function Popped(scope: Scope, ended: bool): Scope
    requires scope.stack != []
  {
    scope.(stack := scope.stack[..|scope.stack| - 1], done := scope.done + [Top(scope)],
           failed := if ended then scope.failed else scope.failed + {Top(scope)})
  }

  function Affected(processes: seq<Process>, f: Finalizer, ended: bool): seq<Process> {
    if f.kind != CloseChild && f.of < |processes|
    then processes[f.of := Effect(f.kind, ended, processes[f.of])] else processes
  }

  /** Run the newest finalizer of a closing scope. */
  function Release(w: World, s: nat, ended: bool): World
    requires s < |w.scopes| && w.scopes[s].stack != []
  {
    w.(scopes := w.scopes[s := Popped(w.scopes[s], ended)],
       processes := Affected(w.processes, Top(w.scopes[s]), ended))
  }

  function Restatus(w: World, s: nat, status: Status): World
    requires s < |w.scopes|
  {
    w.(scopes := w.scopes[s := w.scopes[s].(status := status)])
  }

  function Next(w: World, e: Event): World
    requires Enabled(w, e)
  {
    var n := |w.processes|;
    match e
    case Acquire(s, supervised) =>
      Grow(w, s, w.processes + [NewProcess(s, false, supervised)], [Do(Drain, n), Do(Kill, n)])
    case AcquireCluster => Grow(w, 0, w.processes + [NewProcess(0, true, true)], [Do(StopCluster, n)])
    case AddMark(p) =>
      Grow(w, w.processes[p].scope, w.processes[p := w.processes[p].(marked := true)], [Do(MarkStopping, p)])
    case Watch(p) => Update(w, p, w.processes[p].(watched := true))
    case WatchCluster(p) =>
      Grow(w, w.processes[p].scope, w.processes[p := w.processes[p].(watched := true)], [Do(StopWatcher, p)])
    case OpenPool(p) =>
      Grow(w, w.processes[p].scope, w.processes[p := w.processes[p].(poolOpen := true)], [Do(EndPool, p)])
    case Crash(p) => Update(w, p, w.processes[p].(alive := false, crashed := true))
    case Report(p) =>
      var process := w.processes[p];
      var expected := process.stopping && !process.cluster;
      var reported := Update(w, p, process.(seen := Some(expected)));
      if process.supervised && !expected && w.supervision.None?
      then reported.(supervision := Some(p)) else reported
    case BeginClose(s) => Restatus(w, s, Closing)
    case RunFinalizer(s, ended) => Release(w, s, ended)
    case FinishClose(s) => Restatus(w, s, Closed)
    case ForkBackend =>
      var k := |w.scopes|;
      Grow(w.(scopes := w.scopes + [EMPTY], booting := Some(k)), 0, w.processes, [Do(CloseChild, k)])
    case BootSucceeds => w.(backend := w.booting, booting := None)
    case BootFails => w.(booting := None, bootFailed := true)
  }

  function Run(events: seq<Event>): Option<World> {
    if events == [] then Some(Start())
    else
      var before := Run(events[..|events| - 1]);
      var e := events[|events| - 1];
      if before.Some? && Enabled(before.value, e) then Some(Next(before.value, e)) else None
  }

  // ---- One scope ------------------------------------------------------------------------------------

  function Reverse(fs: seq<Finalizer>): seq<Finalizer> {
    if fs == [] then [] else [fs[|fs| - 1]] + Reverse(fs[..|fs| - 1])
  }

  /** Finalizers are conserved: what was pushed is what still stands, then what ran, newest first. */
  ghost predicate Conserved(scope: Scope) {
    && scope.pushed == scope.stack + Reverse(scope.done)
    && (scope.status == Open ==> scope.done == [])
    && (scope.status == Closed ==> scope.stack == [])
    && (forall f :: f in scope.failed ==> f in scope.done)
  }

  /** The order in which a process gets its finalizers; they run the other way round. */
  function Rank(kind: Kind): nat {
    match kind
    case Drain => 0
    case Kill => 1
    case StopCluster => 1
    case MarkStopping => 2
    case StopWatcher => 2
    case EndPool => 3
    case CloseChild => 0
  }

  /** Finalizers of one process by rank, endings by process, children by scope. */
  ghost predicate Precedes(f: Finalizer, g: Finalizer) {
    && (f.kind != CloseChild && g.kind != CloseChild && f.of == g.of ==> Rank(f.kind) < Rank(g.kind))
    && (EndsProcess(f.kind) && EndsProcess(g.kind) ==> f.of < g.of)
    && (f.kind == CloseChild && g.kind == CloseChild ==> f.of < g.of)
  }

  ghost predicate Ordered(fs: seq<Finalizer>) {
    forall i, j :: 0 <= i < j < |fs| ==> Precedes(fs[i], fs[j])
  }

  lemma {:induction false} ReverseAppend(a: seq<Finalizer>, b: seq<Finalizer>)
    ensures Reverse(a + b) == Reverse(b) + Reverse(a)
  {
    if b == [] {
      assert a + b == a;
    } else {
      var n := |b| - 1;
      assert (a + b)[..|a + b| - 1] == a + b[..n];
      ReverseAppend(a, b[..n]);
    }
  }

  lemma {:induction false} ReverseTwice(fs: seq<Finalizer>)
    ensures Reverse(Reverse(fs)) == fs && multiset(Reverse(fs)) == multiset(fs) && |Reverse(fs)| == |fs|
  {
    if fs != [] {
      var n := |fs| - 1;
      assert fs == fs[..n] + [fs[n]];
      ReverseTwice(fs[..n]);
      ReverseAppend([fs[n]], Reverse(fs[..n]));
      assert Reverse([fs[n]]) == [fs[n]];
    }
  }

  lemma SameElements(fs: seq<Finalizer>, f: Finalizer)
    ensures f in Reverse(fs) <==> f in fs
  {
    ReverseTwice(fs);
    assert f in Reverse(fs) <==> f in multiset(Reverse(fs));
    assert f in fs <==> f in multiset(fs);
  }

  /** What ran is what was pushed above what still stands. */
  lemma RanAbove(scope: Scope, i: nat)
    requires Conserved(scope) && Distinct(scope.pushed) && i < |scope.pushed|
    ensures |scope.stack| <= |scope.pushed|
    ensures scope.pushed[i] in scope.done <==> |scope.stack| <= i
    ensures scope.pushed[i] in scope.stack <==> i < |scope.stack|
  {
    var f, n := scope.pushed[i], |scope.stack|;
    ReverseTwice(scope.done);
    SameElements(scope.done, f);
    if f in scope.done {
      var k :| 0 <= k < |scope.done| && Reverse(scope.done)[k] == f;
      assert scope.pushed[n + k] == f;
    }
    if n <= i { assert Reverse(scope.done)[i - n] == f; }
    if f in scope.stack {
      var k :| 0 <= k < n && scope.stack[k] == f;
      assert scope.pushed[k] == f;
    }
  }

  /** What was pushed later ran first. */
  lemma LaterRanFirst(scope: Scope, i: nat, j: nat)
    requires Conserved(scope) && Distinct(scope.pushed) && i < j < |scope.pushed|
    ensures scope.pushed[i] in scope.done ==> scope.pushed[j] in scope.done
  {
    RanAbove(scope, i);
    RanAbove(scope, j);
  }

  /** A finalizer that may not come before another one runs before it. */
  lemma RunsFirst(scope: Scope, f: Finalizer, g: Finalizer)
    requires Conserved(scope) && Distinct(scope.pushed) && Ordered(scope.pushed)
    requires f in scope.pushed && g in scope.pushed && f != g && !Precedes(g, f)
    ensures f in scope.done ==> g in scope.done
  {
    var i :| 0 <= i < |scope.pushed| && scope.pushed[i] == f;
    var j :| 0 <= j < |scope.pushed| && scope.pushed[j] == g;
    assert i < j;
    LaterRanFirst(scope, i, j);
  }

  lemma TopRuns(scope: Scope, ended: bool)
    requires Conserved(scope) && Distinct(scope.pushed) && scope.status == Closing && scope.stack != []
    ensures Conserved(Popped(scope, ended)) && Top(scope) in scope.pushed && Top(scope) !in scope.done
  {
    var n := |scope.stack| - 1;
    var f := scope.stack[n];
    assert scope.pushed[n] == f;
    RanAbove(scope, n);
    assert (scope.done + [f])[..|scope.done|] == scope.done;
    assert scope.stack == scope.stack[..n] + [f];
    assert scope.stack[..n] + [f] + Reverse(scope.done) == scope.stack[..n] + ([f] + Reverse(scope.done));
  }

  lemma AppendOrdered(fs: seq<Finalizer>, more: seq<Finalizer>)
    requires Ordered(fs) && Ordered(more) && forall f, g :: f in fs && g in more ==> Precedes(f, g)
    ensures Ordered(fs + more)
  {
    var all := fs + more;
    forall i, j | 0 <= i < j < |all| ensures Precedes(all[i], all[j]) {
      assert i < |fs| ==> all[i] in fs;
      assert j >= |fs| ==> all[j] in more;
    }
  }

  // ---- Invariants -------------------------------------------------------------------------------------

  /** The finalizer that ends the process itself. */
  function Ending(p: nat, process: Process): Finalizer {
    if process.cluster then Do(StopCluster, p) else Do(Kill, p)
  }

  /** What a process is, from what was pushed for it, what ran, and what failed. */
  ghost predicate Guarded(p: nat, process: Process, scope: Scope) {
    var ending := Ending(p, process);
    && ending in scope.pushed
    && (process.alive ==> !process.crashed && (ending !in scope.done || ending in scope.failed))
    && (!process.alive ==> process.crashed || process.byRelease)
    && (process.byRelease ==> !process.alive && !process.crashed && ending in scope.done && ending !in scope.failed)
    && (process.marked <==> Do(MarkStopping, p) in scope.pushed)
    && (process.marked ==> !process.cluster)
    && (!process.cluster ==> (process.stopping <==> Do(MarkStopping, p) in scope.done))
    && (process.watched && !process.cluster ==> process.marked)
    && (process.cluster ==>
        (process.watched <==> Do(StopWatcher, p) in scope.pushed && Do(StopWatcher, p) !in scope.done))
    && (Do(EndPool, p) in scope.pushed ==> Do(StopWatcher, p) in scope.pushed)
    && (process.poolOpen <==>
          Do(EndPool, p) in scope.pushed && (Do(EndPool, p) !in scope.done || Do(EndPool, p) in scope.failed))
    && (process.seen.Some? ==> !process.alive)
    && (process.seen == Some(false) ==> !process.byRelease)
  }

  ghost predicate Kept(w: World, p: nat)
    requires p < |w.processes|
  {
    w.processes[p].scope < |w.scopes| && Guarded(p, w.processes[p], w.scopes[w.processes[p].scope])
  }

  /** A finalizer belongs to a process of its scope, or to a child of the journey scope. */
  ghost predicate Registered(w: World, s: nat, f: Finalizer) {
    if f.kind == CloseChild then s == 0 < f.of < |w.scopes|
    else
      && f.of < |w.processes| && w.processes[f.of].scope == s
      && (f.kind in {StopCluster, StopWatcher, EndPool} <==> w.processes[f.of].cluster)
  }

  ghost predicate Tidy(w: World, s: nat)
    requires s < |w.scopes|
  {
    var scope := w.scopes[s];
    && Conserved(scope) && Distinct(scope.pushed) && Ordered(scope.pushed)
    && forall f :: f in scope.pushed ==> Registered(w, s, f)
  }

  /** The journey scope holds a finalizer for every child and has not run it before the child closed. */
  ghost predicate ChildHeld(w: World, k: nat)
    requires 0 < k < |w.scopes|
  {
    && Do(CloseChild, k) in w.scopes[0].pushed
    && (Do(CloseChild, k) in w.scopes[0].done ==> w.scopes[k].status == Closed)
  }

  /** Backend scopes follow one another: all but the last are closed, and only the last is booting or current. */
  ghost predicate Replaced(w: World) {
    var last := |w.scopes| - 1;
    && (forall k :: 0 < k < last ==> w.scopes[k].status == Closed)
    && (w.booting.Some? ==> w.booting.value == last > 0 && !w.bootFailed)
    && (w.booting.None? && !w.bootFailed ==> if w.backend.Some? then w.backend.value == last > 0 else last == 0)
    && (w.backend.Some? ==> 0 < w.backend.value <= last)
    && (w.booting.Some? && w.backend.Some? ==> w.backend.value < last)
  }

  /** A backend scope has one process, and a later process a later scope. */
  ghost predicate Successive(w: World) {
    forall p, q :: 0 <= p < q < |w.processes| && w.processes[p].scope != 0 && w.processes[q].scope != 0 ==>
      w.processes[p].scope < w.processes[q].scope
  }

  ghost predicate Inv(w: World) {
    && |w.scopes| > 0
    && (forall s :: 0 <= s < |w.scopes| ==> Tidy(w, s))
    && (forall p :: 0 <= p < |w.processes| ==> Kept(w, p))
    && (forall k :: 0 < k < |w.scopes| ==> ChildHeld(w, k))
    && Replaced(w) && Successive(w)
  }

  // ---- Every step keeps them ----------------------------------------------------------------------------

  /** The finalizers a step adds, and where. */
  function Added(w: World, e: Event, s: nat): seq<Finalizer> {
    var n := |w.processes|;
    match e
    case Acquire(scope, _) => if s == scope then [Do(Drain, n), Do(Kill, n)] else []
    case AcquireCluster => if s == 0 then [Do(StopCluster, n)] else []
    case AddMark(p) => if p < n && s == w.processes[p].scope then [Do(MarkStopping, p)] else []
    case WatchCluster(p) => if p < n && s == w.processes[p].scope then [Do(StopWatcher, p)] else []
    case OpenPool(p) => if p < n && s == w.processes[p].scope then [Do(EndPool, p)] else []
    case ForkBackend => if s == 0 then [Do(CloseChild, |w.scopes|)] else []
    case _ => []
  }

  /** A step adds its finalizers, or runs one, or neither. */
  lemma ScopeStep(w: World, e: Event, s: nat)
    requires Enabled(w, e) && s < |w.scopes|
    ensures s < |Next(w, e).scopes|
    ensures var next := Next(w, e).scopes[s];
            if e.RunFinalizer? && e.s == s then next == Popped(w.scopes[s], e.ended)
            else
              && next == Grown(w.scopes[s], Added(w, e, s)).(status := next.status)
              && (Added(w, e, s) != [] ==> w.scopes[s].status == Open)
              && (next.status == w.scopes[s].status
                  || (w.scopes[s].status == Open && next.status == Closing)
                  || (w.scopes[s].status == Closing && next.status == Closed && w.scopes[s].stack == []))
  {
    assert w.scopes[s].stack + [] == w.scopes[s].stack && w.scopes[s].pushed + [] == w.scopes[s].pushed;
  }

  lemma GrownConserved(scope: Scope, more: seq<Finalizer>, status: Status)
    requires Conserved(scope) && (more != [] ==> scope.status == Open)
    requires status == scope.status || (scope.status == Open && status == Closing && more == [])
          || (scope.status == Closing && status == Closed && scope.stack == [] && more == [])
    ensures Conserved(Grown(scope, more).(status := status))
  {
    if more == [] { assert scope.stack + more == scope.stack && scope.pushed + more == scope.pushed; }
  }

  /** The same processes, in the same scopes, and perhaps one more. */
  ghost predicate Extends(before: seq<Process>, after: seq<Process>) {
    && |before| <= |after|
    && forall p :: 0 <= p < |before| ==>
         && after[p].scope == before[p].scope && after[p].cluster == before[p].cluster
         && after[p].supervised == before[p].supervised
  }

  lemma ProcessesExtend(w: World, e: Event)
    requires Enabled(w, e)
    ensures Extends(w.processes, Next(w, e).processes) && |w.scopes| <= |Next(w, e).scopes|
  {
    var after := Next(w, e).processes;
    match e
    case RunFinalizer(s, ended) =>
      var f := Top(w.scopes[s]);
      assert f.kind != CloseChild && f.of < |w.processes| ==>
          after == w.processes[f.of := Effect(f.kind, ended, w.processes[f.of])];
    case _ =>
  }

  lemma AddedRegistered(w: World, e: Event, s: nat, f: Finalizer)
    requires Enabled(w, e) && s < |w.scopes| && f in Added(w, e, s)
    ensures Registered(Next(w, e), s, f)
  {
    if e.AddMark? || e.WatchCluster? || e.OpenPool? { assert f.of == e.p; }
  }

  /** The process that an added finalizer is about does not have it yet. */
  lemma AddedMissing(w: World, e: Event, s: nat, f: Finalizer)
    requires Enabled(w, e) && s < |w.scopes| && Tidy(w, s) && f in Added(w, e, s)
    requires e.AddMark? || e.WatchCluster? || e.OpenPool? ==> Kept(w, e.p)
    ensures f !in w.scopes[s].pushed
  {
    assert f in w.scopes[s].pushed ==> Registered(w, s, f);
  }

  lemma AddedLater(w: World, e: Event, s: nat, f: Finalizer, g: Finalizer)
    requires Enabled(w, e) && s < |w.scopes| && Tidy(w, s) && f in Added(w, e, s) && g in w.scopes[s].pushed
    requires e.AddMark? || e.WatchCluster? || e.OpenPool? ==> Kept(w, e.p)
    ensures Precedes(g, f)
  {
    assert Registered(w, s, g);
    AddedMissing(w, e, s, f);
  }

  /** What a step adds is registered, is new, and comes after what it must come after. */
  lemma AddedFits(w: World, e: Event, s: nat, f: Finalizer)
    requires Enabled(w, e) && s < |w.scopes| && Tidy(w, s) && f in Added(w, e, s)
    requires e.AddMark? || e.WatchCluster? || e.OpenPool? ==> Kept(w, e.p)
    ensures Registered(Next(w, e), s, f) && f !in w.scopes[s].pushed
    ensures forall g :: g in w.scopes[s].pushed ==> Precedes(g, f)
  {
    AddedRegistered(w, e, s, f);
    AddedMissing(w, e, s, f);
    forall g | g in w.scopes[s].pushed ensures Precedes(g, f) { AddedLater(w, e, s, f, g); }
  }

  lemma RegisteredStep(w: World, e: Event, s: nat)
    requires Enabled(w, e) && s < |w.scopes| && Tidy(w, s)
    ensures forall f :: f in w.scopes[s].pushed ==> Registered(Next(w, e), s, f)
  {
    ProcessesExtend(w, e);
    forall f | f in w.scopes[s].pushed ensures Registered(Next(w, e), s, f) { assert Registered(w, s, f); }
  }

  lemma GrownTidy(w: World, e: Event, s: nat)
    requires Inv(w) && Enabled(w, e) && s < |w.scopes|
    ensures var pushed := w.scopes[s].pushed + Added(w, e, s);
            Distinct(pushed) && Ordered(pushed) && forall f :: f in pushed ==> Registered(Next(w, e), s, f)
  {
    var more := Added(w, e, s);
    assert Tidy(w, s);
    if e.AddMark? || e.WatchCluster? || e.OpenPool? { assert Kept(w, e.p); }
    RegisteredStep(w, e, s);
    forall f | f in more
      ensures Registered(Next(w, e), s, f) && f !in w.scopes[s].pushed
      ensures forall g :: g in w.scopes[s].pushed ==> Precedes(g, f)
    {
      AddedFits(w, e, s, f);
    }
    AppendDistinct(w.scopes[s].pushed, more);
    AppendOrdered(w.scopes[s].pushed, more);
  }

  lemma TidyStep(w: World, e: Event, s: nat)
    requires Inv(w) && Enabled(w, e) && s < |w.scopes|
    ensures Tidy(Next(w, e), s)
  {
    assert Tidy(w, s);
    ScopeStep(w, e, s);
    if e.RunFinalizer? && e.s == s {
      RegisteredStep(w, e, s);
      TopRuns(w.scopes[s], e.ended);
    } else {
      GrownTidy(w, e, s);
      GrownConserved(w.scopes[s], Added(w, e, s), Next(w, e).scopes[s].status);
    }
  }

  /** Of one process, the same was pushed, ran and failed. */
  ghost predicate Alike(p: nat, a: Scope, b: Scope) {
    forall f: Finalizer :: f.of == p && f.kind != CloseChild ==>
      (f in a.pushed <==> f in b.pushed) && (f in a.done <==> f in b.done) && (f in a.failed <==> f in b.failed)
  }

  lemma GuardedAlike(p: nat, process: Process, a: Scope, b: Scope)
    requires Guarded(p, process, a) && Alike(p, a, b)
    ensures Guarded(p, process, b)
  {
    assert forall kind :: kind != CloseChild ==>
        (Do(kind, p) in a.pushed <==> Do(kind, p) in b.pushed) && (Do(kind, p) in a.done <==> Do(kind, p) in b.done)
        && (Do(kind, p) in a.failed <==> Do(kind, p) in b.failed);
  }

  /** A process the release ended is not watched, or its exit was marked. */
  lemma ReleasedExpected(p: nat, process: Process, scope: Scope)
    requires Guarded(p, process, scope) && Conserved(scope) && Distinct(scope.pushed) && Ordered(scope.pushed)
    requires process.byRelease && process.watched
    ensures process.stopping && !process.cluster
  {
    RunsFirst(scope, Ending(p, process), Do(if process.cluster then StopWatcher else MarkStopping, p));
  }

  /** Running a finalizer of the process, with its effect. */
  lemma OwnFinalizer(p: nat, process: Process, scope: Scope, ended: bool)
    requires Guarded(p, process, scope) && Conserved(scope) && Distinct(scope.pushed)
    requires scope.status == Closing && scope.stack != [] && Top(scope).of == p && Top(scope).kind != CloseChild
    requires Top(scope).kind in {StopCluster, StopWatcher, EndPool} <==> process.cluster
    requires !ended ==>
             if Top(scope).kind == EndPool then process.poolOpen else EndsProcess(Top(scope).kind) && process.alive
    ensures Guarded(p, Effect(Top(scope).kind, ended, process), Popped(scope, ended))
  {
    TopRuns(scope, ended);
    var f, next := Top(scope), Popped(scope, ended);
    assert forall g :: g in next.done <==> g in scope.done || g == f;
    assert f !in scope.failed;
  }

  lemma OtherFinalizer(p: nat, process: Process, scope: Scope, ended: bool)
    requires Guarded(p, process, scope) && scope.stack != [] && (Top(scope).of != p || Top(scope).kind == CloseChild)
    ensures Guarded(p, process, Popped(scope, ended))
  {
    assert Alike(p, scope, Popped(scope, ended));
    GuardedAlike(p, process, scope, Popped(scope, ended));
  }

  function Touched(f: Finalizer, ended: bool, p: nat, process: Process): (after: Process)
    ensures after.scope == process.scope && after.cluster == process.cluster
  {
    if f.kind != CloseChild && f.of == p then Effect(f.kind, ended, process) else process
  }

  lemma ReleaseShape(w: World, s: nat, ended: bool, p: nat)
    requires s < |w.scopes| && w.scopes[s].stack != [] && p < |w.processes|
    ensures var next := Release(w, s, ended);
            && |next.processes| == |w.processes| && next.scopes == w.scopes[s := Popped(w.scopes[s], ended)]
            && next.processes[p] == Touched(Top(w.scopes[s]), ended, p, w.processes[p])
  {}

  lemma PoppedKeeps(p: nat, process: Process, scope: Scope, ended: bool)
    requires Guarded(p, process, scope) && Conserved(scope) && Distinct(scope.pushed)
    requires scope.status == Closing && scope.stack != []
    requires var f := Top(scope);
             f.kind != CloseChild && f.of == p ==>
               && (f.kind in {StopCluster, StopWatcher, EndPool} <==> process.cluster)
               && (!ended ==> if f.kind == EndPool then process.poolOpen else EndsProcess(f.kind) && process.alive)
    ensures Guarded(p, Touched(Top(scope), ended, p, process), Popped(scope, ended))
  {
    if Top(scope).kind != CloseChild && Top(scope).of == p {
      OwnFinalizer(p, process, scope, ended);
    } else {
      OtherFinalizer(p, process, scope, ended);
    }
  }

  /** After a finalizer of some scope ran, every process is what it should be. */
  lemma ReleaseKeeps(w: World, s: nat, ended: bool, p: nat)
    requires Enabled(w, RunFinalizer(s, ended)) && Tidy(w, s) && p < |w.processes| && Kept(w, p)
    ensures Kept(Release(w, s, ended), p)
  {
    TopRuns(w.scopes[s], ended);
    assert Registered(w, s, Top(w.scopes[s]));
    ReleaseShape(w, s, ended, p);
    if w.processes[p].scope == s { PoppedKeeps(p, w.processes[p], w.scopes[s], ended); }
  }

  /** A scope that got finalizers of others keeps what a process is. */
  lemma GrownKeeps(p: nat, process: Process, scope: Scope, more: seq<Finalizer>)
    requires Guarded(p, process, scope) && forall f :: f in more ==> f.kind == CloseChild || f.of != p
    ensures Guarded(p, process, Grown(scope, more))
  {
    assert Alike(p, scope, Grown(scope, more));
    GuardedAlike(p, process, scope, Grown(scope, more));
  }

  /** A process that gets a finalizer of its own. */
  lemma OwnGrows(p: nat, process: Process, scope: Scope, kind: Kind)
    requires Guarded(p, process, scope) && Conserved(scope) && scope.status == Open
    requires (!process.cluster && kind == MarkStopping && !process.marked)
          || (process.cluster && kind == StopWatcher && !process.watched)
          || (process.cluster && kind == EndPool && process.watched && !process.poolOpen)
    ensures var after := if kind == MarkStopping then process.(marked := true)
                         else if kind == StopWatcher then process.(watched := true) else process.(poolOpen := true);
            Guarded(p, after, Grown(scope, [Do(kind, p)]))
  {
    var next := Grown(scope, [Do(kind, p)]);
    assert forall f :: f in next.pushed <==> f in scope.pushed || f == Do(kind, p);
  }

  lemma GrowKeeps(w: World, e: Event, p: nat)
    requires Enabled(w, e) && (e.AddMark? || e.WatchCluster? || e.OpenPool?)
    requires p < |w.processes| && Kept(w, p) && Kept(w, e.p) && Tidy(w, w.processes[e.p].scope)
    ensures Kept(Next(w, e), p)
  {
    var kind := if e.AddMark? then MarkStopping else if e.WatchCluster? then StopWatcher else EndPool;
    var s := w.processes[e.p].scope;
    if p == e.p {
      OwnGrows(p, w.processes[p], w.scopes[s], kind);
    } else if w.processes[p].scope == s {
      GrownKeeps(p, w.processes[p], w.scopes[s], [Do(kind, e.p)]);
    }
  }

  /** A process that is new, with its ending among what its scope got. */
  lemma NewGuarded(p: nat, process: Process, scope: Scope, more: seq<Finalizer>)
    requires process == NewProcess(process.scope, process.cluster, process.supervised) && Conserved(scope)
             && scope.status == Open
    requires more == if process.cluster then [Do(StopCluster, p)] else [Do(Drain, p), Do(Kill, p)]
    requires forall f :: f in scope.pushed ==> f.kind == CloseChild || f.of != p
    ensures Guarded(p, process, Grown(scope, more))
  {
    assert more[|more| - 1] in more;
    assert forall f :: f in Grown(scope, more).pushed <==> f in scope.pushed || f in more;
  }

  lemma NewKeeps(w: World, e: Event, p: nat)
    requires Enabled(w, e) && (e.Acquire? || e.AcquireCluster?) && p <= |w.processes|
             && (p < |w.processes| ==> Kept(w, p))
    requires Tidy(w, if e.Acquire? then e.s else 0)
    ensures Kept(Next(w, e), p)
  {
    var s := if e.Acquire? then e.s else 0;
    if p == |w.processes| {
      forall f | f in w.scopes[s].pushed ensures f.kind == CloseChild || f.of != p { assert Registered(w, s, f); }
      NewGuarded(p, NewProcess(s, e.AcquireCluster?, e.AcquireCluster? || e.supervised), w.scopes[s], Added(w, e, s));
    } else if w.processes[p].scope == s {
      GrownKeeps(p, w.processes[p], w.scopes[s], Added(w, e, s));
    }
  }

  /** Steps that touch no finalizer: a scope changes its status, a process its own state. */
  lemma PlainKeeps(w: World, e: Event, p: nat)
    requires Enabled(w, e) && p < |w.processes| && Kept(w, p)
    requires e.Watch? || e.Crash? || e.BeginClose? || e.FinishClose? || e.BootSucceeds? || e.BootFails?
    ensures Kept(Next(w, e), p)
  {
    var s := w.processes[p].scope;
    assert Alike(p, w.scopes[s], Next(w, e).scopes[s]);
    GuardedAlike(p, w.processes[p], w.scopes[s], Next(w, e).scopes[s]);
  }

  lemma ReportKeeps(w: World, q: nat, p: nat)
    requires Enabled(w, Report(q)) && p < |w.processes| && Kept(w, p) && Tidy(w, w.processes[p].scope)
    ensures Kept(Next(w, Report(q)), p)
  {
    if p == q && w.processes[p].byRelease { ReleasedExpected(p, w.processes[p], w.scopes[w.processes[p].scope]); }
  }

  lemma ForkKeeps(w: World, p: nat)
    requires Enabled(w, ForkBackend) && p < |w.processes| && Kept(w, p)
    ensures Kept(Next(w, ForkBackend), p)
  {
    if w.processes[p].scope == 0 { GrownKeeps(p, w.processes[p], w.scopes[0], [Do(CloseChild, |w.scopes|)]); }
  }

  lemma KeptStep(w: World, e: Event, p: nat)
    requires Inv(w) && Enabled(w, e) && p < |Next(w, e).processes|
    ensures Kept(Next(w, e), p)
  {
    assert forall s :: 0 <= s < |w.scopes| ==> Tidy(w, s);
    assert p < |w.processes| ==> Kept(w, p);
    if e.Acquire? || e.AcquireCluster? {
      NewKeeps(w, e, p);
    } else if e.AddMark? || e.WatchCluster? || e.OpenPool? {
      assert Kept(w, e.p);
      GrowKeeps(w, e, p);
    } else if e.RunFinalizer? {
      ReleaseKeeps(w, e.s, e.ended, p);
    } else if e.ForkBackend? {
      ForkKeeps(w, p);
    } else if e.Report? {
      ReportKeeps(w, e.p, p);
    } else {
      PlainKeeps(w, e, p);
    }
  }

  /** Only closing and forking change which scopes are open. */
  lemma ChildStep(w: World, e: Event, k: nat)
    requires Inv(w) && Enabled(w, e) && 0 < k < |Next(w, e).scopes|
    ensures ChildHeld(Next(w, e), k)
  {
    ScopeStep(w, e, 0);
    if k < |w.scopes| {
      assert ChildHeld(w, k);
      ScopeStep(w, e, k);
    } else {
      assert Tidy(w, 0);
      forall f | f in w.scopes[0].pushed ensures f != Do(CloseChild, k) { assert Registered(w, 0, f); }
      SameElements(w.scopes[0].done, Do(CloseChild, k));
    }
  }

  /** A closed scope stays closed. */
  lemma ClosedStays(w: World, e: Event, k: nat)
    requires Enabled(w, e) && k < |w.scopes| && w.scopes[k].status == Closed
    ensures k < |Next(w, e).scopes| && Next(w, e).scopes[k].status == Closed
  {
    ScopeStep(w, e, k);
  }

  lemma ForkReplaced(w: World)
    requires |w.scopes| > 0 && Replaced(w) && Enabled(w, ForkBackend)
    ensures Replaced(Next(w, ForkBackend))
  {}

  lemma ReplacedStep(w: World, e: Event)
    requires |w.scopes| > 0 && Replaced(w) && Enabled(w, e)
    ensures Replaced(Next(w, e))
  {
    if e.ForkBackend? {
      ForkReplaced(w);
    } else {
      forall k | 0 < k < |w.scopes| && w.scopes[k].status == Closed ensures Next(w, e).scopes[k].status == Closed {
        ClosedStays(w, e, k);
      }
    }
  }

  lemma SuccessiveStep(w: World, e: Event)
    requires Inv(w) && Enabled(w, e)
    ensures Successive(Next(w, e))
  {
    var next := Next(w, e);
    ProcessesExtend(w, e);
    forall p, q | 0 <= p < q < |next.processes| && next.processes[p].scope != 0 && next.processes[q].scope != 0
      ensures next.processes[p].scope < next.processes[q].scope
    {
      if q >= |w.processes| { assert Kept(w, p); }
    }
  }

  /** Every atomic step keeps the scopes tidy, every process what it should be, and backends successive. */
  lemma StepInv(w: World, e: Event)
    requires Inv(w) && Enabled(w, e)
    ensures Inv(Next(w, e))
  {
    var next := Next(w, e);
    ProcessesExtend(w, e);
    forall s | 0 <= s < |next.scopes| ensures Tidy(next, s) {
      if s < |w.scopes| { TidyStep(w, e, s); } else { assert next.scopes[s] == EMPTY; }
    }
    forall p | 0 <= p < |next.processes| ensures Kept(next, p) { KeptStep(w, e, p); }
    forall k | 0 < k < |next.scopes| ensures ChildHeld(next, k) { ChildStep(w, e, k); }
    ReplacedStep(w, e);
    SuccessiveStep(w, e);
  }

  lemma StartInv()
    ensures Inv(Start())
  {}

  lemma {:induction false} EveryRun(events: seq<Event>)
    requires Run(events).Some?
    ensures Inv(Run(events).value)
  {
    StartInv();
    if events != [] {
      EveryRun(events[..|events| - 1]);
      StepInv(Run(events[..|events| - 1]).value, events[|events| - 1]);
    }
  }

  // ---- Release -------------------------------------------------------------------------------------------

  /** At every moment the finalizers that ran are the newest ones, newest first; a closed scope ran them all. */
  lemma ReleasedInReverse(events: seq<Event>, s: nat)
    requires Run(events).Some? && s < |Run(events).value.scopes|
    ensures var scope := Run(events).value.scopes[s];
            scope.done <= Reverse(scope.pushed) && (scope.status == Closed ==> scope.done == Reverse(scope.pushed))
  {
    EveryRun(events);
    assert Tidy(Run(events).value, s);
    var scope := Run(events).value.scopes[s];
    ReverseAppend(scope.stack, Reverse(scope.done));
    ReverseTwice(scope.done);
    assert scope.status == Closed ==> Reverse(scope.stack) == [];
  }

  lemma {:induction false} ReverseAt(fs: seq<Finalizer>, k: nat)
    requires k < |fs|
    ensures |Reverse(fs)| == |fs| && Reverse(fs)[k] == fs[|fs| - 1 - k]
  {
    var n := |fs| - 1;
    if n > 0 { ReverseAt(fs[..n], if k == 0 then 0 else k - 1); }
  }

  lemma OrderedBackwards(pushed: seq<Finalizer>, done: seq<Finalizer>, i: nat, j: nat)
    requires Ordered(pushed) && done <= Reverse(pushed) && i < j < |done|
    ensures Precedes(done[j], done[i])
  {
    ReverseTwice(pushed);
    ReverseAt(pushed, i);
    ReverseAt(pushed, j);
  }

  /** Of one process, the finalizers ran in the order of its release: its exit is marked before its group is
      signalled, and the log is drained last; the pool ends, the watcher stops, then the cluster. Of several
      processes, and of several children, the later is released first. */
  lemma ReleaseOrder(events: seq<Event>, s: nat, i: nat, j: nat)
    requires Run(events).Some? && s < |Run(events).value.scopes|
    requires i < j < |Run(events).value.scopes[s].done|
    ensures var f, g := Run(events).value.scopes[s].done[i], Run(events).value.scopes[s].done[j];
            && (f.kind != CloseChild && g.kind != CloseChild && f.of == g.of ==> Rank(f.kind) > Rank(g.kind))
            && (EndsProcess(f.kind) && EndsProcess(g.kind) ==> f.of > g.of)
            && (f.kind == CloseChild && g.kind == CloseChild ==> f.of > g.of)
  {
    EveryRun(events);
    ReleasedInReverse(events, s);
    assert Tidy(Run(events).value, s);
    OrderedBackwards(Run(events).value.scopes[s].pushed, Run(events).value.scopes[s].done, i, j);
  }

  /** Processes of one scope are released in reverse order of acquisition. */
  lemma ProcessesInReverse(events: seq<Event>, p: nat, q: nat)
    requires Run(events).Some? && p < q < |Run(events).value.processes|
    requires Run(events).value.processes[p].scope == Run(events).value.processes[q].scope
    ensures var w := Run(events).value;
            var s := w.processes[p].scope;
            s < |w.scopes|
            && (Ending(p, w.processes[p]) in w.scopes[s].done ==> Ending(q, w.processes[q]) in w.scopes[s].done)
  {
    EveryRun(events);
    var w := Run(events).value;
    assert Kept(w, p) && Kept(w, q) && Tidy(w, w.processes[p].scope);
    RunsFirst(w.scopes[w.processes[p].scope], Ending(p, w.processes[p]), Ending(q, w.processes[q]));
  }

  /** The same processes and scopes, with what was pushed in its place. */
  ghost predicate Continues(earlier: World, later: World, s: nat) {
    && Extends(earlier.processes, later.processes)
    && s < |earlier.scopes| <= |later.scopes| && earlier.scopes[s].pushed <= later.scopes[s].pushed
  }

  lemma StepContinues(w: World, e: Event, s: nat)
    requires Enabled(w, e) && s < |w.scopes|
    ensures Continues(w, Next(w, e), s)
  {
    ProcessesExtend(w, e);
    ScopeStep(w, e, s);
  }

  lemma ContinuesFollow(a: World, b: World, c: World, s: nat)
    requires Continues(a, b, s) && Continues(b, c, s)
    ensures Continues(a, c, s)
  {}

  /** The last step of a run. */
  lemma LastStep(events: seq<Event>, before: World, after: World)
    requires events != [] && Run(events[..|events| - 1]) == Some(before) && Run(events) == Some(after)
    ensures Enabled(before, events[|events| - 1]) && after == Next(before, events[|events| - 1])
  {}

  lemma {:induction false} PushedKept(events: seq<Event>, n: nat, s: nat, earlier: World, later: World)
    requires n <= |events| && Run(events[..n]) == Some(earlier) && Run(events) == Some(later)
    requires s < |earlier.scopes|
    ensures Continues(earlier, later, s)
  {
    if n == |events| {
      assert events[..n] == events;
    } else {
      var m := |events| - 1;
      var before := Run(events[..m]).value;
      assert events[..m][..n] == events[..n];
      PushedKept(events[..m], n, s, earlier, before);
      LastStep(events, before, later);
      StepContinues(before, events[m], s);
      ContinuesFollow(earlier, before, later, s);
    }
  }

  /** A longer run keeps what a shorter one pushed, in its place. */
  lemma PushedStays(events: seq<Event>, n: nat, s: nat)
    requires Run(events).Some? && n <= |events|
    requires Run(events[..n]).Some? && s < |Run(events[..n]).value.scopes|
    ensures Continues(Run(events[..n]).value, Run(events).value, s)
  {
    PushedKept(events, n, s, Run(events[..n]).value, Run(events).value);
  }

  /** A process of the journey scope that was there before a backend scope was forked is ended only after that
      scope closed, and so after the backend in it: no backend outlives the cluster it uses. */
  lemma ChildrenFirst(events: seq<Event>, n: nat, p: nat, k: nat)
    requires Run(events).Some? && n <= |events| && Run(events[..n]).Some?
    requires p < |Run(events[..n]).value.processes| && Run(events[..n]).value.processes[p].scope == 0
    requires 0 < |Run(events[..n]).value.scopes| <= k < |Run(events).value.scopes|
    ensures p < |Run(events).value.processes|
    ensures var w := Run(events).value;
            Ending(p, w.processes[p]) in w.scopes[0].done ==>
              && w.scopes[k].status == Closed
              && forall q :: 0 <= q < |w.processes| && w.processes[q].scope == k ==>
                   Ending(q, w.processes[q]) in w.scopes[k].done
  {
    EveryRun(events);
    EveryRun(events[..n]);
    PushedStays(events, n, 0);
    var earlier, w := Run(events[..n]).value, Run(events).value;
    assert Kept(earlier, p) && Kept(w, p) && Tidy(earlier, 0) && Tidy(w, 0) && Tidy(w, k) && ChildHeld(w, k);
    var f, g := Ending(p, w.processes[p]), Do(CloseChild, k);
    var i :| 0 <= i < |earlier.scopes[0].pushed| && earlier.scopes[0].pushed[i] == f;
    var j :| 0 <= j < |w.scopes[0].pushed| && w.scopes[0].pushed[j] == g;
    assert j >= |earlier.scopes[0].pushed| by {
      assert g in earlier.scopes[0].pushed ==> Registered(earlier, 0, g);
    }
    LaterRanFirst(w.scopes[0], i, j);
    forall q | 0 <= q < |w.processes| && w.processes[q].scope == k && w.scopes[k].status == Closed
      ensures Ending(q, w.processes[q]) in w.scopes[k].done
    {
      assert Kept(w, q);
      SameElements(w.scopes[k].done, Ending(q, w.processes[q]));
    }
  }

  /** A finalizer that was added either still stands or ran, once. */
  lemma StandsOrRan(scope: Scope, f: Finalizer)
    requires Conserved(scope) && Distinct(scope.pushed) && f in scope.pushed
    ensures multiset(scope.done)[f] == if f in scope.stack then 0 else 1
    ensures f in scope.done <==> f !in scope.stack
  {
    DistinctCounts(scope.pushed, f);
    ReverseTwice(scope.done);
    assert multiset(scope.pushed) == multiset(scope.stack) + multiset(scope.done);
    assert f in scope.done <==> f in multiset(scope.done);
  }

  /** How one process stands to the release of its scope. */
  ghost predicate Released(p: nat, process: Process, scope: Scope) {
    var ending := Ending(p, process);
    && multiset(scope.done)[ending] <= 1
    && (scope.status == Closed ==> multiset(scope.done)[ending] == 1)
    && (process.alive <==> !process.crashed && (ending !in scope.done || ending in scope.failed))
    && (ending in scope.done ==> if process.cluster then !process.watched else process.marked ==> process.stopping)
  }

  lemma GuardedReleased(p: nat, process: Process, scope: Scope)
    requires Guarded(p, process, scope) && Conserved(scope) && Distinct(scope.pushed) && Ordered(scope.pushed)
    ensures Released(p, process, scope)
  {
    StandsOrRan(scope, Ending(p, process));
    if Ending(p, process) in scope.done { EndedAfterMark(p, process, scope); }
  }

  /** A process is ended by its scope at most once, and by a closed scope exactly once. It is alive exactly
      when it has not exited by itself and its ending has not run or did not end it; and its ending runs only
      after its exit was marked, or its watcher stopped. */
  lemma ReleasedOnce(events: seq<Event>, p: nat)
    requires Run(events).Some? && p < |Run(events).value.processes|
    ensures var w := Run(events).value;
            w.processes[p].scope < |w.scopes| && Released(p, w.processes[p], w.scopes[w.processes[p].scope])
  {
    EveryRun(events);
    var w := Run(events).value;
    assert Kept(w, p) && Tidy(w, w.processes[p].scope);
    GuardedReleased(p, w.processes[p], w.scopes[w.processes[p].scope]);
  }

  lemma EndedAfterMark(p: nat, process: Process, scope: Scope)
    requires Guarded(p, process, scope) && Conserved(scope) && Distinct(scope.pushed) && Ordered(scope.pushed)
    requires Ending(p, process) in scope.done
    ensures if process.cluster then !process.watched else process.marked ==> process.stopping
  {
    if process.cluster && process.watched { RunsFirst(scope, Ending(p, process), Do(StopWatcher, p)); }
    if !process.cluster && process.marked { RunsFirst(scope, Ending(p, process), Do(MarkStopping, p)); }
  }

  /** The end of the pool runs before its cluster stops, and the pool is closed by then exactly when its end did
      not time out. */
  lemma PoolClosedExactly(events: seq<Event>, p: nat)
    requires Run(events).Some? && p < |Run(events).value.processes| && Run(events).value.processes[p].cluster
    ensures var w := Run(events).value;
            && w.processes[p].scope < |w.scopes|
            && var scope := w.scopes[w.processes[p].scope];
            && (Do(StopCluster, p) in scope.done && Do(EndPool, p) in scope.pushed ==> Do(EndPool, p) in scope.done)
            && (Do(StopCluster, p) in scope.done ==> (w.processes[p].poolOpen <==> Do(EndPool, p) in scope.failed))
  {
    EveryRun(events);
    var w := Run(events).value;
    assert Kept(w, p) && Tidy(w, w.processes[p].scope);
    var scope := w.scopes[w.processes[p].scope];
    if Do(EndPool, p) in scope.pushed { RunsFirst(scope, Do(StopCluster, p), Do(EndPool, p)); }
    assert Do(EndPool, p) in scope.done ==> Do(EndPool, p) in scope.pushed by {
      if Do(EndPool, p) in scope.done { SameElements(scope.done, Do(EndPool, p)); }
    }
  }

  /** Step `i` ran this finalizer of the scope without ending what it releases. */
  ghost predicate FailedAt(events: seq<Event>, i: nat, s: nat, f: Finalizer) {
    && i < |events| && events[i] == RunFinalizer(s, false)
    && Run(events[..i]).Some? && s < |Run(events[..i]).value.scopes|
    && var scope := Run(events[..i]).value.scopes[s]; scope.stack != [] && Top(scope) == f
  }

  lemma FailedAtPrefix(events: seq<Event>, i: nat, s: nat, f: Finalizer)
    requires i < |events| - 1
    ensures FailedAt(events, i, s, f) <==> FailedAt(events[..|events| - 1], i, s, f)
  {
    assert events[..|events| - 1][..i] == events[..i];
  }

  ghost predicate FailedSomewhere(events: seq<Event>, s: nat, f: Finalizer) {
    exists i: nat :: FailedAt(events, i, s, f)
  }

  lemma FailedBeforeOrLast(events: seq<Event>, s: nat, f: Finalizer)
    requires events != []
    ensures FailedSomewhere(events, s, f) <==>
              FailedSomewhere(events[..|events| - 1], s, f) || FailedAt(events, |events| - 1, s, f)
  {
    var n := |events| - 1;
    if i: nat :| FailedAt(events, i, s, f) && i < n { FailedAtPrefix(events, i, s, f); }
    if i: nat :| FailedAt(events[..n], i, s, f) { FailedAtPrefix(events, i, s, f); }
  }

  lemma FailedNext(w: World, e: Event, s: nat, f: Finalizer)
    requires Enabled(w, e) && s < |w.scopes|
    ensures s < |Next(w, e).scopes|
    ensures f in Next(w, e).scopes[s].failed <==>
              f in w.scopes[s].failed || (e == RunFinalizer(s, false) && Top(w.scopes[s]) == f)
  {
    ScopeStep(w, e, s);
  }

  lemma NothingFailedYet(events: seq<Event>, s: nat, f: Finalizer)
    requires Run(events).Some? && |Run(events).value.scopes| <= s
    ensures !FailedSomewhere(events, s, f)
  {
    forall i: nat | i < |events| ensures !FailedAt(events, i, s, f) { NoScopeYet(events, i, s); }
  }

  lemma NewScope(w: World, e: Event, s: nat)
    requires Enabled(w, e) && |w.scopes| <= s < |Next(w, e).scopes|
    ensures Next(w, e).scopes[s].failed == {} && !e.RunFinalizer?
  {}

  /** The finalizers recorded as failed are those that some step of the run found so. */
  lemma {:induction false} FailedExactly(events: seq<Event>, s: nat, f: Finalizer)
    requires Run(events).Some? && s < |Run(events).value.scopes|
    ensures f in Run(events).value.scopes[s].failed <==> FailedSomewhere(events, s, f)
  {
    if events != [] {
      var n := |events| - 1;
      var before := Run(events[..n]).value;
      FailedBeforeOrLast(events, s, f);
      if s < |before.scopes| {
        FailedExactly(events[..n], s, f);
        FailedNext(before, events[n], s, f);
      } else {
        NothingFailedYet(events[..n], s, f);
        NewScope(before, events[n], s);
      }
    }
  }

  lemma PrefixOf(events: seq<Event>, i: nat)
    requires i < |events|
    ensures events[..|events| - 1][..i] == events[..i]
  {}

  /** A scope that is not there at the end was never there. */
  lemma {:induction false} NoScopeYet(events: seq<Event>, i: nat, s: nat)
    requires Run(events).Some? && i <= |events| && |Run(events).value.scopes| <= s
    ensures Run(events[..i]).Some? && |Run(events[..i]).value.scopes| <= s
  {
    if i == |events| {
      assert events[..i] == events;
    } else {
      var m := |events| - 1;
      ProcessesExtend(Run(events[..m]).value, events[m]);
      NoScopeYet(events[..m], i, s);
      assert events[..m][..i] == events[..i];
    }
  }

  /** Nothing the journey owned is left: no process, no pool. */
  ghost predicate NothingLeft(w: World) {
    forall p :: 0 <= p < |w.processes| ==> !w.processes[p].alive && !w.processes[p].poolOpen
  }

  /** Every ending ended its process, or the process exited by itself, and no end of a pool timed out. */
  ghost predicate EverythingEnded(w: World) {
    forall p :: 0 <= p < |w.processes| && w.processes[p].scope < |w.scopes| ==>
      var failed := w.scopes[w.processes[p].scope].failed;
      (Ending(p, w.processes[p]) in failed ==> w.processes[p].crashed) && Do(EndPool, p) !in failed
  }

  predicate JourneyClosed(w: World) { w.scopes != [] && w.scopes[0].status == Closed }

  /** Once the journey scope closed, every scope did, every finalizer ran in reverse order, and nothing is left
      exactly when every release ended what it was for. */
  lemma ClosedJourney(events: seq<Event>)
    requires Run(events).Some? && JourneyClosed(Run(events).value)
    ensures var w := Run(events).value;
            && (forall s :: 0 <= s < |w.scopes| ==>
                  w.scopes[s].status == Closed && w.scopes[s].done == Reverse(w.scopes[s].pushed))
            && (NothingLeft(w) <==> EverythingEnded(w))
  {
    EveryRun(events);
    var w := Run(events).value;
    forall s | 0 <= s < |w.scopes|
      ensures w.scopes[s].status == Closed && w.scopes[s].done == Reverse(w.scopes[s].pushed)
    {
      assert Tidy(w, 0);
      if s > 0 {
        assert ChildHeld(w, s);
        SameElements(w.scopes[0].done, Do(CloseChild, s));
      }
      ReleasedInReverse(events, s);
    }
    forall p | 0 <= p < |w.processes|
      ensures w.processes[p].scope < |w.scopes|
      ensures var failed := w.scopes[w.processes[p].scope].failed;
              && (w.processes[p].alive <==> !w.processes[p].crashed && Ending(p, w.processes[p]) in failed)
              && (w.processes[p].poolOpen <==> Do(EndPool, p) in failed)
    {
      assert Kept(w, p) && Tidy(w, w.processes[p].scope);
      ClosedProcess(p, w.processes[p], w.scopes[w.processes[p].scope]);
    }
  }

  lemma ClosedProcess(p: nat, process: Process, scope: Scope)
    requires Guarded(p, process, scope) && Conserved(scope) && scope.status == Closed
    ensures process.alive <==> !process.crashed && Ending(p, process) in scope.failed
    ensures process.poolOpen <==> Do(EndPool, p) in scope.failed
  {
    assert scope.pushed == Reverse(scope.done);
    SameElements(scope.done, Ending(p, process));
    SameElements(scope.done, Do(EndPool, p));
  }

  // ---- Every release can finish -----------------------------------------------------------------------------

  function Load(scope: Scope): nat {
    |scope.stack| + (match scope.status case Open => 2 case Closing => 1 case Closed => 0)
  }

  /** The release steps still to come. */
  function Work(scopes: seq<Scope>): nat {
    if scopes == [] then 0 else Work(scopes[..|scopes| - 1]) + Load(scopes[|scopes| - 1])
  }

  lemma {:induction false} WorkUpdate(scopes: seq<Scope>, s: nat, scope: Scope)
    requires s < |scopes|
    ensures Work(scopes[s := scope]) == Work(scopes) - Load(scopes[s]) + Load(scope)
  {
    var n := |scopes| - 1;
    if s == n {
      assert scopes[s := scope][..n] == scopes[..n];
    } else {
      WorkUpdate(scopes[..n], s, scope);
      assert scopes[s := scope][..n] == scopes[..n][s := scope];
    }
  }

  predicate IsRelease(e: Event) { e.BeginClose? || e.RunFinalizer? || e.FinishClose? }

  lemma ReleaseLessens(w: World, e: Event)
    requires IsRelease(e) && Enabled(w, e)
    ensures Work(Next(w, e).scopes) == Work(w.scopes) - 1
    ensures |Next(w, e).scopes| == |w.scopes|
    ensures forall s :: 0 <= s < |w.scopes| && w.scopes[s].status != Open ==> Next(w, e).scopes[s].status != Open
  {
    var next := Next(w, e);
    assert next.scopes == w.scopes[e.s := next.scopes[e.s]];
    WorkUpdate(w.scopes, e.s, next.scopes[e.s]);
  }

  lemma TopPushed(scope: Scope)
    requires Conserved(scope) && scope.stack != []
    ensures Top(scope) in scope.pushed
  {
    assert scope.pushed[|scope.stack| - 1] == Top(scope);
  }

  /** While the journey scope is closing, some release step can be taken: nothing waits for ever. */
  lemma SomeReleaseEnabled(w: World) returns (e: Event)
    requires Inv(w) && w.scopes[0].status == Closing
    ensures IsRelease(e) && Enabled(w, e)
  {
    if w.scopes[0].stack == [] { return FinishClose(0); }
    var top := Top(w.scopes[0]);
    assert Tidy(w, 0);
    TopPushed(w.scopes[0]);
    assert Registered(w, 0, top);
    if top.kind != CloseChild || w.scopes[top.of].status == Closed { return RunFinalizer(0, true); }
    var child := w.scopes[top.of];
    if child.status == Open { return BeginClose(top.of); }
    if child.stack == [] { return FinishClose(top.of); }
    assert Tidy(w, top.of);
    TopPushed(child);
    assert Registered(w, top.of, Top(child));
    e := RunFinalizer(top.of, true);
  }

  /** One release step further, with one less to come. */
  lemma ReleaseStep(events: seq<Event>, w: World) returns (e: Event, next: World)
    requires Run(events) == Some(w) && w.scopes != [] && w.scopes[0].status == Closing
    ensures IsRelease(e) && Run(events + [e]) == Some(next)
    ensures next.scopes != [] && next.scopes[0].status != Open && Work(next.scopes) < Work(w.scopes)
  {
    EveryRun(events);
    e := SomeReleaseEnabled(w);
    next := Next(w, e);
    ReleaseLessens(w, e);
    assert (events + [e])[..|events|] == events;
  }

  /** Whatever happened before, a release of the journey that has begun can be brought to its end. */
  lemma {:induction false} ReleaseCompletes(events: seq<Event>, w: World) returns (all: seq<Event>, closed: World)
    requires Run(events) == Some(w) && w.scopes != [] && w.scopes[0].status != Open
    ensures Run(all) == Some(closed) && JourneyClosed(closed)
    ensures events <= all && forall i :: |events| <= i < |all| ==> IsRelease(all[i])
    decreases Work(w.scopes)
  {
    if w.scopes[0].status == Closed { return events, w; }
    var e, next := ReleaseStep(events, w);
    all, closed := ReleaseCompletes(events + [e], next);
    assert all[|events|] == e;
  }

  // ---- Supervision ------------------------------------------------------------------------------------------

  /** Step `j` acquired process number `p`. */
  ghost predicate MadeBy(events: seq<Event>, j: nat, p: nat) {
    && j < |events| && (events[j].Acquire? || events[j].AcquireCluster?)
    && Run(events[..j]).Some? && |Run(events[..j]).value.processes| == p
  }

  lemma MadeByPrefix(events: seq<Event>, n: nat, j: nat, p: nat)
    requires j < n <= |events|
    ensures MadeBy(events, j, p) <==> MadeBy(events[..n], j, p)
  {
    assert events[..n][..j] == events[..j];
  }

  /** One step makes at most one process, and only an acquisition makes any. */
  lemma OneMore(w: World, e: Event)
    requires Enabled(w, e)
    ensures |Next(w, e).processes| == |w.processes| + if e.Acquire? || e.AcquireCluster? then 1 else 0
    ensures e.Acquire? ==>
              Next(w, e).processes[|w.processes|] == Process(
                e.s, false, e.supervised, true, false, false, false, false, false, false, None)
    ensures e.AcquireCluster? ==>
              Next(w, e).processes[|w.processes|] == Process(
                0, true, true, true, false, false, false, false, false, false, None)
  {}

  lemma {:induction false} MadeBefore(events: seq<Event>, j: nat, p: nat)
    requires Run(events).Some? && MadeBy(events, j, p)
    ensures p < |Run(events).value.processes|
  {
    var n := |events| - 1;
    OneMore(Run(events[..n]).value, events[n]);
    if j < n {
      MadeByPrefix(events, n, j, p);
      MadeBefore(events[..n], j, p);
    }
  }

  lemma MadeEarlier(events: seq<Event>, j: nat, k: nat, p: nat)
    requires MadeBy(events, j, p) && MadeBy(events, k, p)
    ensures j >= k
  {
    if j < k {
      MadeByPrefix(events, k, j, p);
      MadeBefore(events[..k], j, p);
    }
  }

  /** What a process is says which acquisition made it. */
  predicate MadeAs(process: Process, e: Event) {
    if process.cluster then e == AcquireCluster && process.scope == 0 && process.supervised
    else e == Acquire(process.scope, process.supervised)
  }

  lemma {:induction false} EachMade(events: seq<Event>, p: nat, after: World) returns (j: nat)
    requires Run(events) == Some(after) && p < |after.processes|
    ensures MadeBy(events, j, p) && MadeAs(after.processes[p], events[j])
  {
    var n := |events| - 1;
    var before := Run(events[..n]).value;
    LastStep(events, before, after);
    OneMore(before, events[n]);
    ProcessesExtend(before, events[n]);
    if p < |before.processes| {
      j := EachMade(events[..n], p, before);
      MadeByPrefix(events, n, j, p);
    } else {
      j := n;
    }
  }

  /** In every run each process stems from exactly one acquisition, and is in the scope, of the kind and as supervised
      as that said. */
  lemma EachMadeOnce(events: seq<Event>, p: nat) returns (j: nat)
    requires Run(events).Some? && p < |Run(events).value.processes|
    ensures MadeBy(events, j, p) && forall k: nat :: MadeBy(events, k, p) ==> k == j
    ensures var process := Run(events).value.processes[p];
            if process.cluster then events[j] == AcquireCluster && process.scope == 0 && process.supervised
            else events[j] == Acquire(process.scope, process.supervised)
  {
    j := EachMade(events, p, Run(events).value);
    forall k: nat | MadeBy(events, k, p) ensures k == j {
      MadeEarlier(events, j, k, p);
      MadeEarlier(events, k, j, p);
    }
  }

  /** The exit of this process is not yet expected in step `i`: its release has not marked it. */
  ghost predicate Unmarked(events: seq<Event>, i: nat, s: nat, p: nat)
    requires i <= |events|
  {
    && Run(events[..i]).Some? && s < |Run(events[..i]).value.scopes|
    && Do(MarkStopping, p) !in Run(events[..i]).value.scopes[s].done
  }

  /** Step `j` acquired a process under supervision whose exit step `i` reports unexpectedly. Nothing marks the exit
      of a cluster, whose release stops the watcher instead. */
  ghost predicate ReportsMade(events: seq<Event>, j: nat, i: nat) {
    && j < i < |events| && events[i].Report? && MadeBy(events, j, events[i].p)
    && (events[j].Acquire? ==> events[j].supervised && Unmarked(events, i, events[j].s, events[i].p))
  }

  ghost predicate Unexpected(events: seq<Event>, i: nat) { exists j: nat :: ReportsMade(events, j, i) }

  /** The same of the world in which the report comes. */
  ghost predicate UnexpectedIn(w: World, p: nat) {
    && p < |w.processes| && w.processes[p].supervised && w.processes[p].scope < |w.scopes|
    && (w.processes[p].cluster || Do(MarkStopping, p) !in w.scopes[w.processes[p].scope].done)
  }

  lemma UnexpectedThen(events: seq<Event>, i: nat, w: World)
    requires i < |events| && events[i].Report? && Run(events[..i]) == Some(w) && events[i].p < |w.processes|
    ensures Unexpected(events, i) <==> UnexpectedIn(w, events[i].p)
  {
    var p := events[i].p;
    var j := EachMadeOnce(events[..i], p);
    MadeByPrefix(events, i, j, p);
    EveryRun(events[..i]);
    assert Kept(w, p);
    if UnexpectedIn(w, p) { assert ReportsMade(events, j, i); }
    forall k: nat | ReportsMade(events, k, i) ensures k == j { MadeByPrefix(events, i, k, p); }
  }

  lemma ReportsMadePrefix(events: seq<Event>, j: nat, i: nat)
    requires i < |events| - 1
    ensures ReportsMade(events, j, i) <==> ReportsMade(events[..|events| - 1], j, i)
  {
    PrefixOf(events, i);
    if j < i { PrefixOf(events, j); }
  }

  lemma UnexpectedPrefix(events: seq<Event>, i: nat)
    requires i < |events| - 1
    ensures Unexpected(events, i) <==> Unexpected(events[..|events| - 1], i)
  {
    var before := events[..|events| - 1];
    if j: nat :| ReportsMade(events, j, i) { ReportsMadePrefix(events, j, i); }
    if j: nat :| ReportsMade(before, j, i) { ReportsMadePrefix(events, j, i); }
  }

  lemma OthersKeepSupervision(w: World, e: Event)
    requires Enabled(w, e) && !e.Report?
    ensures Next(w, e).supervision == w.supervision
  {}

  ghost predicate SomeUnexpected(events: seq<Event>) { exists i: nat :: Unexpected(events, i) }

  lemma UnexpectedBeforeOrLast(events: seq<Event>)
    requires events != []
    ensures SomeUnexpected(events) <==>
              SomeUnexpected(events[..|events| - 1]) || Unexpected(events, |events| - 1)
  {
    var n := |events| - 1;
    if i: nat :| Unexpected(events, i) && i < n { UnexpectedPrefix(events, i); }
    if i: nat :| Unexpected(events[..n], i) { UnexpectedPrefix(events, i); }
  }

  lemma SupervisionNext(events: seq<Event>)
    requires Run(events).Some? && events != []
    ensures Run(events[..|events| - 1]).Some?
    ensures Run(events).value.supervision.Some? <==>
              Run(events[..|events| - 1]).value.supervision.Some? || Unexpected(events, |events| - 1)
  {
    var n := |events| - 1;
    if events[n].Report? { LastReport(events); } else { OthersKeepSupervision(Run(events[..n]).value, events[n]); }
  }

  /** Supervision fails exactly when some step of the run reports an unexpected exit. */
  lemma {:induction false} SupervisionExactly(events: seq<Event>)
    requires Run(events).Some?
    ensures Run(events).value.supervision.Some? <==> SomeUnexpected(events)
  {
    if events != [] {
      UnexpectedBeforeOrLast(events);
      SupervisionNext(events);
      SupervisionExactly(events[..|events| - 1]);
    }
  }

  lemma LastReport(events: seq<Event>)
    requires Run(events).Some? && events != [] && events[|events| - 1].Report?
    ensures var n := |events| - 1;
            var before, after := Run(events[..n]).value.supervision, Run(events).value.supervision;
            && Run(events[..n]).Some?
            && after == if before.None? && Unexpected(events, n) then Some(events[n].p) else before
  {
    var n := |events| - 1;
    var w := Run(events[..n]).value;
    EveryRun(events[..n]);
    assert Kept(w, events[n].p);
    UnexpectedThen(events, n, w);
  }

  /** The first unexpected exit is the one that is blamed. */
  lemma {:induction false} FirstIsBlamed(events: seq<Event>) returns (i: nat)
    requires Run(events).Some? && Run(events).value.supervision.Some?
    ensures Unexpected(events, i) && events[i] == Report(Run(events).value.supervision.value)
    ensures forall k: nat :: k < i ==> !Unexpected(events, k)
  {
    var n := |events| - 1;
    var w := Run(events[..n]).value;
    if events[n].Report? { LastReport(events); } else { OthersKeepSupervision(w, events[n]); }
    if w.supervision.Some? {
      i := FirstIsBlamed(events[..n]);
      UnexpectedPrefix(events, i);
    } else {
      i := n;
      SupervisionExactly(events[..n]);
    }
    forall k: nat | k < i ensures !Unexpected(events, k) { UnexpectedPrefix(events, k); }
  }

  lemma OnlyCrashes(w: World, e: Event, p: nat)
    requires Enabled(w, e) && p < |Next(w, e).processes| && Next(w, e).processes[p].crashed
    ensures p < |w.processes| && (w.processes[p].crashed || e == Crash(p))
  {
    if e.RunFinalizer? && p < |w.processes| { ReleaseShape(w, e.s, e.ended, p); }
  }

  lemma {:induction false} CrashedWas(events: seq<Event>, p: nat) returns (j: nat)
    requires Run(events).Some? && p < |Run(events).value.processes| && Run(events).value.processes[p].crashed
    ensures j < |events| && events[j] == Crash(p)
  {
    var n := |events| - 1;
    OnlyCrashes(Run(events[..n]).value, events[n], p);
    if events[n] == Crash(p) { j := n; } else { j := CrashedWas(events[..n], p); }
  }

  /** An unexpected exit is a crash: no exit that the release caused is ever reported as unexpected. */
  lemma UnexpectedIsCrash(events: seq<Event>, i: nat) returns (j: nat)
    requires Run(events).Some? && Unexpected(events, i)
    ensures j < i && events[j] == Crash(events[i].p)
  {
    EnabledAt(events, i);
    var w, p := Run(events[..i]).value, events[i].p;
    EveryRun(events[..i]);
    UnexpectedThen(events, i, w);
    assert Kept(w, p) && Tidy(w, w.processes[p].scope);
    if w.processes[p].byRelease { ReleasedExpected(p, w.processes[p], w.scopes[w.processes[p].scope]); }
    j := CrashedWas(events[..i], p);
  }

  lemma {:induction false} EnabledAt(events: seq<Event>, i: nat)
    requires Run(events).Some? && i < |events|
    ensures Run(events[..i]).Some? && Enabled(Run(events[..i]).value, events[i])
  {
    if i < |events| - 1 {
      EnabledAt(events[..|events| - 1], i);
      PrefixOf(events, i);
    }
  }

  /** Supervision blames a supervised process that crashed. */
  lemma BlamedCrashed(events: seq<Event>) returns (j: nat)
    requires Run(events).Some? && Run(events).value.supervision.Some?
    ensures j < |events| && events[j] == Crash(Run(events).value.supervision.value)
  {
    var i := FirstIsBlamed(events);
    j := UnexpectedIsCrash(events, i);
  }

  // ---- Replacing the backend ------------------------------------------------------------------------------

  predicate LiveBackend(w: World, p: nat)
    requires p < |w.processes|
  {
    w.processes[p].scope != 0 && w.processes[p].alive
  }

  /** In every run, a backend that is alive beside a later one outlasted its own release: while every ending
      ends its process, a restarted backend never coexists with the one it replaces. */
  lemma NeverCoexist(events: seq<Event>, p: nat, q: nat)
    requires Run(events).Some? && p < q < |Run(events).value.processes|
    requires LiveBackend(Run(events).value, p) && LiveBackend(Run(events).value, q)
    ensures var w := Run(events).value;
            && w.processes[p].scope < w.processes[q].scope < |w.scopes|
            && w.scopes[w.processes[p].scope].status == Closed
            && Ending(p, w.processes[p]) in w.scopes[w.processes[p].scope].failed
  {
    EveryRun(events);
    var w := Run(events).value;
    assert Kept(w, p) && Kept(w, q) && Tidy(w, w.processes[p].scope);
    ClosedProcess(p, w.processes[p], w.scopes[w.processes[p].scope]);
  }

  // ---- What is possible in every run -------------------------------------------------------------------------

  /** One more event of a run. */
  lemma Step(events: seq<Event>, w: World, e: Event) returns (next: World)
    requires Run(events) == Some(w) && Enabled(w, e)
    ensures next == Next(w, e) && Run(events + [e]) == Some(next)
  {
    next := Next(w, e);
    assert (events + [e])[..|events|] == events;
  }

  function Spawning(s: nat, supervised: bool, p: nat): seq<Event> {
    [Acquire(s, supervised), AddMark(p), Watch(p)]
  }

  /** In every run a process can be spawned into the open journey scope, and into a booting backend scope that has none
      yet; then it is alive, marked and watched, and its scope holds its three finalizers above the others. */
  lemma SpawnRuns(events: seq<Event>, w: World, s: nat, supervised: bool) returns (all: seq<Event>, last: World)
    requires Run(events) == Some(w) && s < |w.scopes| && w.scopes[0].status == Open && w.scopes[s].status == Open
    requires s == 0 || (w.booting == Some(s) && w.scopes[s].pushed == [])
    ensures var p := |w.processes|;
            && all == events + Spawning(s, supervised, p) && Run(all) == Some(last)
            && last.processes == w.processes + [Process(
                 s, false, supervised, true, false, false, false, true, true, false, None)]
            && last.scopes == w.scopes[s := Grown(w.scopes[s], [Do(Drain, p), Do(Kill, p), Do(MarkStopping, p)])]
            && last == w.(processes := last.processes, scopes := last.scopes)
  {
    var p := |w.processes|;
    var acquired := Step(events, w, Acquire(s, supervised));
    var marked := Step(events + [Acquire(s, supervised)], acquired, AddMark(p));
    last := Step(events + [Acquire(s, supervised)] + [AddMark(p)], marked, Watch(p));
    all := events + [Acquire(s, supervised)] + [AddMark(p)] + [Watch(p)];
    assert all == events + Spawning(s, supervised, p);
    SpawnedScope(w.scopes[s], p);
    assert last.scopes == w.scopes[s := last.scopes[s]];
  }

  lemma SpawnedScope(scope: Scope, p: nat)
    ensures Grown(Grown(scope, [Do(Drain, p), Do(Kill, p)]), [Do(MarkStopping, p)])
         == Grown(scope, [Do(Drain, p), Do(Kill, p), Do(MarkStopping, p)])
  {
    assert [Do(Drain, p), Do(Kill, p)] + [Do(MarkStopping, p)] == [Do(Drain, p), Do(Kill, p), Do(MarkStopping, p)];
  }

  /** A spawned process may crash at once and be reported; supervision fails for it exactly when it is supervised, in
      whichever scope it is. */
  lemma SpawnedCrashReported(events: seq<Event>, w: World, s: nat, supervised: bool)
    returns (all: seq<Event>, last: World)
    requires Run(events) == Some(w) && s < |w.scopes| && w.scopes[0].status == Open && w.scopes[s].status == Open
    requires s == 0 || (w.booting == Some(s) && w.scopes[s].pushed == [])
    ensures var p := |w.processes|;
            && all == events + Spawning(s, supervised, p) + [Crash(p), Report(p)] && Run(all) == Some(last)
            && last.supervision == if w.supervision.None? && supervised then Some(p) else w.supervision
  {
    var p := |w.processes|;
    var before, spawned := SpawnRuns(events, w, s, supervised);
    var crashed := Step(before, spawned, Crash(p));
    last := Step(before + [Crash(p)], crashed, Report(p));
    all := before + [Crash(p)] + [Report(p)];
    assert all == before + [Crash(p), Report(p)];
  }

  /** In every run a cluster can be started in the open journey scope, watched, and given its pool; a crash of it is
      reported and fails supervision. */
  lemma ClusterRuns(events: seq<Event>, w: World) returns (all: seq<Event>, last: World)
    requires Run(events) == Some(w) && w.scopes != [] && w.scopes[0].status == Open
    ensures var p := |w.processes|;
            && all == events + [AcquireCluster, WatchCluster(p), OpenPool(p)] && Run(all) == Some(last)
            && last.processes == w.processes + [Process(
                 0, true, true, true, false, false, false, false, true, true, None)]
            && last.scopes[0] == Grown(w.scopes[0], [Do(StopCluster, p), Do(StopWatcher, p), Do(EndPool, p)])
            && last.supervision == w.supervision
    ensures var p := |w.processes|;
            && Run(all + [Crash(p), Report(p)]).Some?
            && Run(all + [Crash(p), Report(p)]).value.supervision
                 == if w.supervision.None? then Some(p) else w.supervision
  {
    var p := |w.processes|;
    var first := events + [AcquireCluster];
    var started := Step(events, w, AcquireCluster);
    var watched := Step(first, started, WatchCluster(p));
    last := Step(first + [WatchCluster(p)], watched, OpenPool(p));
    all := first + [WatchCluster(p)] + [OpenPool(p)];
    assert all == events + [AcquireCluster, WatchCluster(p), OpenPool(p)];
    ClusterScope(w.scopes[0], p);
    var crashed := Step(all, last, Crash(p));
    var reported := Step(all + [Crash(p)], crashed, Report(p));
    assert all + [Crash(p)] + [Report(p)] == all + [Crash(p), Report(p)];
  }

  lemma ClusterScope(scope: Scope, p: nat)
    ensures Grown(Grown(Grown(scope, [Do(StopCluster, p)]), [Do(StopWatcher, p)]), [Do(EndPool, p)])
         == Grown(scope, [Do(StopCluster, p), Do(StopWatcher, p), Do(EndPool, p)])
  {
    assert [Do(StopCluster, p)] + [Do(StopWatcher, p)] + [Do(EndPool, p)]
        == [Do(StopCluster, p), Do(StopWatcher, p), Do(EndPool, p)];
  }

  /** No boot is under way, none has failed, and the backend there was, if any, has been closed. */
  predicate CanBoot(w: World) {
    && w.scopes != [] && w.scopes[0].status == Open && w.booting.None? && !w.bootFailed
    && (w.backend.Some? ==> w.backend.value < |w.scopes| && w.scopes[w.backend.value].status == Closed)
  }

  /** Whenever no backend is current, one can be booted: in a scope of its own, alive and supervised. */
  lemma BootRuns(events: seq<Event>, w: World) returns (all: seq<Event>, last: World)
    requires Run(events) == Some(w) && CanBoot(w)
    ensures var k, p := |w.scopes|, |w.processes|;
            && all == events + [ForkBackend] + Spawning(k, true, p) + [BootSucceeds] && Run(all) == Some(last)
            && |last.processes| == p + 1 && last.processes[..p] == w.processes
            && last.processes[p].scope == k && last.processes[p].alive && last.processes[p].supervised
            && |last.scopes| == k + 1 && last.scopes[k].status == Open && last.scopes[0].status == Open
            && last.backend == Some(k) && last.booting.None? && !last.bootFailed
            && last.supervision == w.supervision
  {
    var k, p := |w.scopes|, |w.processes|;
    var forked := Step(events, w, ForkBackend);
    assert forked.scopes[k] == EMPTY;
    var before, spawned := SpawnRuns(events + [ForkBackend], forked, k, true);
    last := Step(before, spawned, BootSucceeds);
    all := before + [BootSucceeds];
  }

  /** The newest finalizer of a closing backend scope can always be run, with success. */
  lemma BackendFinalizes(events: seq<Event>, w: World, k: nat) returns (next: World)
    requires Run(events) == Some(w) && 0 < k < |w.scopes| && w.scopes[k].status == Closing && w.scopes[k].stack != []
    ensures Run(events + [RunFinalizer(k, true)]) == Some(next) && Untouched(w, next, k)
    ensures next.scopes[k].status == Closing && next.scopes[k].stack == w.scopes[k].stack[..|w.scopes[k].stack| - 1]
  {
    EveryRun(events);
    assert Tidy(w, k);
    TopPushed(w.scopes[k]);
    assert Registered(w, k, Top(w.scopes[k]));
    next := Step(events, w, RunFinalizer(k, true));
  }

  /** Only scope `k` and its processes may differ, and no process more. */
  ghost predicate Untouched(w: World, next: World, k: nat) {
    && k < |w.scopes| == |next.scopes| && next.scopes == w.scopes[k := next.scopes[k]]
    && |next.processes| == |w.processes|
    && next.backend == w.backend && next.booting == w.booting && next.bootFailed == w.bootFailed
  }

  /** A closing backend scope can be brought to its end. */
  lemma {:induction false} BackendCloses(events: seq<Event>, w: World, k: nat) returns (all: seq<Event>, last: World)
    requires Run(events) == Some(w) && 0 < k < |w.scopes| && w.scopes[k].status == Closing
    ensures Run(all) == Some(last) && Untouched(w, last, k) && last.scopes[k].status == Closed && events <= all
    decreases |w.scopes[k].stack|
  {
    if w.scopes[k].stack == [] {
      last := Step(events, w, FinishClose(k));
      all := events + [FinishClose(k)];
    } else {
      var next := BackendFinalizes(events, w, k);
      all, last := BackendCloses(events + [RunFinalizer(k, true)], next, k);
    }
  }

  /** In every run a current backend can be closed and another booted in its place, in a new scope. */
  lemma RestartRuns(events: seq<Event>, w: World) returns (all: seq<Event>, last: World)
    requires Run(events) == Some(w) && w.scopes != [] && w.scopes[0].status == Open
    requires w.booting.None? && !w.bootFailed && w.backend.Some?
    requires w.backend.value < |w.scopes| && w.scopes[w.backend.value].status == Open
    ensures Run(all) == Some(last) && events <= all
    ensures last.backend == Some(|w.scopes|) && last.booting.None? && !last.bootFailed
    ensures |last.scopes| == |w.scopes| + 1 && last.scopes[w.backend.value].status == Closed
    ensures var p := |w.processes|;
            |last.processes| == p + 1 && last.processes[p].scope == |w.scopes| && last.processes[p].alive
            && last.processes[p].supervised
  {
    EveryRun(events);
    var k := w.backend.value;
    var closing := Step(events, w, BeginClose(k));
    var before, closed := BackendCloses(events + [BeginClose(k)], closing, k);
    all, last := BootRuns(before, closed);
    assert last.scopes[k].status == Closed by {
      EveryRun(all);
      assert Replaced(last);
    }
  }

  /** Whatever happened before, the journey can begin its release at once and be brought to its end. */
  lemma JourneyCanEnd(events: seq<Event>, w: World) returns (all: seq<Event>, closed: World)
    requires Run(events) == Some(w)
    ensures Run(all) == Some(closed) && JourneyClosed(closed)
    ensures events <= all && forall i :: |events| <= i < |all| ==> IsRelease(all[i])
  {
    EveryRun(events);
    if w.scopes[0].status == Open {
      var closing := Step(events, w, BeginClose(0));
      all, closed := ReleaseCompletes(events + [BeginClose(0)], closing);
      assert all[|events|] == BeginClose(0);
    } else {
      all, closed := ReleaseCompletes(events, w);
    }
  }

  // ---- What the events of a run tell -----------------------------------------------------------------------

  /** The next finalizer of this scope is `f`. */
  ghost predicate IsNext(w: World, s: nat, f: Finalizer) {
    s < |w.scopes| && w.scopes[s].stack != [] && Top(w.scopes[s]) == f
  }

  /** Some step ran the finalizer, with this success. */
  ghost predicate Ran(events: seq<Event>, f: Finalizer, ended: bool) {
    events != []
    && var before, e := events[..|events| - 1], events[|events| - 1];
       || Ran(before, f, ended)
       || (e.RunFinalizer? && e.ended == ended && Run(before).Some? && IsNext(Run(before).value, e.s, f))
  }

  ghost predicate RanAtAll(events: seq<Event>, f: Finalizer) { Ran(events, f, true) || Ran(events, f, false) }

  lemma RanNext(events: seq<Event>, w: World, e: Event, f: Finalizer, ended: bool)
    requires Run(events) == Some(w)
    ensures Ran(events + [e], f, ended) <==>
              Ran(events, f, ended) || (e.RunFinalizer? && e.ended == ended && IsNext(w, e.s, f))
  {
    assert (events + [e])[..|events|] == events;
  }

  /** It did not crash, and no release ended it. */
  ghost predicate Lives(events: seq<Event>, p: nat) {
    Crash(p) !in events && !Ran(events, Do(Kill, p), true) && !Ran(events, Do(StopCluster, p), true)
  }

  ghost predicate HasWatcher(events: seq<Event>, p: nat) {
    (Watch(p) in events || WatchCluster(p) in events) && !RanAtAll(events, Do(StopWatcher, p))
  }

  ghost predicate HasPool(events: seq<Event>, p: nat) { OpenPool(p) in events && !Ran(events, Do(EndPool, p), true) }

  ghost predicate IsExpected(events: seq<Event>, p: nat) {
    RanAtAll(events, Do(MarkStopping, p)) || RanAtAll(events, Do(StopCluster, p))
  }

  /** A process is what happened to it. */
  ghost predicate ProcessTold(process: Process, p: nat, events: seq<Event>) {
    && (process.alive <==> Lives(events, p))
    && (process.watched <==> HasWatcher(events, p))
    && (process.poolOpen <==> HasPool(events, p))
    && (process.stopping <==> IsExpected(events, p))
    && PlainlyTold(process, p, events)
  }

  ghost predicate PlainlyTold(process: Process, p: nat, events: seq<Event>) {
    && (process.crashed <==> Crash(p) in events) && (process.marked <==> AddMark(p) in events)
    && (process.seen.Some? <==> Report(p) in events)
    && (if process.cluster then Watch(p) !in events else WatchCluster(p) !in events)
  }

  predicate Acquired(events: seq<Event>, s: nat) { Acquire(s, true) in events || Acquire(s, false) in events }

  ghost predicate ScopeTold(scope: Scope, s: nat, events: seq<Event>) {
    && (scope.status == Open <==> BeginClose(s) !in events)
    && (scope.status == Closed <==> FinishClose(s) in events)
    && (s > 0 ==> (scope.pushed == [] <==> !Acquired(events, s)))
  }

  /** Of the events of boots the last one is a fork. */
  predicate Booting(events: seq<Event>) {
    events != []
    && var last := events[|events| - 1];
       last.ForkBackend? || (!last.BootSucceeds? && !last.BootFails? && Booting(events[..|events| - 1]))
  }

  ghost predicate BootTold(w: World, events: seq<Event>) {
    && (w.booting.Some? <==> Booting(events)) && (w.bootFailed <==> BootFails in events)
    && (w.bootFailed && w.backend.Some? ==> w.backend.value < |w.scopes| - 1)
  }

  /** The event is about a process or a scope that is there. */
  predicate Concerns(e: Event, processes: nat, scopes: nat) {
    match e
    case Acquire(s, _) => s < scopes
    case AddMark(p) => p < processes
    case Watch(p) => p < processes
    case WatchCluster(p) => p < processes
    case OpenPool(p) => p < processes
    case Crash(p) => p < processes
    case Report(p) => p < processes
    case BeginClose(s) => s < scopes
    case RunFinalizer(s, _) => s < scopes
    case FinishClose(s) => s < scopes
    case _ => true
  }

  /** Every event was about something there, and what ran is done. */
  ghost predicate Grounded(w: World, events: seq<Event>) {
    && (forall e :: e in events ==> Concerns(e, |w.processes|, |w.scopes|))
    && (forall f, ended :: Ran(events, f, ended) && f.kind != CloseChild ==>
          f.of < |w.processes| && w.processes[f.of].scope < |w.scopes|
          && f in w.scopes[w.processes[f.of].scope].done)
  }

  ghost predicate Told(w: World, events: seq<Event>) {
    && Grounded(w, events) && BootTold(w, events)
    && (forall p :: 0 <= p < |w.processes| ==> ProcessTold(w.processes[p], p, events))
    && (forall s :: 0 <= s < |w.scopes| ==> ScopeTold(w.scopes[s], s, events))
  }

  lemma EnabledConcerns(w: World, e: Event)
    requires Enabled(w, e)
    ensures Concerns(e, |w.processes|, |w.scopes|)
  {}

  lemma DoneStays(w: World, e: Event, s: nat)
    requires Enabled(w, e) && s < |w.scopes|
    ensures s < |Next(w, e).scopes|
    ensures forall f :: f in w.scopes[s].done ==> f in Next(w, e).scopes[s].done
  {
    ScopeStep(w, e, s);
  }

  lemma StepGrounded(w: World, events: seq<Event>, e: Event)
    requires Run(events) == Some(w) && Inv(w) && Grounded(w, events) && Enabled(w, e)
    ensures Grounded(Next(w, e), events + [e])
  {
    var next := Next(w, e);
    EnabledConcerns(w, e);
    ProcessesExtend(w, e);
    forall f, ended | Ran(events + [e], f, ended) && f.kind != CloseChild
      ensures f.of < |next.processes| && next.processes[f.of].scope < |next.scopes|
              && f in next.scopes[next.processes[f.of].scope].done
    {
      RanNext(events, w, e, f, ended);
      if Ran(events, f, ended) {
        DoneStays(w, e, w.processes[f.of].scope);
      } else {
        assert Tidy(w, e.s);
        TopPushed(w.scopes[e.s]);
        assert Registered(w, e.s, f);
        ScopeStep(w, e, e.s);
      }
    }
  }

  lemma OpenRanNothing(w: World, events: seq<Event>, p: nat, kind: Kind)
    requires Inv(w) && Grounded(w, events) && p < |w.processes| && kind != CloseChild
    requires w.processes[p].scope < |w.scopes| && w.scopes[w.processes[p].scope].status == Open
    ensures !RanAtAll(events, Do(kind, p))
  {
    assert Tidy(w, w.processes[p].scope);
  }

  lemma NothingToldYet(w: World, events: seq<Event>, p: nat, process: Process)
    requires Grounded(w, events) && p >= |w.processes|
    requires process.alive && !process.crashed && !process.marked && !process.watched && !process.poolOpen
    requires !process.stopping && process.seen.None?
    ensures ProcessTold(process, p, events)
  {
    assert !Concerns(Crash(p), |w.processes|, |w.scopes|) && !Concerns(AddMark(p), |w.processes|, |w.scopes|);
    assert !Concerns(Watch(p), |w.processes|, |w.scopes|) && !Concerns(WatchCluster(p), |w.processes|, |w.scopes|);
    assert !Concerns(OpenPool(p), |w.processes|, |w.scopes|) && !Concerns(Report(p), |w.processes|, |w.scopes|);
  }

  /** What a step that runs no finalizer does to process `p`. */
  function Plainly(e: Event, p: nat, process: Process): Process {
    match e
    case AddMark(q) => if q == p then process.(marked := true) else process
    case Watch(q) => if q == p then process.(watched := true) else process
    case WatchCluster(q) => if q == p then process.(watched := true) else process
    case OpenPool(q) => if q == p then process.(poolOpen := true) else process
    case Crash(q) => if q == p then process.(alive := false, crashed := true) else process
    case Report(q) => if q == p then process.(seen := Some(process.stopping && !process.cluster)) else process
    case _ => process
  }

  /** What a step does to process `p`. */
  lemma StepShape(w: World, e: Event, p: nat)
    requires Enabled(w, e) && p < |w.processes|
    ensures p < |Next(w, e).processes|
    ensures Next(w, e).processes[p]
         == if e.RunFinalizer? then Touched(Top(w.scopes[e.s]), e.ended, p, w.processes[p])
            else Plainly(e, p, w.processes[p])
  {
    if e.RunFinalizer? { ReleaseShape(w, e.s, e.ended, p); }
  }

  /** The step runs this finalizer of process `p`. */
  ghost predicate Runs(w: World, e: Event, kind: Kind, p: nat) { e.RunFinalizer? && IsNext(w, e.s, Do(kind, p)) }

  lemma LivesNext(events: seq<Event>, w: World, e: Event, p: nat)
    requires Run(events) == Some(w)
    ensures Lives(events + [e], p) <==>
              Lives(events, p) && e != Crash(p)
              && !(e.RunFinalizer? && e.ended && (Runs(w, e, Kill, p) || Runs(w, e, StopCluster, p)))
  {
    RanNext(events, w, e, Do(Kill, p), true);
    RanNext(events, w, e, Do(StopCluster, p), true);
  }

  lemma WatcherNext(events: seq<Event>, w: World, e: Event, p: nat)
    requires Run(events) == Some(w)
    requires e == Watch(p) || e == WatchCluster(p) ==> !RanAtAll(events, Do(StopWatcher, p))
    ensures HasWatcher(events + [e], p) <==>
              (HasWatcher(events, p) || e == Watch(p) || e == WatchCluster(p)) && !Runs(w, e, StopWatcher, p)
  {
    RanNext(events, w, e, Do(StopWatcher, p), true);
    RanNext(events, w, e, Do(StopWatcher, p), false);
  }

  lemma PoolNext(events: seq<Event>, w: World, e: Event, p: nat)
    requires Run(events) == Some(w) && (e == OpenPool(p) ==> !Ran(events, Do(EndPool, p), true))
    ensures HasPool(events + [e], p) <==>
              (HasPool(events, p) || e == OpenPool(p)) && !(e.RunFinalizer? && e.ended && Runs(w, e, EndPool, p))
  {
    RanNext(events, w, e, Do(EndPool, p), true);
  }

  lemma ExpectedNext(events: seq<Event>, w: World, e: Event, p: nat)
    requires Run(events) == Some(w)
    ensures IsExpected(events + [e], p) <==>
              IsExpected(events, p) || Runs(w, e, MarkStopping, p) || Runs(w, e, StopCluster, p)
  {
    RanNext(events, w, e, Do(MarkStopping, p), true);
    RanNext(events, w, e, Do(MarkStopping, p), false);
    RanNext(events, w, e, Do(StopCluster, p), true);
    RanNext(events, w, e, Do(StopCluster, p), false);
  }

  lemma AliveShape(w: World, e: Event, p: nat)
    requires Enabled(w, e) && p < |w.processes|
    ensures p < |Next(w, e).processes|
    ensures Next(w, e).processes[p].alive <==>
              w.processes[p].alive && e != Crash(p)
              && !(e.RunFinalizer? && e.ended && (Runs(w, e, Kill, p) || Runs(w, e, StopCluster, p)))
    ensures Next(w, e).processes[p].stopping <==>
              w.processes[p].stopping || Runs(w, e, MarkStopping, p) || Runs(w, e, StopCluster, p)
  {
    StepShape(w, e, p);
  }

  lemma WatchedShape(w: World, e: Event, p: nat)
    requires Enabled(w, e) && p < |w.processes|
    ensures p < |Next(w, e).processes|
    ensures Next(w, e).processes[p].watched <==>
              (w.processes[p].watched || e == Watch(p) || e == WatchCluster(p)) && !Runs(w, e, StopWatcher, p)
    ensures Next(w, e).processes[p].poolOpen <==>
              (w.processes[p].poolOpen || e == OpenPool(p))
              && !(e.RunFinalizer? && e.ended && Runs(w, e, EndPool, p))
  {
    StepShape(w, e, p);
  }

  lemma StepPlainly(w: World, events: seq<Event>, e: Event, p: nat)
    requires Enabled(w, e) && p < |w.processes| && PlainlyTold(w.processes[p], p, events)
    requires w.processes[p].marked ==> !w.processes[p].cluster
    ensures p < |Next(w, e).processes| && PlainlyTold(Next(w, e).processes[p], p, events + [e])
  {
    StepShape(w, e, p);
  }

  lemma OldTold(w: World, events: seq<Event>, e: Event, p: nat)
    requires Run(events) == Some(w) && Inv(w) && Grounded(w, events) && Enabled(w, e)
    requires p < |w.processes| && ProcessTold(w.processes[p], p, events)
    ensures p < |Next(w, e).processes| && ProcessTold(Next(w, e).processes[p], p, events + [e])
  {
    assert Kept(w, p);
    if w.scopes[w.processes[p].scope].status == Open {
      OpenRanNothing(w, events, p, StopWatcher);
      OpenRanNothing(w, events, p, EndPool);
    }
    AliveShape(w, e, p);
    WatchedShape(w, e, p);
    LivesNext(events, w, e, p);
    WatcherNext(events, w, e, p);
    PoolNext(events, w, e, p);
    ExpectedNext(events, w, e, p);
    StepPlainly(w, events, e, p);
  }

  lemma StepProcessTold(w: World, events: seq<Event>, e: Event, p: nat)
    requires Run(events) == Some(w) && Inv(w) && Told(w, events) && Enabled(w, e) && p < |Next(w, e).processes|
    ensures ProcessTold(Next(w, e).processes[p], p, events + [e])
  {
    OneMore(w, e);
    if p < |w.processes| { OldTold(w, events, e, p); } else { NewTold(w, events, e, p); }
  }

  lemma NewTold(w: World, events: seq<Event>, e: Event, p: nat)
    requires Run(events) == Some(w) && Grounded(w, events) && (e.Acquire? || e.AcquireCluster?) && Enabled(w, e)
    requires |w.processes| <= p < |Next(w, e).processes|
    ensures ProcessTold(Next(w, e).processes[p], p, events + [e])
  {
    OneMore(w, e);
    NothingToldYet(w, events, p, Next(w, e).processes[p]);
    forall f, ended ensures Ran(events + [e], f, ended) <==> Ran(events, f, ended) {
      RanNext(events, w, e, f, ended);
    }
  }

  lemma NewScopeTold(w: World, events: seq<Event>, e: Event, s: nat)
    requires Grounded(w, events) && Enabled(w, e) && |w.scopes| <= s < |Next(w, e).scopes|
    ensures ScopeTold(Next(w, e).scopes[s], s, events + [e])
  {
    var n, k := |w.processes|, |w.scopes|;
    assert !Concerns(BeginClose(s), n, k) && !Concerns(FinishClose(s), n, k);
    assert !Concerns(Acquire(s, true), n, k) && !Concerns(Acquire(s, false), n, k);
  }

  lemma OldScopeTold(w: World, events: seq<Event>, e: Event, s: nat)
    requires Inv(w) && Enabled(w, e) && s < |w.scopes| && ScopeTold(w.scopes[s], s, events)
    ensures s < |Next(w, e).scopes| && ScopeTold(Next(w, e).scopes[s], s, events + [e])
  {
    ScopeStep(w, e, s);
    if s > 0 { PushesTold(w, e, s); }
  }

  /** Into an empty backend scope only an acquisition adds. */
  lemma PushesTold(w: World, e: Event, s: nat)
    requires Inv(w) && Enabled(w, e) && 0 < s < |w.scopes|
    ensures w.scopes[s].pushed == [] ==> (Added(w, e, s) != [] <==> e.Acquire? && e.s == s)
  {
    if w.scopes[s].pushed == [] {
      forall p | 0 <= p < |w.processes| ensures w.processes[p].scope != s { assert Kept(w, p); }
    }
  }

  lemma StepBootTold(w: World, events: seq<Event>, e: Event)
    requires Inv(w) && BootTold(w, events) && Enabled(w, e)
    ensures BootTold(Next(w, e), events + [e])
  {
    assert (events + [e])[..|events|] == events;
  }

  lemma StepTold(w: World, events: seq<Event>, e: Event)
    requires Run(events) == Some(w) && Inv(w) && Told(w, events) && Enabled(w, e)
    ensures Told(Next(w, e), events + [e])
  {
    var next := Next(w, e);
    StepGrounded(w, events, e);
    StepBootTold(w, events, e);
    forall p | 0 <= p < |next.processes| ensures ProcessTold(next.processes[p], p, events + [e]) {
      StepProcessTold(w, events, e, p);
    }
    forall s | 0 <= s < |next.scopes| ensures ScopeTold(next.scopes[s], s, events + [e]) {
      if s < |w.scopes| { OldScopeTold(w, events, e, s); } else { NewScopeTold(w, events, e, s); }
    }
  }

  lemma StartTold()
    ensures Told(Start(), [])
  {}

  /** In every run each process and each scope is what the events did to it. */
  lemma {:induction false} EveryRunTold(events: seq<Event>)
    requires Run(events).Some?
    ensures Told(Run(events).value, events)
  {
    if events == [] {
      StartTold();
    } else {
      var before, e := events[..|events| - 1], events[|events| - 1];
      EveryRunTold(before);
      EveryRun(before);
      StepTold(Run(before).value, before, e);
      assert events == before + [e];
    }
  }

  ghost predicate OpenScope(w: World, events: seq<Event>, s: nat) { s < |w.scopes| && BeginClose(s) !in events }

  ghost predicate ClosingScope(w: World, events: seq<Event>, s: nat) {
    s < |w.scopes| && BeginClose(s) in events && FinishClose(s) !in events
  }

  /** What the finalizer releases is still there and may outlast it. */
  ghost predicate MayOutlast(events: seq<Event>, f: Finalizer) {
    if f.kind == EndPool then HasPool(events, f.of)
    else (f.kind == Kill || f.kind == StopCluster) && Lives(events, f.of)
  }

  /** The events may be followed by this one about a process: it is marked, then watched while its scope is open; it
      may crash whenever it is alive, and its watcher reports once that it is gone. */
  ghost predicate ProcessEventPossible(w: World, events: seq<Event>, e: Event, p: nat) {
    p < |w.processes|
    && var process := w.processes[p];
       match e
       case AddMark(_) =>
         && !process.cluster && AddMark(p) !in events
         && OpenScope(w, events, process.scope) && OpenScope(w, events, 0)
       case Watch(_) =>
         && AddMark(p) in events && Watch(p) !in events
         && OpenScope(w, events, process.scope) && OpenScope(w, events, 0)
       case WatchCluster(_) =>
         process.cluster && WatchCluster(p) !in events && OpenScope(w, events, process.scope)
       case OpenPool(_) =>
         && process.cluster && WatchCluster(p) in events && OpenPool(p) !in events
         && OpenScope(w, events, process.scope)
       case Crash(_) => Lives(events, p)
       case Report(_) => HasWatcher(events, p) && !Lives(events, p) && Report(p) !in events
       case _ => false
  }

  /** The newest backend scope is current when its boot, the last one, succeeded. */
  ghost predicate Current(w: World, events: seq<Event>, s: nat) {
    s == |w.scopes| - 1 && !Booting(events) && BootFails !in events
  }

  /** The events may be followed by this one. A scope closes when the journey ends, when its backend is replaced, or
      when the closing journey scope has reached it; then its finalizers run, newest first, that of a child after the
      child has closed, and each may fail to end what is still there. Backends boot one after the other until a boot
      fails. */
  ghost predicate Possible(w: World, events: seq<Event>, e: Event) {
    match e
    case Acquire(s, _) =>
      && OpenScope(w, events, s) && OpenScope(w, events, 0)
      && (s > 0 ==> Booting(events) && s == |w.scopes| - 1 && !Acquired(events, s))
    case AcquireCluster => OpenScope(w, events, 0)
    case AddMark(p) => ProcessEventPossible(w, events, e, p)
    case Watch(p) => ProcessEventPossible(w, events, e, p)
    case WatchCluster(p) => ProcessEventPossible(w, events, e, p)
    case OpenPool(p) => ProcessEventPossible(w, events, e, p)
    case Crash(p) => ProcessEventPossible(w, events, e, p)
    case Report(p) => ProcessEventPossible(w, events, e, p)
    case BeginClose(s) =>
      && OpenScope(w, events, s)
      && (s > 0 ==>
            || (OpenScope(w, events, 0) && Current(w, events, s))
            || (ClosingScope(w, events, 0) && IsNext(w, 0, Do(CloseChild, s))))
    case RunFinalizer(s, ended) =>
      && ClosingScope(w, events, s) && w.scopes[s].stack != []
      && (Top(w.scopes[s]).kind == CloseChild ==> FinishClose(Top(w.scopes[s]).of) in events)
      && (!ended ==> MayOutlast(events, Top(w.scopes[s])))
    case FinishClose(s) => ClosingScope(w, events, s) && w.scopes[s].stack == []
    case ForkBackend =>
      && OpenScope(w, events, 0) && !Booting(events) && BootFails !in events
      && (|w.scopes| > 1 ==> FinishClose(|w.scopes| - 1) in events)
    case BootSucceeds => Booting(events)
    case BootFails => Booting(events)
  }

  lemma ScopesSay(w: World, events: seq<Event>, s: nat)
    requires Told(w, events)
    ensures Usable(w, s) <==> OpenScope(w, events, s)
    ensures s < |w.scopes| ==> (w.scopes[s].status == Closing <==> ClosingScope(w, events, s))
    ensures s < |w.scopes| ==> (w.scopes[s].status == Closed <==> FinishClose(s) in events)
  {
    if s < |w.scopes| { assert ScopeTold(w.scopes[s], s, events); }
  }

  lemma ProcessEventExactly(w: World, events: seq<Event>, e: Event, p: nat)
    requires Inv(w) && Told(w, events)
    requires e in {AddMark(p), Watch(p), WatchCluster(p), OpenPool(p), Crash(p), Report(p)}
    ensures Enabled(w, e) <==> ProcessEventPossible(w, events, e, p)
  {
    ScopesSay(w, events, 0);
    if p < |w.processes| {
      ScopesSay(w, events, w.processes[p].scope);
      assert Kept(w, p) && ProcessTold(w.processes[p], p, events);
      if Usable(w, w.processes[p].scope) {
        OpenRanNothing(w, events, p, StopWatcher);
        OpenRanNothing(w, events, p, EndPool);
      }
    }
  }

  lemma TopRegistered(w: World, s: nat)
    requires Inv(w) && s < |w.scopes| && w.scopes[s].stack != []
    ensures Registered(w, s, Top(w.scopes[s]))
  {
    assert Tidy(w, s);
    TopPushed(w.scopes[s]);
  }

  lemma RunFinalizerExactly(w: World, events: seq<Event>, s: nat, ended: bool)
    requires Inv(w) && Told(w, events)
    ensures Enabled(w, RunFinalizer(s, ended)) <==> Possible(w, events, RunFinalizer(s, ended))
  {
    ScopesSay(w, events, s);
    if s < |w.scopes| && w.scopes[s].stack != [] {
      var f := Top(w.scopes[s]);
      TopRegistered(w, s);
      if f.kind == CloseChild {
        ScopesSay(w, events, f.of);
      } else {
        assert ProcessTold(w.processes[f.of], f.of, events);
      }
    }
  }

  lemma ScopeEventExactly(w: World, events: seq<Event>, e: Event)
    requires Inv(w) && Told(w, events)
    requires e.Acquire? || e.AcquireCluster? || e.BeginClose? || e.FinishClose?
    ensures Enabled(w, e) <==> Possible(w, events, e)
  {
    ScopesSay(w, events, 0);
    if !e.AcquireCluster? {
      ScopesSay(w, events, e.s);
      if e.s < |w.scopes| { assert ScopeTold(w.scopes[e.s], e.s, events); }
    }
  }

  lemma BootEventExactly(w: World, events: seq<Event>, e: Event)
    requires Inv(w) && Told(w, events) && (e.ForkBackend? || e.BootSucceeds? || e.BootFails?)
    ensures Enabled(w, e) <==> Possible(w, events, e)
  {
    ScopesSay(w, events, 0);
    ScopesSay(w, events, |w.scopes| - 1);
  }

  lemma EnabledExactly(w: World, events: seq<Event>, e: Event)
    requires Inv(w) && Told(w, events)
    ensures Enabled(w, e) <==> Possible(w, events, e)
  {
    match e
    case RunFinalizer(s, ended) => RunFinalizerExactly(w, events, s, ended);
    case AddMark(p) => ProcessEventExactly(w, events, e, p);
    case Watch(p) => ProcessEventExactly(w, events, e, p);
    case WatchCluster(p) => ProcessEventExactly(w, events, e, p);
    case OpenPool(p) => ProcessEventExactly(w, events, e, p);
    case Crash(p) => ProcessEventExactly(w, events, e, p);
    case Report(p) => ProcessEventExactly(w, events, e, p);
    case Acquire(_, _) => ScopeEventExactly(w, events, e);
    case AcquireCluster => ScopeEventExactly(w, events, e);
    case BeginClose(_) => ScopeEventExactly(w, events, e);
    case FinishClose(_) => ScopeEventExactly(w, events, e);
    case ForkBackend => BootEventExactly(w, events, e);
    case BootSucceeds => BootEventExactly(w, events, e);
    case BootFails => BootEventExactly(w, events, e);
  }

  /** A run goes on with exactly the events that are possible after those it had. */
  lemma GoesOnExactly(events: seq<Event>, e: Event)
    requires Run(events).Some?
    ensures Run(events + [e]).Some? <==> Possible(Run(events).value, events, e)
  {
    EveryRun(events);
    EveryRunTold(events);
    EnabledExactly(Run(events).value, events, e);
    assert (events + [e])[..|events|] == events;
  }

  // ---- Runs that show the conditions are needed --------------------------------------------------------------

  /** A run whose cluster was stopped under a pool whose end timed out. */
  lemma TimedOutPoolStaysOpen() returns (events: seq<Event>, w: World)
    ensures Run(events) == Some(w) && |w.processes| == 1 && w.processes[0].poolOpen && !w.processes[0].alive
    ensures w.processes[0].scope < |w.scopes| && Do(StopCluster, 0) in w.scopes[w.processes[0].scope].done
  {
    var w1 := Step([], Start(), AcquireCluster);
    var w2 := Step([AcquireCluster], w1, WatchCluster(0));
    var e2 := [AcquireCluster] + [WatchCluster(0)];
    var w3 := Step(e2, w2, OpenPool(0));
    assert w3.scopes[0].stack == [Do(StopCluster, 0), Do(StopWatcher, 0), Do(EndPool, 0)];
    events, w := ClosePoolLate(e2 + [OpenPool(0)], w3);
  }

  /** The journey scope begins to close, and the end of the pool times out. */
  lemma PoolTimesOut(events: seq<Event>, w: World) returns (all: seq<Event>, last: World)
    requires Run(events) == Some(w) && |w.scopes| == 1 && w.scopes[0].status == Open
    requires w.scopes[0].stack == [Do(StopCluster, 0), Do(StopWatcher, 0), Do(EndPool, 0)]
    requires |w.processes| == 1 && w.processes[0].scope == 0 && w.processes[0].poolOpen && w.processes[0].alive
    ensures Run(all) == Some(last) && |last.scopes| == 1 && last.scopes[0].status == Closing
    ensures last.scopes[0].stack == [Do(StopCluster, 0), Do(StopWatcher, 0)] && last.processes == w.processes
  {
    var closing := Step(events, w, BeginClose(0));
    assert Top(closing.scopes[0]) == Do(EndPool, 0);
    last := Step(events + [BeginClose(0)], closing, RunFinalizer(0, false));
    all := events + [BeginClose(0)] + [RunFinalizer(0, false)];
  }

  lemma WatcherStops(events: seq<Event>, w: World) returns (all: seq<Event>, last: World)
    requires Run(events) == Some(w) && |w.scopes| == 1 && w.scopes[0].status == Closing
    requires w.scopes[0].stack == [Do(StopCluster, 0), Do(StopWatcher, 0)]
    requires |w.processes| == 1 && w.processes[0].scope == 0 && w.processes[0].poolOpen && w.processes[0].alive
    ensures Run(all) == Some(last) && |last.scopes| == 1 && last.scopes[0].status == Closing
    ensures last.scopes[0].stack == [Do(StopCluster, 0)]
    ensures |last.processes| == 1 && last.processes[0].scope == 0 && last.processes[0].poolOpen
            && last.processes[0].alive
  {
    last := Step(events, w, RunFinalizer(0, true));
    all := events + [RunFinalizer(0, true)];
  }

  lemma ClosePoolLate(events: seq<Event>, w: World) returns (all: seq<Event>, last: World)
    requires Run(events) == Some(w) && |w.scopes| == 1 && w.scopes[0].status == Open
    requires w.scopes[0].stack == [Do(StopCluster, 0), Do(StopWatcher, 0), Do(EndPool, 0)]
    requires |w.processes| == 1 && w.processes[0].scope == 0 && w.processes[0].poolOpen && w.processes[0].alive
    ensures Run(all) == Some(last) && |last.processes| == 1 && last.processes[0].poolOpen && !last.processes[0].alive
    ensures last.processes[0].scope == 0 < |last.scopes| && Do(StopCluster, 0) in last.scopes[0].done
  {
    var before, late := PoolTimesOut(events, w);
    before, late := WatcherStops(before, late);
    last := Step(before, late, RunFinalizer(0, true));
    all := before + [RunFinalizer(0, true)];
  }

  /** One supervised process is in place and crashes before any release began. */
  lemma CrashReached() returns (events: seq<Event>, w: World)
    ensures Run(events) == Some(w) && w.supervision.None? && |w.scopes| == 1 && w.scopes[0].status == Open
    ensures |w.processes| == 1 && var process := w.processes[0];
            && process.scope == 0 && process.supervised && !process.cluster && process.watched
            && process.crashed && !process.alive && !process.stopping && process.seen.None?
    ensures w.scopes[0].stack == [Do(Drain, 0), Do(Kill, 0), Do(MarkStopping, 0)]
  {
    var w1 := Step([], Start(), Acquire(0, true));
    var e1 := [] + [Acquire(0, true)];
    var w2 := Step(e1, w1, AddMark(0));
    var e2 := e1 + [AddMark(0)];
    assert w2.scopes[0].stack == [Do(Drain, 0), Do(Kill, 0), Do(MarkStopping, 0)];
    var w3 := Step(e2, w2, Watch(0));
    events := e2 + [Watch(0)] + [Crash(0)];
    w := Step(e2 + [Watch(0)], w3, Crash(0));
  }

  /** When the release of the journey begins before the watcher ran, the crash is taken for its work. */
  lemma LateWatcherMissesCrash() returns (events: seq<Event>, w: World)
    ensures Run(events) == Some(w) && w.supervision.None?
    ensures |w.processes| == 1 && w.processes[0].supervised && w.processes[0].crashed && w.processes[0].seen.Some?
  {
    var e4, w4 := CrashReached();
    var w5 := Step(e4, w4, BeginClose(0));
    var e5 := e4 + [BeginClose(0)];
    assert Top(w5.scopes[0]) == Do(MarkStopping, 0);
    var w6 := Step(e5, w5, RunFinalizer(0, true));
    var e6 := e5 + [RunFinalizer(0, true)];
    w := Step(e6, w6, Report(0));
    events := e6 + [Report(0)];
  }

  /** When the watcher runs first, it fails supervision. */
  lemma PromptWatcherFindsCrash() returns (events: seq<Event>, w: World)
    ensures Run(events) == Some(w) && w.supervision == Some(0)
  {
    var e4, w4 := CrashReached();
    w := Step(e4, w4, Report(0));
    events := e4 + [Report(0)];
  }
}
