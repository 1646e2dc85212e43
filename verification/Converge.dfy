/** Applying and persisting compiled HTTP routes: the tail of `onServicesChanged`, the
    restore part of `Provision` (consul.go) and the state manager (state.go). */
module Converge {
  import opened Prelude
  import opened Types

  // ----- What is serialized ---------------------------------------------------

  /** A route as it is written to disk and hashed: without the no-cache matcher. */
  function Serialized(r: HTTPRoute): HTTPRoute { r.(noCacheMatcher := None) }

  function View(routes: seq<HTTPRoute>): seq<HTTPRoute> { Image(routes, Serialized) }

  /** Two tables are serialized alike exactly if they agree on everything but the matchers. */
  lemma ViewExactly(a: seq<HTTPRoute>, b: seq<HTTPRoute>)
    ensures View(a) == View(b) <==>
            |a| == |b| && forall i | 0 <= i < |a| ::
              && a[i].host == b[i].host && a[i].path == b[i].path && a[i].upstreams == b[i].upstreams
              && a[i].stripPrefix == b[i].stripPrefix && a[i].serviceName == b[i].serviceName && a[i].via == b[i].via
              && a[i].redirectCode == b[i].redirectCode && a[i].redirectURL == b[i].redirectURL
              && a[i].redirectNoCache == b[i].redirectNoCache && a[i].noCacheOptOut == b[i].noCacheOptOut
              && a[i].tagValues == b[i].tagValues
  {
    if View(a) == View(b) {
      assert |a| == |View(a)| == |b|;
      assert forall i | 0 <= i < |a| :: Serialized(a[i]) == View(a)[i] == View(b)[i] == Serialized(b[i]);
    }
  }

  /** `hashRoutes`. */
  type Digest = seq<HTTPRoute> -> string

  /** SHA-256 taken to be free of collisions on serialized routes; never empty. */
  ghost predicate CollisionFree(digest: Digest) {
    && (forall a, b :: digest(a) == digest(b) <==> View(a) == View(b))
    && (forall a :: digest(a) != "")
  }

  /** The state file: absent, unreadable, or the saved hash and routes. */
  datatype Disk = Missing | Corrupt | Stored(hash: string, routes: seq<HTTPRoute>)

  // ----- The system as steps --------------------------------------------------

  /** A running instance: the live route table and the state manager's fields. `pending`
      is the configuration applied to the table and not yet persisted. */
  datatype App = App(live: seq<HTTPRoute>, hash: string, routes: seq<HTTPRoute>, pending: Option<seq<HTTPRoute>>)

  datatype System = System(app: Option<App>, disk: Disk)

  datatype SaveOutcome = Written | NotWritten | Torn

  datatype Step =
    | Restore                       // a fresh instance loads the state file
    | Apply(compiled: seq<HTTPRoute>)
    | Persist(outcome: SaveOutcome)
    | Crash

  function Loaded(disk: Disk): App {
    match disk
    case Stored(hash, routes) => App(routes, hash, routes, None)
    case _ => App([], "", [], None)
  }

  /** Skip the table when the hash is unchanged. */
  function Applied(digest: Digest, a: App, compiled: seq<HTTPRoute>): App {
    if digest(compiled) != a.hash then App(compiled, digest(compiled), a.routes, Some(compiled))
    else a.(pending := Some(compiled))
  }

  function Saved(a: App, disk: Disk, outcome: SaveOutcome): Disk {
    match outcome
    case Written => Stored(a.hash, View(a.routes))
    case NotWritten => disk
    case Torn => Corrupt
  }

  predicate Enabled(s: System, step: Step) {
    match step
    case Restore => true
    case Apply(_) => s.app.Some? && s.app.value.pending.None?
    case Persist(_) => s.app.Some? && s.app.value.pending.Some?
    case Crash => true
  }

  function Next(digest: Digest, s: System, step: Step): System
    requires Enabled(s, step)
  {
    match step
    case Restore => System(Some(Loaded(s.disk)), s.disk)
    case Apply(compiled) => System(Some(Applied(digest, s.app.value, compiled)), s.disk)
    case Persist(outcome) =>
      var a := s.app.value.(routes := s.app.value.pending.value, pending := None);
      System(Some(a), Saved(a, s.disk, outcome))
    case Crash => System(None, s.disk)
  }

  predicate Runs(digest: Digest, s: System, steps: seq<Step>)
    decreases |steps|
  {
    steps == [] || (Enabled(s, steps[0]) && Runs(digest, Next(digest, s, steps[0]), steps[1..]))
  }

  function Exec(digest: Digest, s: System, steps: seq<Step>): System
    requires Runs(digest, s, steps)
    decreases |steps|
  {
    if steps == [] then s else Exec(digest, Next(digest, s, steps[0]), steps[1..])
  }

  // ----- The skip is invisible -------------------------------------------------

  /** Hash and live table speak of the same serialized routes; without a hash, of none. */
  ghost predicate AppInv(digest: Digest, a: App) {
    && (if a.hash == "" then a.live == [] else a.hash == digest(a.live))
    && (a.pending.Some? ==> a.hash == digest(a.pending.value))
  }

  /** What is stored is hashed as it is stored, without matchers. */
  ghost predicate DiskInv(digest: Digest, d: Disk) {
    d.Stored? ==> d.hash == digest(d.routes) && View(d.routes) == d.routes
  }

  ghost predicate Inv(digest: Digest, s: System) {
    DiskInv(digest, s.disk) && (s.app.Some? ==> AppInv(digest, s.app.value))
  }

  lemma ViewIdempotent(routes: seq<HTTPRoute>)
    ensures View(View(routes)) == View(routes)
  {
  }

  lemma StepKeepsInv(digest: Digest, s: System, step: Step)
    requires CollisionFree(digest) && Inv(digest, s) && Enabled(s, step)
    ensures Inv(digest, Next(digest, s, step))
  {
    hide View;
    if step.Persist? { ViewIdempotent(s.app.value.pending.value); }
  }

  lemma {:induction false} RunKeepsInv(digest: Digest, s: System, steps: seq<Step>)
    requires CollisionFree(digest) && Inv(digest, s) && Runs(digest, s, steps)
    ensures Inv(digest, Exec(digest, s, steps))
    decreases |steps|
  {
    if steps != [] {
      StepKeepsInv(digest, s, steps[0]);
      RunKeepsInv(digest, Next(digest, s, steps[0]), steps[1..]);
    }
  }

  /** Over every run of converges, saves that fail or tear the file, crashes and restores:
      the stored hash is the hash of the stored routes, and right after a converge has
      been applied, skipped or not, the live table equals the newest compiled routes on
      every serialized field. */
  lemma SkipIsInvisible(digest: Digest, steps: seq<Step>, compiled: seq<HTTPRoute>)
    requires CollisionFree(digest) && Runs(digest, System(None, Missing), steps)
    ensures var s := Exec(digest, System(None, Missing), steps);
            && DiskInv(digest, s.disk)
            && (Enabled(s, Apply(compiled)) ==>
                  View(Next(digest, s, Apply(compiled)).app.value.live) == View(compiled))
  {
    hide View;
    RunKeepsInv(digest, System(None, Missing), steps);
  }

  // ----- Which table is live, matcher included -----------------------------------

  /** A restart, or a converge with another serialized view than the live table's. */
  predicate SetsTable(s: System, step: Step) {
    && Enabled(s, step)
    && (step.Restore? || (step.Apply? && (s.app.value.hash == "" || View(step.compiled) != View(s.app.value.live))))
  }

  /** The table such a step puts in place. */
  function TableSet(s: System, step: Step): seq<HTTPRoute> {
    match step
    case Apply(compiled) => compiled
    case _ => if s.disk.Stored? then s.disk.routes else []
  }

  /** A step of an instance that goes on with the same serialized view. */
  predicate Quiet(step: Step, view: seq<HTTPRoute>) {
    step.Persist? || (step.Apply? && View(step.compiled) == view)
  }

  ghost predicate AllQuiet(steps: seq<Step>, view: seq<HTTPRoute>) {
    forall i | 0 <= i < |steps| :: Quiet(steps[i], view)
  }

  ghost predicate Lives(s: System, table: seq<HTTPRoute>) { s.app.Some? && s.app.value.live == table }

  lemma StepSetsTable(digest: Digest, s: System, step: Step)
    requires CollisionFree(digest) && Inv(digest, s) && SetsTable(s, step)
    ensures Lives(Next(digest, s, step), TableSet(s, step))
  {
    hide View;
  }

  lemma QuietStepKeepsTable(digest: Digest, s: System, step: Step, table: seq<HTTPRoute>)
    requires CollisionFree(digest) && Inv(digest, s) && Lives(s, table) && Enabled(s, step) && Quiet(step, View(table))
    ensures Lives(Next(digest, s, step), table)
  {
    if step.Apply? && s.app.value.hash == "" {
      assert View(step.compiled) == [] && step.compiled == [];
    }
    hide View;
  }

  lemma {:induction false} QuietRunKeepsTable(digest: Digest, s: System, steps: seq<Step>, table: seq<HTTPRoute>)
    requires CollisionFree(digest) && Inv(digest, s) && Lives(s, table)
    requires Runs(digest, s, steps) && AllQuiet(steps, View(table))
    ensures Lives(Exec(digest, s, steps), table)
    decreases |steps|
  {
    if steps != [] {
      hide View, Quiet, Lives, Inv, CollisionFree;
      StepKeepsInv(digest, s, steps[0]);
      QuietStepKeepsTable(digest, s, steps[0], table);
      QuietRunKeepsTable(digest, Next(digest, s, steps[0]), steps[1..], table);
    }
  }

  /** The table put in place by a step stays live, matchers included, through every run of
      converges and saves with the same serialized view. */
  lemma SetTableStays(digest: Digest, s: System, step: Step, after: seq<Step>)
    requires CollisionFree(digest) && Inv(digest, s) && SetsTable(s, step)
    requires Runs(digest, Next(digest, s, step), after) && AllQuiet(after, View(TableSet(s, step)))
    ensures Lives(Exec(digest, Next(digest, s, step), after), TableSet(s, step))
  {
    hide View, AllQuiet, Lives;
    StepKeepsInv(digest, s, step);
    StepSetsTable(digest, s, step);
    QuietRunKeepsTable(digest, Next(digest, s, step), after, TableSet(s, step));
  }

  lemma {:induction false} ExecConcat(digest: Digest, s: System, a: seq<Step>, b: seq<Step>)
    ensures Runs(digest, s, a + b) <==> Runs(digest, s, a) && Runs(digest, Exec(digest, s, a), b)
    ensures Runs(digest, s, a + b) ==> Exec(digest, s, a + b) == Exec(digest, Exec(digest, s, a), b)
    decreases |a|
  {
    hide Next, Enabled;
    if a == [] {
      assert a + b == b;
    } else {
      assert (a + b)[0] == a[0] && (a + b)[1..] == a[1..] + b;
      if Enabled(s, a[0]) { ExecConcat(digest, Next(digest, s, a[0]), a[1..], b); }
    }
  }

  /** The run is cut at `step`, the last one to put a table in place. */
  ghost predicate LastSet(digest: Digest, s: System, before: seq<Step>, step: Step, after: seq<Step>)
    requires Runs(digest, s, before + [step] + after)
  {
    && Runs(digest, s, before) && SetsTable(Exec(digest, s, before), step)
    && AllQuiet(after, View(TableSet(Exec(digest, s, before), step)))
  }

  lemma CutRun(digest: Digest, s: System, before: seq<Step>, step: Step, after: seq<Step>)
    requires Runs(digest, s, before + [step] + after)
    ensures Runs(digest, s, before) && Enabled(Exec(digest, s, before), step)
    ensures var mid := Next(digest, Exec(digest, s, before), step);
            Runs(digest, mid, after) && Exec(digest, s, before + [step] + after) == Exec(digest, mid, after)
  {
    assert before + [step] + after == before + ([step] + after);
    ExecConcat(digest, s, before, [step] + after);
    assert ([step] + after)[0] == step && ([step] + after)[1..] == after;
  }

  /** In every run, whatever crashes, failed saves and restarts it has: the live table is,
      matchers included, the one put in place by the last restart or the last converge
      that changed the serialized view. */
  lemma LiveIsLastSet(digest: Digest, before: seq<Step>, step: Step, after: seq<Step>)
    requires CollisionFree(digest) && Runs(digest, System(None, Missing), before + [step] + after)
    requires LastSet(digest, System(None, Missing), before, step, after)
    ensures Lives(Exec(digest, System(None, Missing), before + [step] + after),
                  TableSet(Exec(digest, System(None, Missing), before), step))
  {
    hide View, SetsTable, AllQuiet, Lives;
    CutRun(digest, System(None, Missing), before, step, after);
    RunKeepsInv(digest, System(None, Missing), before);
    SetTableStays(digest, Exec(digest, System(None, Missing), before), step, after);
  }

  lemma RunsSnoc(digest: Digest, s: System, before: seq<Step>, step: Step)
    requires Runs(digest, s, before + [step])
    ensures Runs(digest, s, before) && Enabled(Exec(digest, s, before), step)
    ensures Exec(digest, s, before + [step]) == Next(digest, Exec(digest, s, before), step)
  {
    ExecConcat(digest, s, before, [step]);
    assert [step][1..] == [];
  }

  /** And every run with a running instance has such a last step. */
  lemma {:induction false} LastSetExists(digest: Digest, steps: seq<Step>) returns (before: seq<Step>, step: Step, after: seq<Step>)
    requires CollisionFree(digest) && Runs(digest, System(None, Missing), steps)
    requires Exec(digest, System(None, Missing), steps).app.Some?
    ensures steps == before + [step] + after && LastSet(digest, System(None, Missing), before, step, after)
    decreases |steps|
  {
    hide View;
    var init := System(None, Missing);
    var n := |steps| - 1;
    var front, last := steps[..n], steps[n];
    assert steps == front + [last];
    RunsSnoc(digest, init, front, last);
    var s := Exec(digest, init, front);
    if SetsTable(s, last) {
      before, step, after := front, last, [];
      assert steps == before + [step] + after;
    } else {
      before, step, after := LastSetExists(digest, front);
      LiveIsLastSet(digest, before, step, after);
      assert Quiet(last, View(s.app.value.live));
      after := after + [last];
      assert steps == before + [step] + after;
    }
  }

  ghost predicate NoMatcher(routes: seq<HTTPRoute>) { forall i | 0 <= i < |routes| :: routes[i].noCacheMatcher.None? }

  lemma SameViewSameExactly(a: seq<HTTPRoute>, b: seq<HTTPRoute>)
    requires View(a) == View(b)
    ensures |a| == |b|
    ensures a == b <==> forall i | 0 <= i < |a| :: a[i].noCacheMatcher == b[i].noCacheMatcher
  {
    assert |View(a)| == |View(b)|;
    forall i | 0 <= i < |a|
      ensures a[i].noCacheMatcher == b[i].noCacheMatcher ==> a[i] == b[i]
    {
      assert View(a)[i] == View(b)[i];
    }
  }

  lemma NoMatcherExactly(routes: seq<HTTPRoute>)
    ensures View(routes) == routes <==> NoMatcher(routes)
  {
    if View(routes) == routes {
      forall i | 0 <= i < |routes|
        ensures routes[i].noCacheMatcher.None?
      {
        assert View(routes)[i] == routes[i];
      }
    }
  }

  /** A converge with the serialized view of the table last set is live as compiled exactly
      if every route has the matcher it had in that table. */
  lemma MatcherIsLiveExactly(digest: Digest, before: seq<Step>, step: Step, after: seq<Step>, compiled: seq<HTTPRoute>)
    requires CollisionFree(digest) && Runs(digest, System(None, Missing), before + [step] + after)
    requires LastSet(digest, System(None, Missing), before, step, after)
    requires Enabled(Exec(digest, System(None, Missing), before + [step] + after), Apply(compiled))
    requires View(compiled) == View(TableSet(Exec(digest, System(None, Missing), before), step))
    ensures var table := TableSet(Exec(digest, System(None, Missing), before), step);
            var s := Exec(digest, System(None, Missing), before + [step] + after);
            && |table| == |compiled|
            && (Lives(Next(digest, s, Apply(compiled)), compiled) <==>
                  forall i | 0 <= i < |compiled| :: compiled[i].noCacheMatcher == table[i].noCacheMatcher)
  {
    hide SetsTable, AllQuiet;
    var init := System(None, Missing);
    var table := TableSet(Exec(digest, init, before), step);
    var s := Exec(digest, init, before + [step] + after);
    LiveIsLastSet(digest, before, step, after);
    RunKeepsInv(digest, init, before + [step] + after);
    QuietStepKeepsTable(digest, s, Apply(compiled), table);
    SameViewSameExactly(compiled, table);
  }

  // ----- Restarts -------------------------------------------------------------------

  /** A step that leaves the state file alone. */
  predicate KeepsFile(step: Step) { step.Persist? ==> step.outcome == NotWritten }

  lemma {:induction false} FileKept(digest: Digest, s: System, steps: seq<Step>)
    requires Runs(digest, s, steps) && forall i | 0 <= i < |steps| :: KeepsFile(steps[i])
    ensures Exec(digest, s, steps).disk == s.disk
    decreases |steps|
  {
    if steps != [] { FileKept(digest, Next(digest, s, steps[0]), steps[1..]); }
  }

  /** A restart serves what was written last, whatever happened since to instances and to
      saves that were not written: every serialized field, and no matcher. */
  lemma RestoreServesSaved(digest: Digest, s: System, between: seq<Step>)
    requires Enabled(s, Persist(Written)) && Runs(digest, Next(digest, s, Persist(Written)), between)
    requires forall i | 0 <= i < |between| :: KeepsFile(between[i])
    ensures var t := Exec(digest, Next(digest, s, Persist(Written)), between);
            && Lives(Next(digest, t, Restore), View(s.app.value.pending.value))
            && TableSet(t, Restore) == View(s.app.value.pending.value)
  {
    FileKept(digest, Next(digest, s, Persist(Written)), between);
  }

  /** So a restart drops the matchers until some other field changes: every later converge
      with the saved view serves that view, which is the compiled table exactly if that
      has no matcher. */
  lemma RestartDropsMatchers(digest: Digest, s: System, between: seq<Step>, after: seq<Step>, compiled: seq<HTTPRoute>)
    requires CollisionFree(digest) && Inv(digest, s) && Enabled(s, Persist(Written))
    requires Runs(digest, Next(digest, s, Persist(Written)), between)
    requires forall i | 0 <= i < |between| :: KeepsFile(between[i])
    requires var t := Exec(digest, Next(digest, s, Persist(Written)), between);
             && Runs(digest, Next(digest, t, Restore), after + [Apply(compiled)])
             && AllQuiet(after + [Apply(compiled)], View(s.app.value.pending.value))
    ensures var t := Exec(digest, Next(digest, s, Persist(Written)), between);
            var u := Exec(digest, Next(digest, t, Restore), after + [Apply(compiled)]);
            Lives(u, View(compiled)) && (Lives(u, compiled) <==> NoMatcher(compiled))
  {
    var saved := s.app.value.pending.value;
    StepKeepsInv(digest, s, Persist(Written));
    RunKeepsInv(digest, Next(digest, s, Persist(Written)), between);
    RestoreServesSaved(digest, s, between);
    var t := Exec(digest, Next(digest, s, Persist(Written)), between);
    ViewIdempotent(saved);
    assert Quiet((after + [Apply(compiled)])[|after|], View(saved));
    NoMatcherExactly(compiled);
    hide View, AllQuiet;
    SetTableStays(digest, t, Restore, after + [Apply(compiled)]);
  }

  /** An input that shows both: when only the matcher of a route changes, the old one stays
      live whatever was saved, and after a restart no matcher is live at all. */
  lemma MatcherChangeIsSkipped(digest: Digest, r: HTTPRoute, before: Option<string>, after: string, o: SaveOutcome)
    requires CollisionFree(digest) && before != Some(after)
    ensures var was, now := [r.(noCacheMatcher := before)], [r.(noCacheMatcher := Some(after))];
            var first := Next(digest, Next(digest, System(None, Missing), Restore), Apply(was));
            var second := Next(digest, Next(digest, first, Persist(o)), Apply(now));
            var crashed := Next(digest, Next(digest, second, Persist(Written)), Crash);
            var restarted := Next(digest, Next(digest, crashed, Restore), Apply(now));
            Lives(second, was) && was != now && Lives(restarted, View(now)) && View(now) != now
  {
    var was, now := [r.(noCacheMatcher := before)], [r.(noCacheMatcher := Some(after))];
    assert was[0] != now[0] && View(now)[0] != now[0];
    assert View(was) == View(now);
    ViewIdempotent(now);
    hide View;
  }

  // ----- The code --------------------------------------------------------------

  /** The state file as shared storage. */
  class Store {
    var disk: Disk
    constructor ()
      ensures disk == Missing
    {
      disk := Missing;
    }
  }

  class ConsulRouter {
    const digest: Digest
    var live: seq<HTTPRoute>                // routeTable.routes
    var httpRouteHash: string               // stateMgr.state.HTTPRouteHash
    var httpRoutes: seq<HTTPRoute>          // stateMgr.state.HTTPRoutes
    ghost var pending: Option<seq<HTTPRoute>>

    ghost function State(): App
      reads this
    {
      App(live, httpRouteHash, httpRoutes, pending)
    }

    /** The restore part of `Provision`. */
    constructor Provision(digest: Digest, store: Store)
      ensures this.digest == digest && State() == Loaded(store.disk)
    {
      this.digest := digest;
      var hash, routes := "", [];
      if store.disk.Stored? { hash, routes := store.disk.hash, store.disk.routes; }
      httpRouteHash, httpRoutes, live, pending := hash, routes, [], None;
      if |routes| > 0 { live := routes; }
    }

    /** Update the table only when the hash differs. */
    method ApplyHTTP(compiled: seq<HTTPRoute>)
      modifies this
      ensures State() == Applied(digest, old(State()), compiled)
    {
      var newHash := digest(compiled);
      if newHash != httpRouteHash {
        live := compiled;
        httpRouteHash := newHash;
      }
      pending := Some(compiled);
    }

    /** Persist what was just applied. */
    method PersistHTTP(store: Store, compiled: seq<HTTPRoute>, outcome: SaveOutcome)
      requires pending == Some(compiled)
      modifies this, store
      ensures System(Some(State()), store.disk) ==
              Next(digest, System(Some(old(State())), old(store.disk)), Persist(outcome))
    {
      httpRoutes := compiled;
      pending := None;
      match outcome
      case Written => store.disk := Stored(httpRouteHash, View(httpRoutes));
      case NotWritten =>
      case Torn => store.disk := Corrupt;
    }
  }
}
