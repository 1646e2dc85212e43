/** The debounce buffer of watcher.go under every interleaving of the goroutines that
    queue changes, the timer, and the flushes it starts. */
module Debounce {

  /** A queued change, with the version the service cache had once it was applied. */
  datatype Change = Change(service: string, appliedAt: nat)

  /** A call of `flushChanges`: started by the timer, holding the batch it took from the
      buffer, or done. `seen` is the version of the cache its snapshot was taken from. */
  datatype Flush = Started | Took(batch: seq<Change>) | Done(batch: seq<Change>, seen: nat)

  /** `version` counts updates of the cache under its lock; `applied` are changes made
      there whose goroutine has not queued them yet; `taken` lists flushes in the order
      they emptied the buffer; `queued` is everything ever queued. */
  datatype State = State(
    version: nat, applied: seq<seq<Change>>, pending: seq<Change>, armed: bool,
    flushes: seq<Flush>, taken: seq<nat>, queued: seq<Change>)

  const INITIAL := State(0, [], [], false, [], [], [])

  datatype Step =
    | Update(services: seq<string>) // under w.mu: change the cache, remember the changes
    | Queue(i: nat)                 // queueChanges with one of the remembered lists
    | Fire                          // the armed timer starts a flush
    | Take(f: nat)                  // a flush empties the buffer under debounceMu
    | Deliver(f: nat)               // the flush takes its snapshot and calls onChange (unless its batch is empty)

  function Changes(services: seq<string>, version: nat): (cs: seq<Change>)
    ensures |cs| == |services| && forall i | 0 <= i < |cs| :: cs[i] == Change(services[i], version)
  {
    seq(|services|, i requires 0 <= i < |services| => Change(services[i], version))
  }

  predicate Enabled(s: State, step: Step) {
    match step
    case Update(_) => true
    case Queue(i) => i < |s.applied|
    case Fire => s.armed
    case Take(f) => f < |s.flushes| && s.flushes[f].Started?
    case Deliver(f) => f < |s.flushes| && s.flushes[f].Took?
  }

  function Next(s: State, step: Step): State
    requires Enabled(s, step)
  {
    match step
    case Update(services) =>
      s.(version := s.version + 1, applied := s.applied + [Changes(services, s.version + 1)])
    case Queue(i) =>
      var cs := s.applied[i];
      s.(applied := s.applied[..i] + s.applied[i + 1..], pending := s.pending + cs, queued := s.queued + cs, armed := true)
    case Fire => s.(armed := false, flushes := s.flushes + [Started])
    case Take(f) => s.(pending := [], flushes := s.flushes[f := Took(s.pending)], taken := s.taken + [f])
    case Deliver(f) => s.(flushes := s.flushes[f := Done(s.flushes[f].batch, s.version)])
  }

  predicate Runs(s: State, steps: seq<Step>)
    decreases |steps|
  {
    steps == [] || (Enabled(s, steps[0]) && Runs(Next(s, steps[0]), steps[1..]))
  }

  function Exec(s: State, steps: seq<Step>): State
    requires Runs(s, steps)
    decreases |steps|
  {
    if steps == [] then s else Exec(Next(s, steps[0]), steps[1..])
  }

  // ----- Nothing is lost, duplicated or reordered --------------------------------

  function BatchOf(f: Flush): seq<Change> { if f.Started? then [] else f.batch }

  /** The batches in the order they were taken, end to end. */
  function Batches(flushes: seq<Flush>, taken: seq<nat>): seq<Change>
    requires forall i | 0 <= i < |taken| :: taken[i] < |flushes|
  {
    if taken == [] then [] else
      var n := |taken| - 1;
      Batches(flushes, taken[..n]) + BatchOf(flushes[taken[n]])
  }

  lemma {:induction false} BatchesSame(a: seq<Flush>, b: seq<Flush>, taken: seq<nat>)
    requires forall i | 0 <= i < |taken| :: taken[i] < |a| && taken[i] < |b| && BatchOf(a[taken[i]]) == BatchOf(b[taken[i]])
    ensures Batches(a, taken) == Batches(b, taken)
  {
    if taken != [] { BatchesSame(a, b, taken[..|taken| - 1]); }
  }

  /** Only flushes past their take are listed as taken. */
  ghost predicate TakenBack(flushes: seq<Flush>, taken: seq<nat>) {
    forall i | 0 <= i < |taken| :: taken[i] < |flushes| && !flushes[taken[i]].Started?
  }

  ghost predicate AllTaken(flushes: seq<Flush>, taken: seq<nat>) {
    forall f | 0 <= f < |flushes| :: !flushes[f].Started? ==> f in taken
  }

  ghost predicate Index(s: State) { TakenBack(s.flushes, s.taken) && AllTaken(s.flushes, s.taken) }

  ghost predicate Conserved(s: State) { Index(s) && Batches(s.flushes, s.taken) + s.pending == s.queued }

  /** A non-empty buffer is going to be flushed. */
  ghost predicate WillFlush(s: State) {
    s.pending != [] ==> s.armed || exists f | 0 <= f < |s.flushes| :: s.flushes[f].Started?
  }

  ghost predicate UpTo(cs: seq<Change>, v: nat) { forall i | 0 <= i < |cs| :: cs[i].appliedAt <= v }

  ghost predicate FlushFresh(f: Flush, v: nat) {
    match f
    case Started => true
    case Took(batch) => UpTo(batch, v)
    case Done(batch, seen) => UpTo(batch, seen)
  }

  /** Snapshots are never older than the changes they are delivered with. */
  ghost predicate Fresh(s: State) {
    && (forall i | 0 <= i < |s.applied| :: UpTo(s.applied[i], s.version))
    && UpTo(s.pending, s.version)
    && (forall f | 0 <= f < |s.flushes| :: FlushFresh(s.flushes[f], s.version))
  }

  ghost predicate Inv(s: State) { Conserved(s) && WillFlush(s) && Fresh(s) }

  lemma BatchesSnoc(flushes: seq<Flush>, taken: seq<nat>, f: nat)
    requires TakenBack(flushes, taken) && f < |flushes|
    ensures forall i | 0 <= i < |taken + [f]| :: (taken + [f])[i] < |flushes|
    ensures Batches(flushes, taken + [f]) == Batches(flushes, taken) + BatchOf(flushes[f])
  {
    assert (taken + [f])[..|taken|] == taken;
  }

  /** A flush that had not taken its batch is in no batch so far. */
  lemma TakeKeepsOthers(flushes: seq<Flush>, taken: seq<nat>, f: nat, batch: seq<Change>)
    requires TakenBack(flushes, taken) && f < |flushes| && flushes[f].Started?
    ensures TakenBack(flushes[f := Took(batch)], taken)
    ensures Batches(flushes[f := Took(batch)], taken) == Batches(flushes, taken)
  {
    hide Batches;
    BatchesSame(flushes, flushes[f := Took(batch)], taken);
  }

  lemma TakeIndexes(flushes: seq<Flush>, taken: seq<nat>, f: nat, batch: seq<Change>)
    requires TakenBack(flushes, taken) && AllTaken(flushes, taken) && f < |flushes|
    ensures AllTaken(flushes[f := Took(batch)], taken + [f])
    ensures TakenBack(flushes[f := Took(batch)], taken) ==> TakenBack(flushes[f := Took(batch)], taken + [f])
  {
    var after, more := flushes[f := Took(batch)], taken + [f];
    forall g | 0 <= g < |after| && !after[g].Started?
      ensures g in more
    {
      if g == f { assert more[|taken|] == f; } else { assert g in taken; }
    }
  }

  lemma TakeConserves(s: State, f: nat)
    requires Conserved(s) && Enabled(s, Take(f))
    ensures Conserved(Next(s, Take(f)))
  {
    hide Batches;
    assert TakenBack(s.flushes, s.taken) && AllTaken(s.flushes, s.taken);
    var after := s.flushes[f := Took(s.pending)];
    TakeKeepsOthers(s.flushes, s.taken, f, s.pending);
    TakeIndexes(s.flushes, s.taken, f, s.pending);
    BatchesSnoc(after, s.taken, f);
  }

  lemma QueueConserves(s: State, i: nat)
    requires Conserved(s) && Enabled(s, Queue(i))
    ensures Conserved(Next(s, Queue(i)))
  {
    hide Batches;
    var done, cs := Batches(s.flushes, s.taken), s.applied[i];
    assert done + (s.pending + cs) == done + s.pending + cs;
  }

  lemma FireConserves(s: State)
    requires Conserved(s) && Enabled(s, Fire)
    ensures Conserved(Next(s, Fire))
  {
    hide Batches;
    BatchesSame(s.flushes, s.flushes + [Started], s.taken);
  }

  lemma DeliverConserves(s: State, f: nat)
    requires Conserved(s) && Enabled(s, Deliver(f))
    ensures Conserved(Next(s, Deliver(f)))
  {
    hide Batches;
    BatchesSame(s.flushes, Next(s, Deliver(f)).flushes, s.taken);
  }

  lemma StepConserves(s: State, step: Step)
    requires Conserved(s) && Enabled(s, step)
    ensures Conserved(Next(s, step))
  {
    match step
    case Update(_) =>
    case Queue(i) => QueueConserves(s, i);
    case Fire => FireConserves(s);
    case Take(f) => TakeConserves(s, f);
    case Deliver(f) => DeliverConserves(s, f);
  }

  lemma StepWillFlush(s: State, step: Step)
    requires WillFlush(s) && Enabled(s, step)
    ensures WillFlush(Next(s, step))
  {
    var t := Next(s, step);
    match step
    case Fire => assert t.flushes[|s.flushes|].Started?;
    case Deliver(f) =>
      if g :| 0 <= g < |s.flushes| && s.flushes[g].Started? { assert t.flushes[g].Started?; }
    case _ =>
  }

  lemma StepFresh(s: State, step: Step)
    requires Fresh(s) && Enabled(s, step)
    ensures Fresh(Next(s, step))
  {
    var t := Next(s, step);
    match step
    case Update(_) =>
      assert forall f | 0 <= f < |s.flushes| :: FlushFresh(s.flushes[f], s.version) ==> FlushFresh(s.flushes[f], t.version);
    case Queue(i) =>
    case Fire =>
    case Take(f) =>
    case Deliver(f) => assert FlushFresh(s.flushes[f], s.version);
  }

  lemma {:induction false} RunKeepsInv(s: State, steps: seq<Step>)
    requires Inv(s) && Runs(s, steps)
    ensures Inv(Exec(s, steps))
    decreases |steps|
  {
    if steps != [] {
      hide Conserved, WillFlush, Fresh, Enabled, Next;
      StepConserves(s, steps[0]);
      StepWillFlush(s, steps[0]);
      StepFresh(s, steps[0]);
      RunKeepsInv(Next(s, steps[0]), steps[1..]);
    }
  }

  /** In every interleaving: the batches taken so far followed by the buffer are exactly
      what was queued, in order; a non-empty buffer has an armed timer or a flush on its
      way to it; and every delivered snapshot shows all changes of its batch. */
  lemma NothingIsLost(steps: seq<Step>)
    requires Runs(INITIAL, steps)
    ensures var s := Exec(INITIAL, steps);
            && Index(s) && Batches(s.flushes, s.taken) + s.pending == s.queued
            && WillFlush(s)
            && (forall f | 0 <= f < |s.flushes| && s.flushes[f].Done? :: UpTo(s.flushes[f].batch, s.flushes[f].seen))
  {
    RunKeepsInv(INITIAL, steps);
    var s := Exec(INITIAL, steps);
    assert forall f | 0 <= f < |s.flushes| :: FlushFresh(s.flushes[f], s.version);
  }

  /** Once the timer is idle and every flush has returned, everything queued has been
      delivered. */
  lemma QuietMeansDelivered(steps: seq<Step>)
    requires Runs(INITIAL, steps)
    requires var s := Exec(INITIAL, steps); !s.armed && forall f | 0 <= f < |s.flushes| :: s.flushes[f].Done?
    ensures var s := Exec(INITIAL, steps);
            s.pending == [] && Index(s) && Batches(s.flushes, s.taken) == s.queued
  {
    NothingIsLost(steps);
    var s := Exec(INITIAL, steps);
    assert Batches(s.flushes, s.taken) + [] == Batches(s.flushes, s.taken);
  }

  /** Changes made by two goroutines before the timer fires are delivered as one batch in the
      order they were queued, with a snapshot that shows both; nothing is left behind. */
  lemma TwoChangesOneBatch(a: string, b: string)
    ensures var updated := Next(Next(INITIAL, Update([a])), Update([b]));
            var queued := Next(Next(updated, Queue(1)), Queue(0));
            var batch := [Change(b, 2), Change(a, 1)];
            && queued == State(2, [], batch, true, [], [], batch)
            && Next(Next(Next(queued, Fire), Take(0)), Deliver(0)) == State(2, [], [], false, [Done(batch, 2)], [0], batch)
  {
    var updated := Next(Next(INITIAL, Update([a])), Update([b]));
    assert Changes([a], 1) == [Change(a, 1)] && Changes([b], 2) == [Change(b, 2)];
    assert updated.applied == [[Change(a, 1)], [Change(b, 2)]];
    var first := Next(updated, Queue(1));
    assert first.applied == [[Change(a, 1)]] && first.pending == first.queued == [Change(b, 2)];
    var queued := Next(first, Queue(0));
    assert queued.applied == [] && queued.pending == [Change(b, 2)] + [Change(a, 1)];
    assert queued == State(2, [], [Change(b, 2), Change(a, 1)], true, [], [], [Change(b, 2), Change(a, 1)]);
  }

  // ----- The two critical sections ------------------------------------------------

  class Buffer {
    var pendingChanges: seq<Change>
    var inDebounce: bool
    var timerArmed: bool

    constructor ()
      ensures pendingChanges == [] && !inDebounce && !timerArmed
    {
      pendingChanges, inDebounce, timerArmed := [], false, false;
    }

    /** `queueChanges`: append, and restart the timer whether or not it was running. */
    method QueueChanges(changes: seq<Change>, ghost s: State, ghost i: nat)
      requires s.pending == pendingChanges && s.armed == timerArmed && i < |s.applied| && s.applied[i] == changes
      modifies this
      ensures Next(s, Queue(i)).pending == pendingChanges && Next(s, Queue(i)).armed == timerArmed
      ensures inDebounce
    {
      if !inDebounce { inDebounce := true; }
      pendingChanges := pendingChanges + changes;
      if timerArmed { timerArmed := false; }
      timerArmed := true;
    }

    /** The locked part of `flushChanges`. */
    method TakePending(ghost s: State, ghost f: nat) returns (changes: seq<Change>)
      requires s.pending == pendingChanges && Enabled(s, Take(f))
      modifies this`pendingChanges, this`inDebounce
      ensures Next(s, Take(f)).pending == pendingChanges && Next(s, Take(f)).flushes[f] == Took(changes)
      ensures !inDebounce
    {
      changes := pendingChanges;
      pendingChanges := [];
      inDebounce := false;
    }
  }
}
