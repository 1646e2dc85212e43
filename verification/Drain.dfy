/** Drain bookkeeping of one listener (tcp_listener.go): the atomic in-flight counter
    and the map of live connections, under every interleaving of the accept loop and
    the handlers. */
module Drain {

  type Conn = nat

  /** `counter` is the atomic int, `tracked` the connection map. The other sets are where
      a connection is between two of its own steps: counted but not stored, or deleted
      but not yet subtracted. */
  datatype Listener = Listener(counter: int, tracked: set<Conn>, arriving: set<Conn>, leaving: set<Conn>, seen: set<Conn>)

  datatype Step =
    | Count(c: Conn)    // accept: AddInt64(&active, 1)
    | Store(c: Conn)    // accept: conns.Store, then the handler starts
    | Delete(c: Conn)   // handler exit: conns.Delete
    | Subtract(c: Conn) // handler exit: AddInt64(&active, -1)

  predicate Enabled(l: Listener, s: Step) {
    match s
    case Count(c) => c !in l.seen
    case Store(c) => c in l.arriving
    case Delete(c) => c in l.tracked
    case Subtract(c) => c in l.leaving
  }

  function Apply(l: Listener, s: Step): Listener
    requires Enabled(l, s)
  {
    match s
    case Count(c) => l.(counter := l.counter + 1, arriving := l.arriving + {c}, seen := l.seen + {c})
    case Store(c) => l.(arriving := l.arriving - {c}, tracked := l.tracked + {c})
    case Delete(c) => l.(tracked := l.tracked - {c}, leaving := l.leaving + {c})
    case Subtract(c) => l.(counter := l.counter - 1, leaving := l.leaving - {c})
  }

  predicate Runs(l: Listener, steps: seq<Step>)
    decreases |steps|
  {
    steps == [] || (Enabled(l, steps[0]) && Runs(Apply(l, steps[0]), steps[1..]))
  }

  function Exec(l: Listener, steps: seq<Step>): Listener
    requires Runs(l, steps)
    decreases |steps|
  {
    if steps == [] then l else Exec(Apply(l, steps[0]), steps[1..])
  }

  const FRESH := Listener(0, {}, {}, {}, {})

  ghost predicate Inv(l: Listener) {
    && l.tracked !! l.arriving && l.tracked !! l.leaving && l.arriving !! l.leaving
    && l.tracked <= l.seen && l.arriving <= l.seen && l.leaving <= l.seen
    && l.counter == |l.tracked| + |l.arriving| + |l.leaving|
  }

  lemma StepKeepsInv(l: Listener, s: Step)
    requires Inv(l) && Enabled(l, s)
    ensures Inv(Apply(l, s))
  {
  }

  lemma {:induction false} RunKeepsInv(l: Listener, steps: seq<Step>)
    requires Inv(l) && Runs(l, steps)
    ensures Inv(Exec(l, steps))
    decreases |steps|
  {
    if steps != [] {
      StepKeepsInv(l, steps[0]);
      RunKeepsInv(Apply(l, steps[0]), steps[1..]);
    }
  }

  /** In every reachable state the counter is the tracked connections plus those on their
      way in or out, so a zero counter, on which the drain loop stops waiting, means that
      no connection is left to close. */
  lemma CounterCoversTracked(steps: seq<Step>)
    requires Runs(FRESH, steps)
    ensures var l := Exec(FRESH, steps);
            && l.counter == |l.tracked| + |l.arriving| + |l.leaving|
            && |l.tracked| <= l.counter
            && (l.counter == 0 ==> l.tracked == {} && l.arriving == {} && l.leaving == {})
  {
    RunKeepsInv(FRESH, steps);
  }

  /** One connection: counted, tracked, gone from the map, no longer counted. */
  lemma ComesAndGoes(c: Conn)
    ensures var counted := Apply(FRESH, Count(c));
            var tracked := Apply(counted, Store(c));
            var deleted := Apply(tracked, Delete(c));
            && counted.counter == 1 && counted.tracked == {} && tracked.counter == 1 && tracked.tracked == {c}
            && deleted.counter == 1 && deleted.tracked == {} && Apply(deleted, Subtract(c)) == FRESH.(seen := {c})
  {
  }

  /** The force-close loop closes the tracked connections. It reaches every connection in
      flight exactly when none is between two of its steps. */
  lemma ForceCloseReachesAll(steps: seq<Step>)
    requires Runs(FRESH, steps)
    ensures var l := Exec(FRESH, steps);
            |l.tracked| == l.counter <==> l.arriving == {} && l.leaving == {}
  {
    RunKeepsInv(FRESH, steps);
    var l := Exec(FRESH, steps);
    assert |l.arriving| + |l.leaving| == 0 ==> l.arriving == {} && l.leaving == {};
  }
}
