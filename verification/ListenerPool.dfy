/** Dynamic TCP listeners over Caddy's reference-counted socket pool, as steps that app
    instances take in any interleaving (tcp_listener.go, and Start/Stop in consul.go). */
module ListenerPool {

  /** What one instance's manager holds: the ports in its `active` map, and listeners it
      has taken out of the map but not closed yet. */
  datatype Manager = Manager(active: set<int>, closing: multiset<int>)

  /** All instances ever provisioned, and the pool's reference count per port. */
  datatype World = World(pool: multiset<int>, apps: seq<Manager>)

  datatype Step =
    | Provision                      // a new instance appears, holding nothing
    | Open(app: nat, port: int)      // Listen succeeds and the port becomes active
    | Drop(app: nat, port: int)      // the port is deleted from the active map
    | Release(app: nat, port: int)   // ln.Close() gives the pool reference back

  predicate Enabled(w: World, s: Step) {
    match s
    case Provision => true
    case Open(a, p) => a < |w.apps| && p !in w.apps[a].active
    case Drop(a, p) => a < |w.apps| && p in w.apps[a].active
    case Release(a, p) => a < |w.apps| && p in w.apps[a].closing
  }

  function Apply(w: World, s: Step): World
    requires Enabled(w, s)
  {
    match s
    case Provision => World(w.pool, w.apps + [Manager({}, multiset{})])
    case Open(a, p) =>
      var m := w.apps[a];
      World(w.pool + multiset{p}, w.apps[a := Manager(m.active + {p}, m.closing)])
    case Drop(a, p) =>
      var m := w.apps[a];
      World(w.pool, w.apps[a := Manager(m.active - {p}, m.closing + multiset{p})])
    case Release(a, p) =>
      var m := w.apps[a];
      World(w.pool - multiset{p}, w.apps[a := Manager(m.active, m.closing - multiset{p})])
  }

  /** A run: every step is enabled when it is taken. */
  predicate Runs(w: World, steps: seq<Step>)
    decreases |steps|
  {
    steps == [] || (Enabled(w, steps[0]) && Runs(Apply(w, steps[0]), steps[1..]))
  }

  function Exec(w: World, steps: seq<Step>): World
    requires Runs(w, steps)
    decreases |steps|
  {
    if steps == [] then w else Exec(Apply(w, steps[0]), steps[1..])
  }

  lemma {:induction false} RunsConcat(w: World, a: seq<Step>, b: seq<Step>)
    ensures Runs(w, a + b) <==> Runs(w, a) && Runs(Exec(w, a), b)
    ensures Runs(w, a + b) ==> Exec(w, a + b) == Exec(Exec(w, a), b)
    decreases |a|
  {
    if a == [] {
      assert a + b == b;
    } else {
      assert (a + b)[0] == a[0] && (a + b)[1..] == a[1..] + b;
      if Enabled(w, a[0]) { RunsConcat(Apply(w, a[0]), a[1..], b); }
    }
  }

  lemma Then(w: World, steps: seq<Step>, s: Step)
    requires Runs(w, steps) && Enabled(Exec(w, steps), s)
    ensures Runs(w, steps + [s]) && Exec(w, steps + [s]) == Apply(Exec(w, steps), s)
  {
    RunsConcat(w, steps, [s]);
    assert [s][1..] == [];
  }

  // ----- The reference count is the number of holders -------------------------

  function Held(m: Manager, p: int): nat { (if p in m.active then 1 else 0) + m.closing[p] }

  function Holders(apps: seq<Manager>, p: int): nat {
    if apps == [] then 0 else Held(apps[0], p) + Holders(apps[1..], p)
  }

  /** Every pool reference belongs to exactly one instance that still has to close it. */
  ghost predicate Inv(w: World) { forall p :: w.pool[p] == Holders(w.apps, p) }

  lemma {:induction false} HoldersUpdate(apps: seq<Manager>, a: nat, m: Manager, p: int)
    requires a < |apps|
    ensures Holders(apps[a := m], p) == Holders(apps, p) - Held(apps[a], p) + Held(m, p)
    ensures Held(apps[a], p) <= Holders(apps, p)
  {
    if a > 0 {
      assert apps[a := m][1..] == apps[1..][a - 1 := m];
      HoldersUpdate(apps[1..], a - 1, m, p);
    } else {
      assert apps[a := m][1..] == apps[1..];
    }
  }

  lemma {:induction false} HoldersNew(apps: seq<Manager>, p: int)
    ensures Holders(apps + [Manager({}, multiset{})], p) == Holders(apps, p)
  {
    if apps == [] {
      assert Holders([Manager({}, multiset{})][1..], p) == 0;
    } else {
      assert (apps + [Manager({}, multiset{})])[1..] == apps[1..] + [Manager({}, multiset{})];
      HoldersNew(apps[1..], p);
    }
  }

  lemma StepKeepsInv(w: World, s: Step)
    requires Inv(w) && Enabled(w, s)
    ensures Inv(Apply(w, s))
  {
    var w' := Apply(w, s);
    forall p
      ensures w'.pool[p] == Holders(w'.apps, p)
    {
      assert w.pool[p] == Holders(w.apps, p);
      match s
      case Provision => HoldersNew(w.apps, p);
      case Open(a, q) => HoldersUpdate(w.apps, a, w'.apps[a], p);
      case Drop(a, q) => HoldersUpdate(w.apps, a, w'.apps[a], p);
      case Release(a, q) => HoldersUpdate(w.apps, a, w'.apps[a], p);
    }
  }

  /** Over every interleaving of every instance, the reference count of a port is the
      number of instances holding it, counting listeners about to be closed. */
  lemma {:induction false} CountsAreHolders(w: World, steps: seq<Step>)
    requires Inv(w) && Runs(w, steps)
    ensures Inv(Exec(w, steps))
    decreases |steps|
  {
    if steps != [] {
      StepKeepsInv(w, steps[0]);
      CountsAreHolders(Apply(w, steps[0]), steps[1..]);
    }
  }

  lemma HolderKeepsOpen(w: World, a: nat, p: int)
    requires Inv(w) && a < |w.apps| && Held(w.apps[a], p) > 0
    ensures w.pool[p] >= 1
  {
    HoldersUpdate(w.apps, a, w.apps[a], p);
  }

  // ----- Reload handoff -------------------------------------------------------

  predicate Drops(s: Step, a: nat, p: int) { s == Drop(a, p) }

  predicate NeverDrops(steps: seq<Step>, a: nat, p: int) { forall i | 0 <= i < |steps| :: !Drops(steps[i], a, p) }

  predicate Active(w: World, a: nat, p: int) { a < |w.apps| && p in w.apps[a].active }

  lemma {:induction false} StaysActive(w: World, steps: seq<Step>, a: nat, p: int)
    requires Runs(w, steps) && Active(w, a, p) && NeverDrops(steps, a, p)
    ensures Active(Exec(w, steps), a, p)
    decreases |steps|
  {
    if steps != [] {
      assert !Drops(steps[0], a, p);
      forall i | 0 <= i < |steps[1..]|
        ensures !Drops(steps[1..][i], a, p)
      {
        assert !Drops(steps[i + 1], a, p);
      }
      StaysActive(Apply(w, steps[0]), steps[1..], a, p);
    }
  }

  /** Zero downtime: from a world in which the outgoing instance listens on a port,
      through `start` (by whose end the incoming instance listens on it too) and then
      `stop` (during which the outgoing one closes everything), both interleaved with
      anything else, the reference count of the port is never zero, provided the
      outgoing instance does not give the port up before the incoming one has it, nor
      the incoming one afterwards. */
  lemma ReloadHandoff(w: World, start: seq<Step>, stop: seq<Step>, outgoing: nat, incoming: nat, p: int, i: nat)
    requires Inv(w) && Runs(w, start + stop) && i <= |start + stop|
    requires Active(w, outgoing, p) && NeverDrops(start, outgoing, p)
    requires Runs(w, start) ==> Active(Exec(w, start), incoming, p)
    requires NeverDrops(stop, incoming, p)
    ensures Runs(w, (start + stop)[..i]) && Exec(w, (start + stop)[..i]).pool[p] >= 1
  {
    hide Inv, Held, Holders;
    var all := start + stop;
    assert all == all[..i] + all[i..];
    RunsConcat(w, all[..i], all[i..]);
    RunsConcat(w, start, stop);
    CountsAreHolders(w, all[..i]);
    if i <= |start| {
      assert all[..i] == start[..i];
      assert forall k | 0 <= k < i :: !Drops(start[..i][k], outgoing, p) by {
        assert forall k | 0 <= k < i :: start[..i][k] == start[k];
      }
      StaysActive(w, all[..i], outgoing, p);
      ActiveKeepsOpen(Exec(w, all[..i]), outgoing, p);
    } else {
      var j := i - |start|;
      assert all[..i] == start + stop[..j];
      RunsConcat(w, start, stop[..j]);
      assert forall k | 0 <= k < j :: !Drops(stop[..j][k], incoming, p) by {
        assert forall k | 0 <= k < j :: stop[..j][k] == stop[k];
      }
      StaysActive(Exec(w, start), stop[..j], incoming, p);
      ActiveKeepsOpen(Exec(w, all[..i]), incoming, p);
    }
  }

  lemma ActiveKeepsOpen(w: World, a: nat, p: int)
    requires Inv(w) && Active(w, a, p)
    ensures w.pool[p] >= 1
  {
    HolderKeepsOpen(w, a, p);
  }

  /** Conversely the socket goes away with its last holder: a port nobody holds has no
      references, so nothing leaks. */
  lemma NoHolderNoReference(w: World, p: int)
    requires Inv(w) && forall a | 0 <= a < |w.apps| :: Held(w.apps[a], p) == 0
    ensures w.pool[p] == 0
  {
    NobodyHolds(w.apps, p);
  }

  lemma {:induction false} NobodyHolds(apps: seq<Manager>, p: int)
    requires forall a | 0 <= a < |apps| :: Held(apps[a], p) == 0
    ensures Holders(apps, p) == 0
  {
    if apps != [] {
      assert forall a | 0 <= a < |apps| - 1 :: apps[1..][a] == apps[a + 1];
      NobodyHolds(apps[1..], p);
    }
  }
}
