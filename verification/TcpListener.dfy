/** The listener manager of tcp_listener.go and the lifecycle around it: what its
    methods do to the shared socket pool, step by step. */
module TcpListener {
  import opened Prelude
  import opened ListenerPool

  /** Caddy's listener pool: Listen on a pooled address adds a reference, Close drops one. */
  class Pool {
    var refs: multiset<int>

    constructor ()
      ensures refs == multiset{}
    {
      refs := multiset{};
    }
  }

  /** The world in which instance `me` has this manager and this pool. */
  ghost predicate Agrees(w: World, me: nat, m: TCPListenerManager)
    reads m, m.pool
  {
    me < |w.apps| && w.pool == m.pool.refs && w.apps[me].active == m.active
  }

  ghost predicate OnlyBy(steps: seq<Step>, me: nat) {
    forall s | s in steps :: !s.Provision? && s.app == me
  }

  ghost predicate ClosesOnly(steps: seq<Step>, desired: set<int>) {
    forall s | s in steps :: !s.Open? && (s.Drop? ==> s.port !in desired)
  }

  class TCPListenerManager {
    const pool: Pool
    const reserved: set<int>
    var active: set<int>

    constructor (pool: Pool, reserved: set<int>)
      ensures this.pool == pool && this.reserved == reserved && active == {}
    {
      this.pool, this.reserved, active := pool, reserved, {};
    }

    /** Opens every wanted port that is not active, in map order; `listen` says which
        binds succeed. A failed bind is skipped and reported. */
    method OpenMissing(desired: set<int>, listen: int -> bool, ghost w: World, ghost me: nat)
      returns (failed: bool, ghost steps: seq<Step>)
      requires Agrees(w, me, this)
      modifies this`active, pool
      ensures Runs(w, steps) && Agrees(Exec(w, steps), me, this) && OnlyBy(steps, me)
      ensures active == old(active) + set p | p in desired && listen(p)
      ensures failed <==> exists p | p in desired - old(active) :: !listen(p)
      ensures forall s | s in steps :: s.Open? && s.port in desired && s.port !in old(active)
      ensures Exec(w, steps).apps[me].closing == w.apps[me].closing
      ensures desired <= old(active) ==> steps == []
    {
      assert Runs(w, []) && Exec(w, []) == w && OnlyBy([], me);
      hide Runs, Exec, Apply, Enabled, OnlyBy;
      failed, steps := false, [];
      var todo := desired - active;
      ghost var missing := todo;
      while todo != {}
        invariant todo <= missing && Runs(w, steps) && Agrees(Exec(w, steps), me, this) && OnlyBy(steps, me)
        invariant active == old(active) + set p | p in missing - todo && listen(p)
        invariant failed <==> exists p | p in missing - todo :: !listen(p)
        invariant forall s | s in steps :: s.Open? && s.port in desired && s.port !in old(active)
        invariant Exec(w, steps).apps[me].closing == w.apps[me].closing
        invariant desired <= old(active) ==> steps == []
        decreases todo
      {
        var p := Pick(todo);
        todo := todo - {p};
        if listen(p) {
          Opens(w, steps, me, p);
          steps := steps + [Open(me, p)];
          pool.refs := pool.refs + multiset{p};
          active := active + {p};
        } else {
          failed := true;
        }
      }
    }

    /** `stopListener`, up to the background drain: the pool reference is given back. */
    method StopListener(p: int, ghost w: World, ghost before: seq<Step>, ghost me: nat) returns (ghost steps: seq<Step>)
      requires Runs(w, before) && Agrees(Exec(w, before), me, this) && OnlyBy(before, me)
      requires p in Exec(w, before).apps[me].closing
      modifies pool
      ensures steps == before + [Release(me, p)]
      ensures Runs(w, steps) && Agrees(Exec(w, steps), me, this) && OnlyBy(steps, me)
      ensures Exec(w, steps).apps[me].closing == Exec(w, before).apps[me].closing - multiset{p}
      ensures pool.refs == old(pool.refs) - multiset{p}
    {
      hide Runs, Exec, Apply, Enabled, OnlyBy;
      Releases(w, before, me, p);
      steps := before + [Release(me, p)];
      pool.refs := pool.refs - multiset{p};
    }

    method DropAndStop(p: int, ghost w: World, ghost before: seq<Step>, ghost me: nat) returns (ghost steps: seq<Step>)
      requires Runs(w, before) && Agrees(Exec(w, before), me, this) && OnlyBy(before, me)
      requires p in active
      modifies this`active, pool
      ensures steps == before + [Drop(me, p)] + [Release(me, p)]
      ensures Runs(w, steps) && Agrees(Exec(w, steps), me, this) && OnlyBy(steps, me)
      ensures Exec(w, steps).apps[me].closing == Exec(w, before).apps[me].closing
      ensures active == old(active) - {p}
    {
      hide Runs, Exec, Apply, Enabled, OnlyBy;
      DropsOne(w, before, me, p);
      active := active - {p};
      steps := StopListener(p, w, before + [Drop(me, p)], me);
    }

    /** Closes every active port that is not wanted: delete the entry, then close. */
    method CloseStale(desired: set<int>, ghost w: World, ghost me: nat) returns (ghost steps: seq<Step>)
      requires Agrees(w, me, this)
      modifies this`active, pool
      ensures Runs(w, steps) && Agrees(Exec(w, steps), me, this) && OnlyBy(steps, me)
      ensures active == old(active) * desired
      ensures ClosesOnly(steps, desired)
      ensures old(active) <= desired ==> steps == []
      ensures Exec(w, steps).apps[me].closing == w.apps[me].closing
    {
      assert Runs(w, []) && Exec(w, []) == w && OnlyBy([], me) && ClosesOnly([], desired);
      hide Runs, Exec, Apply, Enabled, OnlyBy, ClosesOnly;
      steps := [];
      var todo := active - desired;
      while todo != {}
        invariant todo <= old(active) - desired && Runs(w, steps) && Agrees(Exec(w, steps), me, this) && OnlyBy(steps, me)
        invariant active == old(active) * desired + todo
        invariant ClosesOnly(steps, desired)
        invariant old(active) <= desired ==> steps == []
        invariant Exec(w, steps).apps[me].closing == w.apps[me].closing
        decreases todo
      {
        var p := Pick(todo);
        todo := todo - {p};
        steps := DropAndStop(p, w, steps, me);
      }
    }

    /** `Reconcile`. Nothing wanted is ever dropped on the way, what is listening already
        is left alone, and reconciling again takes no step. */
    method Reconcile(desiredPorts: seq<int>, listen: int -> bool, ghost w: World, ghost me: nat)
      returns (failed: bool, ghost steps: seq<Step>)
      requires Agrees(w, me, this)
      modifies this`active, pool
      ensures Runs(w, steps) && Agrees(Exec(w, steps), me, this) && OnlyBy(steps, me)
      ensures forall p :: p in active <==> p in desiredPorts && p !in reserved && (p in old(active) || listen(p))
      ensures failed <==> exists p | p in desiredPorts :: p !in reserved && p !in old(active) && !listen(p)
      ensures forall s | s in steps && s.Open? :: s.port in desiredPorts && s.port !in reserved && s.port !in old(active)
      ensures forall s | s in steps && s.Drop? :: s.port !in desiredPorts || s.port in reserved
      ensures (forall p :: p in old(active) <==> p in desiredPorts && p !in reserved) ==> steps == []
    {
      hide Runs, Exec, Apply, Enabled, OnlyBy;
      var desired := Refuse(desiredPorts);
      ghost var before := active;
      ghost var openings, closings;
      failed, openings := OpenMissing(desired, listen, w, me);
      closings := CloseStale(desired, Exec(w, openings), me);
      RunsConcat(w, openings, closings);
      OnlyByConcat(openings, closings, me);
      steps := openings + closings;
      SameSet(before, desired, desiredPorts, reserved);
    }

    /** The loop that refuses reserved ports. */
    method Refuse(desiredPorts: seq<int>) returns (desired: set<int>)
      ensures forall p :: p in desired <==> p in desiredPorts && p !in reserved
    {
      desired := {};
      for i := 0 to |desiredPorts|
        invariant forall p :: p in desired <==> p in desiredPorts[..i] && p !in reserved
      {
        var p := desiredPorts[i];
        assert desiredPorts[..i + 1] == desiredPorts[..i] + [p];
        if p !in reserved { desired := desired + {p}; }
      }
      assert desiredPorts[..|desiredPorts|] == desiredPorts;
    }

    /** The first half of `Close`, under the lock: every entry is deleted. */
    method TakeAll(ghost w: World, ghost me: nat) returns (ls: seq<int>, ghost steps: seq<Step>)
      requires Agrees(w, me, this)
      modifies this`active
      ensures Runs(w, steps) && Agrees(Exec(w, steps), me, this) && OnlyBy(steps, me)
      ensures multiset(ls) == multiset(old(active)) && active == {}
      ensures Exec(w, steps).apps[me].closing == w.apps[me].closing + multiset(ls)
      ensures ls == [] ==> steps == []
    {
      assert Runs(w, []) && Exec(w, []) == w && OnlyBy([], me);
      hide Runs, Exec, Apply, Enabled, OnlyBy;
      ls, steps := [], [];
      while active != {}
        invariant multiset(ls) + multiset(active) == multiset(old(active))
        invariant Runs(w, steps) && Agrees(Exec(w, steps), me, this) && OnlyBy(steps, me)
        invariant Exec(w, steps).apps[me].closing == w.apps[me].closing + multiset(ls)
        invariant ls == [] ==> steps == []
        decreases active
      {
        var p := Pick(active);
        DropsOne(w, steps, me, p);
        steps := steps + [Drop(me, p)];
        active := active - {p};
        ls := ls + [p];
      }
    }

    /** The second half of `Close`: every listener taken is closed. */
    method ReleaseAll(ls: seq<int>, ghost w: World, ghost me: nat) returns (ghost steps: seq<Step>)
      requires Agrees(w, me, this) && multiset(ls) <= w.apps[me].closing
      modifies pool
      ensures Runs(w, steps) && Agrees(Exec(w, steps), me, this) && OnlyBy(steps, me)
      ensures pool.refs == old(pool.refs) - multiset(ls)
      ensures ls == [] ==> steps == []
    {
      assert Runs(w, []) && Exec(w, []) == w && OnlyBy([], me);
      hide Runs, Exec, Apply, Enabled, OnlyBy;
      steps := [];
      for i := 0 to |ls|
        invariant pool.refs == old(pool.refs) - multiset(ls[..i])
        invariant Runs(w, steps) && Agrees(Exec(w, steps), me, this) && OnlyBy(steps, me)
        invariant multiset(ls[i..]) <= Exec(w, steps).apps[me].closing
        invariant i == 0 ==> steps == []
      {
        var p := ls[i];
        TakeNext(ls, i, Exec(w, steps).apps[me].closing, old(pool.refs));
        steps := StopListener(p, w, steps, me);
      }
      assert ls[..|ls|] == ls;
    }

    /** `Close`. Every reference of this instance is given back once; with nothing
        active, as in the second Stop that Cleanup makes, no step is taken at all. */
    method Close(ghost w: World, ghost me: nat) returns (ghost steps: seq<Step>)
      requires Agrees(w, me, this)
      modifies this`active, pool
      ensures Runs(w, steps) && Agrees(Exec(w, steps), me, this) && OnlyBy(steps, me)
      ensures active == {} && pool.refs == old(pool.refs) - multiset(old(active))
      ensures old(active) == {} ==> steps == []
    {
      hide Runs, Exec, Apply, Enabled, OnlyBy;
      var ls;
      ghost var dropped, released;
      ls, dropped := TakeAll(w, me);
      released := ReleaseAll(ls, Exec(w, dropped), me);
      RunsConcat(w, dropped, released);
      OnlyByConcat(dropped, released, me);
      steps := dropped + released;
    }
  }

  lemma SameSet(a: set<int>, b: set<int>, ports: seq<int>, reserved: set<int>)
    requires forall p :: p in b <==> p in ports && p !in reserved
    ensures (forall p :: p in a <==> p in ports && p !in reserved) ==> a == b
  {
    if forall p :: p in a <==> p in ports && p !in reserved {
      forall p
        ensures p in a <==> p in b
      {
        assert p in b <==> p in ports && p !in reserved;
      }
    }
  }

  lemma TakeNext(ls: seq<int>, i: nat, closing: multiset<int>, refs: multiset<int>)
    requires i < |ls| && multiset(ls[i..]) <= closing
    ensures ls[i] in closing && multiset(ls[i + 1..]) <= closing - multiset{ls[i]}
    ensures refs - multiset(ls[..i]) - multiset{ls[i]} == refs - multiset(ls[..i + 1])
  {
    assert ls[i..] == [ls[i]] + ls[i + 1..] && ls[..i + 1] == ls[..i] + [ls[i]];
    assert ls[i] in multiset(ls[i..]);
  }

  lemma OnlyByConcat(a: seq<Step>, b: seq<Step>, me: nat)
    requires OnlyBy(a, me) && OnlyBy(b, me)
    ensures OnlyBy(a + b, me)
  {
  }

  // What each step does to the instance that takes it.

  lemma Opens(w: World, steps: seq<Step>, a: nat, p: int)
    requires Runs(w, steps) && a < |Exec(w, steps).apps| && p !in Exec(w, steps).apps[a].active
    ensures Runs(w, steps + [Open(a, p)])
    ensures OnlyBy(steps, a) ==> OnlyBy(steps + [Open(a, p)], a)
    ensures var w1, w2 := Exec(w, steps), Exec(w, steps + [Open(a, p)]);
            && |w2.apps| == |w1.apps| && w2.pool == w1.pool + multiset{p}
            && w2.apps[a].active == w1.apps[a].active + {p} && w2.apps[a].closing == w1.apps[a].closing
  {
    Then(w, steps, Open(a, p));
  }

  lemma DropsOne(w: World, steps: seq<Step>, a: nat, p: int)
    requires Runs(w, steps) && a < |Exec(w, steps).apps| && p in Exec(w, steps).apps[a].active
    ensures Runs(w, steps + [Drop(a, p)])
    ensures OnlyBy(steps, a) ==> OnlyBy(steps + [Drop(a, p)], a)
    ensures var w1, w2 := Exec(w, steps), Exec(w, steps + [Drop(a, p)]);
            && |w2.apps| == |w1.apps| && w2.pool == w1.pool
            && w2.apps[a].active == w1.apps[a].active - {p} && w2.apps[a].closing == w1.apps[a].closing + multiset{p}
  {
    Then(w, steps, Drop(a, p));
  }

  lemma Releases(w: World, steps: seq<Step>, a: nat, p: int)
    requires Runs(w, steps) && a < |Exec(w, steps).apps| && p in Exec(w, steps).apps[a].closing
    ensures Runs(w, steps + [Release(a, p)])
    ensures OnlyBy(steps, a) ==> OnlyBy(steps + [Release(a, p)], a)
    ensures var w1, w2 := Exec(w, steps), Exec(w, steps + [Release(a, p)]);
            && |w2.apps| == |w1.apps| && w2.pool == w1.pool - multiset{p}
            && w2.apps[a].active == w1.apps[a].active && w2.apps[a].closing == w1.apps[a].closing - multiset{p}
  {
    Then(w, steps, Release(a, p));
  }

  // ----- The lifecycle --------------------------------------------------------

  lemma {:induction false} OthersUntouched(w: World, steps: seq<Step>, me: nat, other: nat)
    requires Runs(w, steps) && OnlyBy(steps, me) && me != other && other < |w.apps|
    ensures |Exec(w, steps).apps| == |w.apps| && Exec(w, steps).apps[other] == w.apps[other]
    decreases |steps|
  {
    if steps != [] {
      assert steps[0] in steps;
      assert forall s | s in steps[1..] :: s in steps;
      OthersUntouched(Apply(w, steps[0]), steps[1..], me, other);
    }
  }

  lemma OnlyByNeverDrops(steps: seq<Step>, me: nat, other: nat, p: int)
    requires OnlyBy(steps, me) && me != other
    ensures NeverDrops(steps, other, p)
  {
    assert forall i | 0 <= i < |steps| :: steps[i] in steps;
  }

  lemma RunsNothing(w: World, me: nat)
    ensures Runs(w, []) && Exec(w, []) == w && OnlyBy([], me)
  {
  }

  /** A config reload as Caddy runs it: Start of the incoming instance opens the restored
      ports, then the outgoing instance is stopped, then cleaned up, which stops it
      again. Every port both listen on keeps a reference at every step in between, and
      the second stop takes no step. */
  method Reload(outgoing: TCPListenerManager, incoming: TCPListenerManager, ports: seq<int>, listen: int -> bool,
                ghost w: World, ghost a: nat, ghost b: nat)
    returns (ghost start: seq<Step>, ghost stop: seq<Step>, ghost cleanup: seq<Step>)
    requires outgoing != incoming && outgoing.pool == incoming.pool && a != b
    requires Inv(w) && Agrees(w, a, outgoing) && Agrees(w, b, incoming)
    modifies outgoing`active, incoming`active, outgoing.pool
    ensures Runs(w, start + stop) && cleanup == []
    ensures forall p, i | p in old(outgoing.active) && p in incoming.active && 0 <= i <= |start + stop| ::
              Runs(w, (start + stop)[..i]) && Exec(w, (start + stop)[..i]).pool[p] >= 1
    ensures Agrees(Exec(w, start + stop), b, incoming) && outgoing.active == {}
    ensures ports != [] ==> forall p :: p in incoming.active <==>
              p in ports && p !in incoming.reserved && (p in old(incoming.active) || listen(p))
    ensures ports == [] ==> incoming.active == old(incoming.active)
    ensures forall p | p in ports && p !in incoming.reserved && listen(p) :: p in incoming.active
  {
    hide Runs, Exec, Inv, OnlyBy, NeverDrops;
    start := [];
    RunsNothing(w, b);
    if |ports| > 0 {
      var failed;
      failed, start := incoming.Reconcile(ports, listen, w, b);
    }
    ghost var w1 := Exec(w, start);
    OthersUntouched(w, start, b, a);
    stop := outgoing.Close(w1, a);
    OthersUntouched(w1, stop, a, b);
    RunsConcat(w, start, stop);
    cleanup := outgoing.Close(Exec(w1, stop), a);
    RunsNothing(Exec(w1, stop), a);
    forall p, i | p in old(outgoing.active) && p in incoming.active && 0 <= i <= |start + stop|
      ensures Runs(w, (start + stop)[..i]) && Exec(w, (start + stop)[..i]).pool[p] >= 1
    {
      OnlyByNeverDrops(start, b, a, p);
      OnlyByNeverDrops(stop, a, b, p);
      ReloadHandoff(w, start, stop, a, b, p, i);
    }
  }
}
