/** Sidecar upstream ports: allocation and synchronisation (upstream_manager.go). */
module UpstreamManager {
  import opened Prelude
  import opened PortProbe

  type Allocations = map<string, int>

  /** The configured range and the 32-bit FNV-1a hash of a service name. */
  datatype Range = Range(start: int, end: int, hash: string -> nat)
  {
    function Base(name: string): int { BasePort(start, end, hash(name)) }

    /** `allocatePort` on values: the remembered port, or where the probe lands. */
    function Allocate(m: Allocations, name: string): Allocations {
      if name in m then m else m[name := Landing(start, end, m.Values, Base(name))]
    }

    function AllocateAll(m: Allocations, names: seq<string>): Allocations
      decreases |names|
    {
      if names == [] then m else AllocateAll(Allocate(m, names[0]), names[1..])
    }

    /** `allocatePort` returns. */
    predicate Returns(m: Allocations, name: string) { name in m || Ends(start, end, m.Values, Base(name)) }

    /** It returns for each of these names in turn. */
    predicate AllReturn(m: Allocations, names: seq<string>)
      decreases |names|
    {
      names == [] || (Returns(m, names[0]) && AllReturn(Allocate(m, names[0]), names[1..]))
    }

    /** No two services share a port, and all ports are in range. */
    ghost predicate Good(m: Allocations) {
      && (forall x | x in m :: InRange(start, end, m[x]))
      && (forall x, y | x in m && y in m && m[x] == m[y] :: x == y)
    }
  }

  lemma {:induction false} ValuesBound(m: Allocations)
    ensures |m.Values| <= |m|
    decreases |m|
  {
    if m != map[] {
      var x :| x in m;
      var rest := m - {x};
      ValuesBound(rest);
      assert m.Values <= rest.Values + {m[x]} by {
        forall v | v in m.Values
          ensures v in rest.Values + {m[x]}
        {
          var y :| y in m && m[y] == v;
          if y != x { assert y in rest && rest[y] == v; }
        }
      }
      SubsetSize(m.Values, rest.Values + {m[x]});
      assert |rest| == |m| - 1;
    }
  }

  lemma {:induction false} SubsetSize<T>(a: set<T>, b: set<T>)
    requires a <= b
    ensures |a| <= |b|
  {
    assert b == a + (b - a);
  }

  /** One allocation below capacity keeps ports distinct and in range, and moves none. */
  lemma AllocateKeepsGood(r: Range, m: Allocations, name: string)
    requires r.start < r.end && r.Good(m) && (name in m || |m| < r.end - r.start)
    ensures var m' := r.Allocate(m, name);
            && r.Good(m') && m'.Keys == m.Keys + {name}
            && (forall x | x in m :: m'[x] == m[x])
  {
    if name !in m {
      ValuesBound(m);
      Pigeonhole(r.start, r.end, m.Values);
      FindsFree(r.start, r.end, m.Values, r.hash(name));
    }
  }

  function Elements(names: seq<string>): set<string> { set x | x in names }

  lemma FirstFits(keys: set<string>, names: seq<string>)
    requires names != []
    ensures keys + Elements(names) == keys + {names[0]} + Elements(names[1..])
    ensures names[0] !in keys ==> |keys| < |keys + Elements(names)|
  {
    assert names == [names[0]] + names[1..];
    SubsetSize(keys + {names[0]}, keys + Elements(names));
  }

  /** Over every sequence of requests that fits the range, all services get distinct
      ports in range, and whoever has a port keeps it. */
  lemma {:induction false} AllocateAllKeepsGood(r: Range, m: Allocations, names: seq<string>)
    requires r.start < r.end && r.Good(m)
    requires |m.Keys + Elements(names)| <= r.end - r.start
    ensures var m' := r.AllocateAll(m, names);
            && r.Good(m') && m'.Keys == m.Keys + Elements(names)
            && (forall x | x in m :: m'[x] == m[x])
    decreases |names|
  {
    if names != [] {
      hide Elements, Range.Good, Range.Allocate;
      FirstFits(m.Keys, names);
      AllocateKeepsGood(r, m, names[0]);
      AllocateAllKeepsGood(r, r.Allocate(m, names[0]), names[1..]);
    }
  }

  // ----- The manager ----------------------------------------------------------

  /** A registered upstream: destination and local bind port. */
  datatype Upstream = Upstream(name: string, port: int)

  /** The map built from the registration; the last entry of a name counts. */
  function AsMap(us: seq<Upstream>): Allocations {
    if us == [] then map[] else AsMap(us[..|us| - 1])[us[|us| - 1].name := us[|us| - 1].port]
  }

  /** Of several entries of a name the last one counts. */
  lemma {:induction false} AsMapExactly(us: seq<Upstream>, name: string, port: int)
    ensures (name in AsMap(us) && AsMap(us)[name] == port) <==>
            exists i | 0 <= i < |us| :: us[i] == Upstream(name, port) && forall j | i < j < |us| :: us[j].name != name
    ensures name in AsMap(us) <==> exists i | 0 <= i < |us| :: us[i].name == name
  {
    if us != [] {
      var n := |us| - 1;
      AsMapExactly(us[..n], name, port);
      assert forall i | 0 <= i < n :: us[..n][i] == us[i];
      if us[n].name != name {
        if i :| 0 <= i < n && us[..n][i] == Upstream(name, port) && forall j | i < j < n :: us[..n][j].name != name {
          assert us[i] == Upstream(name, port) && forall j | i < j < |us| :: us[j].name != name;
        }
        if i :| 0 <= i < |us| && us[i] == Upstream(name, port) && forall j | i < j < |us| :: us[j].name != name {
          assert us[..n][i] == Upstream(name, port) && forall j | i < j < n :: us[..n][j].name != name;
        }
      } else {
        assert us[n] == Upstream(name, us[n].port);
      }
    }
  }

  /** What a registering sync leaves: the registration and the allocation map, for one
      order in which the missing services are visited. */
  datatype Synced = Synced(registered: Allocations, allocations: Allocations)

  function Sync(r: Range, current: Allocations, m: Allocations, desired: set<string>, order: seq<string>): Synced {
    var m1 := r.AllocateAll(m, order);
    var stale := current.Keys - desired;
    Synced(current + Chosen(m1, order) - stale, m1 - stale)
  }

  /** The entries of these names. */
  function Chosen(m: Allocations, names: seq<string>): Allocations { map x | x in names && x in m :: m[x] }

  lemma ChosenSnoc(current: Allocations, m: Allocations, names: seq<string>, name: string, p: int)
    ensures current + Chosen(m[name := p], names + [name]) == (current + Chosen(m, names))[name := p]
    ensures Elements(names + [name]) == Elements(names) + {name}
  {
  }

  class UpstreamManager {
    const range: Range
    var allocations: Allocations

    constructor (range: Range)
      ensures this.range == range && allocations == map[]
    {
      this.range, allocations := range, map[];
    }

    method RestoreAllocations(saved: Allocations)
      modifies this
      ensures allocations == old(allocations) + saved
    {
      allocations := allocations + saved;
    }

    /** The probe loop itself, over any range on which it ends. */
    method Probe(used: set<int>, basePort: int) returns (port: int)
      requires basePort >= range.start && (range.start < range.end ==> basePort < range.end)
      requires Ends(range.start, range.end, used, basePort)
      ensures port == Landing(range.start, range.end, used, basePort)
    {
      port := basePort;
      ghost var k := 0;
      while port in used
        invariant range.start < range.end ==>
                    && k < range.end - range.start && port == Nth(range.start, range.end, basePort, k)
                    && Found(range.start, range.end, used, basePort, k) == Found(range.start, range.end, used, basePort, 0)
        invariant range.start >= range.end && k > 0 ==> port == range.start && basePort in used && range.start !in used
        invariant k == 0 ==> port == basePort
        decreases if range.start < range.end then range.end - range.start - k else 1 - k
      {
        if range.start < range.end { MoveNth(range.start, range.end, basePort, k); }
        port := port + 1;
        if port >= range.end { port := range.start; }
        if port == basePort { break; }
        k := k + 1;
      }
    }

    method AllocatePort(name: string) returns (port: int)
      requires range.Returns(allocations, name)
      modifies this
      ensures name in allocations && port == allocations[name]
      ensures allocations == old(allocations)[name := port]
      ensures name in old(allocations) ==> port == old(allocations)[name]
      ensures allocations == range.Allocate(old(allocations), name)
      ensures name !in old(allocations) ==>
                var base := range.start + range.hash(name) % (if range.end > range.start then range.end - range.start else 10000);
                base !in old(allocations).Values ==> port == base
    {
      if name in allocations {
        port := allocations[name];
        assert allocations == allocations[name := port];
        return;
      }
      var rangeSize := range.end - range.start;
      if rangeSize <= 0 { rangeSize := 10000; }
      var basePort := range.start + range.hash(name) % rangeSize;
      if range.start < range.end { assert Nth(range.start, range.end, basePort, 0) == basePort; }
      port := Probe(allocations.Values, basePort);
      allocations := allocations[name := port];
    }

    /** The loop over the services to add, in the order of a Go map. */
    method AddAll(toAdd: set<string>, current: Allocations) returns (upstreams: Allocations, ghost order: seq<string>)
      requires toAdd !! current.Keys
      requires forall names | Elements(names) <= toAdd :: range.AllReturn(allocations, names)
      modifies this
      ensures Elements(order) == toAdd && allocations == range.AllocateAll(old(allocations), order)
      ensures upstreams == current + Chosen(allocations, order)
    {
      assert current + Chosen(allocations, []) == current && Elements([]) == toAdd - toAdd;
      hide Elements, Chosen, Range.AllocateAll, Range.Allocate, Range.AllReturn, Range.Returns;
      upstreams, order := current, [];
      var todo := toAdd;
      while todo != {}
        invariant todo <= toAdd && Elements(order) == toAdd - todo
        invariant allocations == range.AllocateAll(old(allocations), order)
        invariant upstreams == current + Chosen(allocations, order)
        decreases todo
      {
        var name := Pick(todo);
        assert toAdd - (todo - {name}) == (toAdd - todo) + {name};
        todo := todo - {name};
        AllocateAllSnoc(range, old(allocations), order, name);
        ElementsSnoc(order, name);
        assert range.AllReturn(old(allocations), order + [name]);
        ghost var m := allocations;
        var port := AllocatePort(name);
        ChosenSnoc(current, m, order, name, port);
        upstreams := upstreams[name := port];
        order := order + [name];
      }
    }

    /** The loop over the stale services: forget both the upstream and its port. */
    method RemoveAll(toRemove: set<string>, current: Allocations) returns (upstreams: Allocations)
      modifies this
      ensures upstreams == current - toRemove && allocations == old(allocations) - toRemove
    {
      upstreams := current;
      var todo := toRemove;
      while todo != {}
        invariant todo <= toRemove
        invariant upstreams == current - (toRemove - todo) && allocations == old(allocations) - (toRemove - todo)
        decreases todo
      {
        var name := Pick(todo);
        todo := todo - {name};
        upstreams := upstreams - {name};
        allocations := allocations - {name};
      }
    }

    /** `SyncUpstreams`. `reply` is the registration read from the agent, `registerOk`
        whether writing it back succeeds; `registered` is what the agent then holds. It has
        to return for this to mean anything: in whatever order the missing services are
        visited, no probe spins, as none does over a proper range (`ProperRangeReturns`). */
    method SyncUpstreams(desired: set<string>, reply: Option<seq<Upstream>>, registerOk: bool)
      returns (changed: bool, failed: bool, registered: Option<Allocations>, ghost order: seq<string>)
      requires reply.Some? ==> forall names | Elements(names) <= desired - AsMap(reply.value).Keys ::
                 range.AllReturn(allocations, names)
      modifies this
      ensures reply.None? ==> failed && !changed && allocations == old(allocations)
      ensures reply.Some? && AsMap(reply.value).Keys == desired ==>
                !failed && !changed && allocations == old(allocations)
      ensures reply.Some? && AsMap(reply.value).Keys != desired ==>
                && Elements(order) == desired - AsMap(reply.value).Keys
                && allocations == Sync(range, AsMap(reply.value), old(allocations), desired, order).allocations
                && changed == registerOk && failed == !registerOk
      ensures registered == if changed
                            then Some(Sync(range, AsMap(reply.value), old(allocations), desired, order).registered)
                            else None
    {
      changed, failed, registered, order := false, false, None, [];
      if reply.None? { failed := true; return; }
      var current := BuildMap(reply.value);
      var toAdd, toRemove := desired - current.Keys, current.Keys - desired;
      if toAdd == {} && toRemove == {} { return; }
      hide Elements, Chosen, Range.AllocateAll, Range.Allocate, Range.AllReturn, AsMap;
      var upstreams;
      upstreams, order := AddAll(toAdd, current);
      upstreams := RemoveAll(toRemove, upstreams);
      if !registerOk { failed := true; return; }
      changed, registered := true, Some(upstreams);
    }
  }

  /** Across a restart: an instance that starts from saved allocations gives a service with
      a saved port that port, and another one the port the saving instance would. */
  method Restarted(range: Range, saved: Allocations, name: string) returns (manager: UpstreamManager, port: int)
    requires range.Returns(saved, name)
    ensures fresh(manager) && manager.range == range
    ensures name in saved ==> port == saved[name]
    ensures manager.allocations == range.Allocate(saved, name)
  {
    manager := new UpstreamManager(range);
    manager.RestoreAllocations(saved);
    assert manager.allocations == saved;
    port := manager.AllocatePort(name);
  }

  method BuildMap(us: seq<Upstream>) returns (m: Allocations)
    ensures m == AsMap(us)
  {
    m := map[];
    for i := 0 to |us|
      invariant m == AsMap(us[..i])
    {
      assert us[..i + 1][..i] == us[..i];
      m := m[us[i].name := us[i].port];
    }
    assert us[..|us|] == us;
  }

  lemma ElementsSnoc(names: seq<string>, name: string)
    ensures Elements(names + [name]) == Elements(names) + {name}
  {
  }

  /** Over a proper range every sequence of allocations returns. */
  lemma {:induction false} ProperRangeReturns(r: Range, m: Allocations, names: seq<string>)
    requires r.start < r.end
    ensures r.AllReturn(m, names)
    decreases |names|
  {
    if names != [] { ProperRangeReturns(r, r.Allocate(m, names[0]), names[1..]); }
  }

  lemma {:induction false} AllocateAllSnoc(r: Range, m: Allocations, names: seq<string>, name: string)
    ensures r.AllocateAll(m, names + [name]) == r.Allocate(r.AllocateAll(m, names), name)
    ensures r.AllReturn(m, names + [name]) ==> r.Returns(r.AllocateAll(m, names), name)
    decreases |names|
  {
    if names == [] {
      assert names + [name] == [name] && [name][1..] == [];
    } else {
      assert (names + [name])[1..] == names[1..] + [name];
      AllocateAllSnoc(r, r.Allocate(m, names[0]), names[1..], name);
    }
  }

  // ----- What a sync guarantees ------------------------------------------------

  lemma {:induction false} AllocateAllKeys(r: Range, m: Allocations, names: seq<string>)
    ensures r.AllocateAll(m, names).Keys == m.Keys + Elements(names)
    decreases |names|
  {
    if names != [] {
      hide Range.Allocate, Elements;
      AllocateAllKeys(r, r.Allocate(m, names[0]), names[1..]);
      FirstFits(m.Keys, names);
    }
  }

  /** A registering sync leaves exactly the desired names, and retained services keep
      the ports they are registered with. */
  lemma SyncRegistersDesired(r: Range, current: Allocations, m: Allocations, desired: set<string>, order: seq<string>)
    requires Elements(order) == desired - current.Keys
    ensures var after := Sync(r, current, m, desired, order).registered;
            after.Keys == desired && forall x | x in desired && x in current :: after[x] == current[x]
  {
    hide Range.AllocateAll;
    AllocateAllKeys(r, m, order);
    assert forall x :: x in order <==> x in Elements(order);
  }

  /** What is remembered afterwards: everything but the services removed, each with the port
      it had or was given. */
  lemma SyncRemembers(r: Range, current: Allocations, m: Allocations, desired: set<string>, order: seq<string>, x: string)
    requires Elements(order) == desired - current.Keys
    ensures var after := Sync(r, current, m, desired, order).allocations;
            && (x in after <==> (x in m || x in desired - current.Keys) && !(x in current && x !in desired))
            && (x in after && x in m ==> after[x] == m[x])
            && (x in after && x in desired - current.Keys ==>
                  var registered := Sync(r, current, m, desired, order).registered;
                  x in registered && registered[x] == after[x])
  {
    hide Range.AllocateAll;
    AllocateAllKeys(r, m, order);
    if x in m { AllocateAllKeeps(r, m, order, x); }
    assert x in order <==> x in Elements(order);
  }

  /** Registered ports are the allocated ones. */
  ghost predicate Agree(registered: Allocations, m: Allocations) {
    forall x | x in registered :: x in m && m[x] == registered[x]
  }

  lemma GoodSubset(r: Range, m: Allocations, gone: set<string>)
    requires r.Good(m)
    ensures r.Good(m - gone)
  {
  }

  /** If registration and allocations agreed and the range is large enough for the old
      and new services together, they agree afterwards and no two services share a port. */
  lemma SyncKeepsAgreement(r: Range, current: Allocations, m: Allocations, desired: set<string>, order: seq<string>)
    requires r.start < r.end && Elements(order) == desired - current.Keys
    requires r.Good(m) && Agree(current, m) && |m.Keys + desired| <= r.end - r.start
    ensures var after := Sync(r, current, m, desired, order);
            && r.Good(after.allocations) && Agree(after.registered, after.allocations)
            && forall x, y | x in desired && y in desired && x != y ::
                 x in after.registered && y in after.registered && after.registered[x] != after.registered[y]
  {
    hide Range.AllocateAll;
    SubsetSize(m.Keys + Elements(order), m.Keys + desired);
    AllocateAllKeepsGood(r, m, order);
    var after := Sync(r, current, m, desired, order);
    GoodSubset(r, r.AllocateAll(m, order), current.Keys - desired);
    SyncRegistersDesired(r, current, m, desired, order);
    SyncAgrees(current, r.AllocateAll(m, order), order, current.Keys - desired);
    hide Sync, Elements, Chosen;
  }

  lemma SyncAgrees(current: Allocations, m: Allocations, order: seq<string>, stale: set<string>)
    requires Agree(current, m)
    ensures Agree(current + Chosen(m, order) - stale, m - stale)
  {
  }

  lemma {:induction false} AllocateAllKeeps(r: Range, m: Allocations, names: seq<string>, x: string)
    requires x in m
    ensures x in r.AllocateAll(m, names) && r.AllocateAll(m, names)[x] == m[x]
    decreases |names|
  {
    if names != [] { AllocateAllKeeps(r, r.Allocate(m, names[0]), names[1..], x); }
  }

  /** When registering fails the allocations have changed but the registration has not.
      They still agree exactly if nothing was being removed, whatever the range and
      however full it is. */
  lemma FailedRegisterAgreesExactly(r: Range, current: Allocations, m: Allocations, desired: set<string>, order: seq<string>)
    requires Agree(current, m)
    ensures Agree(current, Sync(r, current, m, desired, order).allocations) <==> current.Keys <= desired
  {
    hide Range.AllocateAll;
    forall x | x in m
      ensures x in r.AllocateAll(m, order) && r.AllocateAll(m, order)[x] == m[x]
    {
      AllocateAllKeeps(r, m, order, x);
    }
    var after := Sync(r, current, m, desired, order).allocations;
    if x :| x in current && x !in desired {
      assert x !in after;
    }
  }

  // ----- Runs ------------------------------------------------------------------

  /** How a sync meets the agent: the registration cannot be read, or it can and writing it
      back fails or succeeds. */
  datatype Outcome = Unreadable | NotWritten | Written

  /** One sync of a run: what is desired, the order the missing ones are visited in, and
      how it goes. */
  datatype Round = Round(desired: set<string>, order: seq<string>, outcome: Outcome)

  /** What the agent holds and what is remembered after a sync of any outcome. */
  function AfterRound(r: Range, s: Synced, round: Round): Synced {
    var after := Sync(r, s.registered, s.allocations, round.desired, round.order);
    if round.outcome == Unreadable || s.registered.Keys == round.desired then s
    else if round.outcome == Written then after
    else Synced(s.registered, after.allocations)
  }

  /** A sync that changes something fits the range, counting what is allocated when it
      starts, and removes nothing if writing fails. */
  ghost predicate RoundFits(r: Range, s: Synced, round: Round) {
    || round.outcome == Unreadable || s.registered.Keys == round.desired
    || (&& Elements(round.order) == round.desired - s.registered.Keys
        && |s.allocations.Keys + round.desired| <= r.end - r.start
        && (round.outcome == NotWritten ==> s.registered.Keys <= round.desired))
  }

  ghost predicate Fits(r: Range, s: Synced, rounds: seq<Round>)
    decreases |rounds|
  {
    rounds == [] || (RoundFits(r, s, rounds[0]) && Fits(r, AfterRound(r, s, rounds[0]), rounds[1..]))
  }

  ghost function RunRounds(r: Range, s: Synced, rounds: seq<Round>): Synced
    decreases |rounds|
  {
    if rounds == [] then s else RunRounds(r, AfterRound(r, s, rounds[0]), rounds[1..])
  }

  /** Registration and memory in step, ports distinct and in range. */
  ghost predicate InStep(r: Range, s: Synced) { r.Good(s.allocations) && Agree(s.registered, s.allocations) }

  lemma RoundKeepsAgreement(r: Range, s: Synced, round: Round)
    requires r.start < r.end && InStep(r, s) && RoundFits(r, s, round)
    ensures InStep(r, AfterRound(r, s, round))
  {
    hide Sync, Elements, Range.Good, Agree, Range.AllocateAll;
    if round.outcome != Unreadable && s.registered.Keys != round.desired {
      SyncKeepsAgreement(r, s.registered, s.allocations, round.desired, round.order);
      FailedRegisterAgreesExactly(r, s.registered, s.allocations, round.desired, round.order);
    }
  }

  /** Over every run of syncs, read or not, changing something or not, written or not, in
      which each fits, registration and allocations stay in step and ports stay distinct
      and in range. */
  lemma {:induction false} RunKeepsAgreement(r: Range, s: Synced, rounds: seq<Round>)
    requires r.start < r.end && InStep(r, s) && Fits(r, s, rounds)
    ensures InStep(r, RunRounds(r, s, rounds))
    decreases |rounds|
  {
    if rounds != [] {
      hide AfterRound, RoundFits, InStep;
      RoundKeepsAgreement(r, s, rounds[0]);
      RunKeepsAgreement(r, AfterRound(r, s, rounds[0]), rounds[1..]);
    }
  }

  /** What that can lead to: a removal whose registration failed, and then a sync that
      wants the service back together with one hashing to its port, end with both
      registered on that port. */
  lemma FailedRegisterCanCollide(r: Range)
    requires r.start < r.end
    ensures var p := r.Base("b");
            var failedSync := Sync(r, map["a" := p], map["a" := p], {}, []);
            var next := Sync(r, map["a" := p], failedSync.allocations, {"a", "b"}, ["b"]);
            && r.Good(map["a" := p]) && "a" in next.registered && "b" in next.registered
            && next.registered["a"] == next.registered["b"] == p
  {
    var p := r.Base("b");
    var m: Allocations := map["a" := p];
    var failedSync := Sync(r, m, m, {}, []);
    assert failedSync.allocations == map[];
    assert failedSync.allocations.Values == {};
    assert Nth(r.start, r.end, p, 0) == p;
    assert ["b"][1..] == [];
    assert r.AllocateAll(map[], ["b"]) == map["b" := p];
    assert "b" in ["b"];
  }
}
