/** The incremental health cache of watcher.go: what one response of the passing-checks
    query does to the cached instances, and what holds over every run of responses. */
module HealthCache {
  import opened Prelude

  datatype Instance = Instance(id: string, healthy: bool)

  /** One passing check; node-level checks carry no service name. */
  datatype Check = Check(serviceName: string, serviceID: string)

  type Passing = map<string, set<string>>

  function IDs(p: Passing, name: string): set<string> { if name in p then p[name] else {} }

  function CachedIDs(instances: seq<Instance>): set<string> { set i | i in instances :: i.id }

  datatype Cache = Cache(services: map<string, seq<Instance>>, last: Passing, routable: set<string>)

  // ----- Reading a response ----------------------------------------------------

  /** The passing IDs a response lists for a service. */
  predicate Lists(checks: seq<Check>, name: string, id: string) { name != "" && Check(name, id) in checks }

  method BuildPassing(checks: seq<Check>) returns (current: Passing)
    ensures forall name, id :: id in IDs(current, name) <==> Lists(checks, name, id)
  {
    current := map[];
    for i := 0 to |checks|
      invariant forall name, id :: id in IDs(current, name) <==> Lists(checks[..i], name, id)
    {
      var c := checks[i];
      assert checks[..i + 1] == checks[..i] + [c];
      assert forall name, id :: Lists(checks[..i + 1], name, id) <==>
                                Lists(checks[..i], name, id) || (name != "" && Check(name, id) == c);
      ghost var before := current;
      if c.serviceName != "" {
        current := current[c.serviceName := IDs(current, c.serviceName) + {c.serviceID}];
      }
      forall name, id
        ensures id in IDs(current, name) <==> Lists(checks[..i + 1], name, id)
      {
        assert id in IDs(before, name) <==> Lists(checks[..i], name, id);
      }
    }
    assert checks[..|checks|] == checks;
  }

  lemma SubsetOfSameSize<T>(a: set<T>, b: set<T>)
    requires a <= b && |a| == |b|
    ensures a == b
  {
    assert b == a + (b - a);
  }

  /** `sameIDSet` compares sizes and one inclusion; that is equality. */
  method SameIDSet(a: set<string>, b: set<string>) returns (same: bool)
    ensures same <==> a == b
  {
    if |a| != |b| { return false; }
    if !(a <= b) { return false; }
    SubsetOfSameSize(a, b);
    return true;
  }

  // ----- What a response does ---------------------------------------------------

  predicate Changed(c: Cache, current: Passing, name: string) {
    name in c.routable && IDs(c.last, name) != IDs(current, name)
  }

  /** An unknown ID, or nothing cached: the flags cannot be updated in place. */
  predicate Stuck(instances: seq<Instance>, ids: set<string>) { !(ids <= CachedIDs(instances)) || instances == [] }

  predicate NeedsRefetch(c: Cache, current: Passing, name: string) {
    Changed(c, current, name) && name in c.services && Stuck(c.services[name], IDs(current, name))
  }

  predicate InPlace(c: Cache, current: Passing, name: string) {
    Changed(c, current, name) && name in c.services && !NeedsRefetch(c, current, name)
  }

  function SetHealth(ids: set<string>): Instance -> Instance { (i: Instance) => i.(healthy := i.id in ids) }

  function Refreshed(instances: seq<Instance>, ids: set<string>): seq<Instance> { Image(instances, SetHealth(ids)) }

  /** The cache after a response, re-fetches aside. */
  function Respond(c: Cache, current: Passing): Cache {
    Cache(map name | name in c.services ::
            if InPlace(c, current, name) then Refreshed(c.services[name], IDs(current, name)) else c.services[name],
          current, c.routable)
  }

  class ConsulWatcher {
    var services: map<string, seq<Instance>>
    var lastPassingChecks: Passing
    var routableServices: set<string>

    ghost function State(): Cache
      reads this
    {
      Cache(services, lastPassingChecks, routableServices)
    }

    /** Flags of one service, instance by instance. */
    method RefreshService(instances: seq<Instance>, passing: set<string>) returns (out: seq<Instance>, anyChanged: bool)
      ensures out == Refreshed(instances, passing) && (anyChanged <==> out != instances)
    {
      out, anyChanged := instances, false;
      for i := 0 to |instances|
        invariant |out| == |instances|
        invariant forall k | 0 <= k < i :: out[k] == SetHealth(passing)(instances[k])
        invariant forall k | i <= k < |instances| :: out[k] == instances[k]
        invariant anyChanged <==> exists k | 0 <= k < i :: out[k] != instances[k]
      {
        var nowHealthy := instances[i].id in passing;
        if instances[i].healthy != nowHealthy {
          out := out[i := instances[i].(healthy := nowHealthy)];
          anyChanged := true;
        }
      }
    }

    /** The first loop under the lock: which services to look at. */
    method FindChanged(current: Passing) returns (changed: set<string>)
      ensures forall name :: name in changed <==> Changed(State(), current, name)
    {
      var all := lastPassingChecks.Keys + current.Keys;
      changed := {};
      var todo := all;
      while todo != {}
        invariant todo <= all
        invariant forall name :: name in changed <==> name in all - todo && Changed(State(), current, name)
        decreases todo
      {
        var name := Pick(todo);
        todo := todo - {name};
        if name in routableServices {
          var same := SameIDSet(IDs(lastPassingChecks, name), IDs(current, name));
          if !same { changed := changed + {name}; }
        }
      }
    }

    /** One changed service in the second loop. */
    method UpdateService(name: string, current: Passing) returns (flipped: bool, refetch: bool)
      modifies this`services
      ensures var cached := name in old(services);
              var stuck := cached && Stuck(old(services)[name], IDs(current, name));
              && refetch == stuck
              && services == (if cached && !stuck
                              then old(services)[name := Refreshed(old(services)[name], IDs(current, name))]
                              else old(services))
              && (flipped <==> cached && services[name] != old(services)[name])
    {
      flipped, refetch := false, false;
      if name in services {
        var passingIDs := IDs(current, name);
        if !(passingIDs <= CachedIDs(services[name])) || services[name] == [] {
          refetch := true;
        } else {
          var out;
          out, flipped := RefreshService(services[name], passingIDs);
          services := services[name := out];
        }
      }
    }

    /** The diff/update section of `watchHealthState`. */
    method HandlePassing(current: Passing) returns (changes: set<string>, refetch: set<string>)
      modifies this
      ensures State() == Respond(old(State()), current)
      ensures forall name :: name in refetch <==> NeedsRefetch(old(State()), current, name)
      ensures forall name :: name in changes <==> name in services && services[name] != old(services)[name]
    {
      ghost var c := State();
      var changed := FindChanged(current);
      lastPassingChecks := current;
      changes, refetch := {}, {};
      var todo := changed;
      hide Part;
      while todo != {}
        invariant todo <= changed && lastPassingChecks == current && routableServices == c.routable
        invariant Part(c, current, changed - todo) == Parts(services, changes, refetch)
        decreases todo
      {
        var name := Pick(todo);
        PartStep(c, current, changed - todo, name);
        assert changed - (todo - {name}) == changed - todo + {name};
        todo := todo - {name};
        var flipped, stuck := UpdateService(name, current);
        if stuck { refetch := refetch + {name}; }
        if flipped { changes := changes + {name}; }
      }
      assert changed - {} == changed;
    }
  }

  /** Intermediate results of the second loop, after the services in `done`. */
  datatype Parts = Parts(services: map<string, seq<Instance>>, changes: set<string>, refetch: set<string>)

  ghost function Part(c: Cache, current: Passing, done: set<string>): Parts {
    Parts(map n | n in c.services ::
            if n in done && InPlace(c, current, n) then Refreshed(c.services[n], IDs(current, n)) else c.services[n],
          set n | n in done && InPlace(c, current, n) && Refreshed(c.services[n], IDs(current, n)) != c.services[n],
          set n | n in done && NeedsRefetch(c, current, n))
  }

  lemma PartStep(c: Cache, current: Passing, done: set<string>, name: string)
    requires Changed(c, current, name) && name !in done
    ensures var p := Part(c, current, done);
            var q := Part(c, current, done + {name});
            && (name in p.services <==> name in c.services)
            && (name in c.services ==> p.services[name] == c.services[name])
            && (if name !in c.services then q == p
                else if Stuck(c.services[name], IDs(current, name))
                then q == p.(refetch := p.refetch + {name})
                else
                  var out := Refreshed(c.services[name], IDs(current, name));
                  q == Parts(p.services[name := out],
                             if out != c.services[name] then p.changes + {name} else p.changes, p.refetch))
  {
    hide Refreshed, Stuck, Part, Changed;
    PartServices(c, current, done, name);
    PartSets(c, current, done, name);
    assert NeedsRefetch(c, current, name) <==> name in c.services && Stuck(c.services[name], IDs(current, name));
  }

  lemma PartServices(c: Cache, current: Passing, done: set<string>, name: string)
    requires name !in done
    ensures var p, q := Part(c, current, done).services, Part(c, current, done + {name}).services;
            && p.Keys == c.services.Keys && (name in c.services ==> p[name] == c.services[name])
            && q == if InPlace(c, current, name) then p[name := Refreshed(c.services[name], IDs(current, name))] else p
  {
    hide Refreshed, NeedsRefetch, Changed;
  }

  lemma PartSets(c: Cache, current: Passing, done: set<string>, name: string)
    requires name !in done
    ensures var p, q := Part(c, current, done), Part(c, current, done + {name});
            && q.refetch == (if NeedsRefetch(c, current, name) then p.refetch + {name} else p.refetch)
            && q.changes == if InPlace(c, current, name)
                               && Refreshed(c.services[name], IDs(current, name)) != c.services[name]
                            then p.changes + {name} else p.changes
  {
    hide Refreshed, NeedsRefetch, Changed;
  }

  // ----- The cache follows the newest response ----------------------------------

  /** Every cached instance of the service is flagged as the last response has it. */
  ghost predicate AgreesAt(c: Cache, name: string) {
    name in c.services && forall k | 0 <= k < |c.services[name]| ::
      c.services[name][k].healthy <==> c.services[name][k].id in IDs(c.last, name)
  }

  ghost predicate Agrees(c: Cache) { forall name | name in c.services && name in c.routable :: AgreesAt(c, name) }

  ghost predicate OnlyCached(c: Cache, current: Passing) {
    forall name | name in c.services && name in c.routable :: IDs(current, name) <= CachedIDs(c.services[name])
  }

  /** A service that agreed and is not waiting for a re-fetch agrees with the response. */
  lemma ResponseKeepsAgreement(c: Cache, current: Passing, name: string)
    requires name in c.routable && AgreesAt(c, name) && !NeedsRefetch(c, current, name)
    ensures AgreesAt(Respond(c, current), name)
  {
  }

  lemma RefreshedIDs(instances: seq<Instance>, ids: set<string>)
    ensures CachedIDs(Refreshed(instances, ids)) == CachedIDs(instances)
  {
    var out := Refreshed(instances, ids);
    assert forall k | 0 <= k < |instances| :: out[k].id == instances[k].id;
    forall i | i in instances
      ensures i.id in CachedIDs(out)
    {
      var k :| 0 <= k < |instances| && instances[k] == i;
      assert out[k] in out;
    }
  }

  lemma RespondKeepsIDs(c: Cache, current: Passing, other: Passing)
    requires OnlyCached(c, other)
    ensures OnlyCached(Respond(c, current), other)
  {
    forall name | name in c.services && name in c.routable
      ensures IDs(other, name) <= CachedIDs(Respond(c, current).services[name])
    {
      RefreshedIDs(c.services[name], IDs(current, name));
    }
  }

  lemma RespondAgrees(c: Cache, current: Passing)
    requires Agrees(c) && OnlyCached(c, current)
    ensures Agrees(Respond(c, current))
  {
    forall name | name in c.services && name in c.routable
      ensures AgreesAt(Respond(c, current), name)
    {
      if c.services[name] != [] { ResponseKeepsAgreement(c, current, name); }
    }
  }

  function RespondAll(c: Cache, responses: seq<Passing>): Cache
    decreases |responses|
  {
    if responses == [] then c else RespondAll(Respond(c, responses[0]), responses[1..])
  }

  /** Over every run of responses that mention cached IDs only, the flags always follow
      the newest response, although services whose ID set did not change are skipped. */
  lemma {:induction false} CacheFollowsResponses(c: Cache, responses: seq<Passing>)
    requires Agrees(c) && forall i | 0 <= i < |responses| :: OnlyCached(c, responses[i])
    ensures Agrees(RespondAll(c, responses))
    ensures responses != [] ==> RespondAll(c, responses).last == responses[|responses| - 1]
    decreases |responses|
  {
    if responses != [] {
      var next := Respond(c, responses[0]);
      RespondAgrees(c, responses[0]);
      forall i | 0 <= i < |responses[1..]|
        ensures OnlyCached(next, responses[1..][i])
      {
        RespondKeepsIDs(c, responses[0], responses[i + 1]);
      }
      hide Respond, Agrees, OnlyCached;
      CacheFollowsResponses(next, responses[1..]);
    }
  }

  /** A re-fetch is asked for exactly if the passing IDs of a routable, cached service
      changed and one of them belongs to no cached instance, or nothing is cached. */
  lemma NeedsRefetchExactly(c: Cache, current: Passing, name: string)
    ensures NeedsRefetch(c, current, name) <==>
            && name in c.routable && name in c.services && IDs(current, name) != IDs(c.last, name)
            && (|| c.services[name] == []
                || exists id | id in IDs(current, name) ::
                     forall k | 0 <= k < |c.services[name]| :: c.services[name][k].id != id)
  {
    if name in c.services {
      var cached, ids := c.services[name], CachedIDs(c.services[name]);
      forall id
        ensures id in ids <==> exists k | 0 <= k < |cached| :: cached[k].id == id
      {
        if k :| 0 <= k < |cached| && cached[k].id == id { assert cached[k] in cached; }
      }
    }
  }

  /** What a response does to one flag: it becomes membership in the passing set where the
      set of a routable service changed and no re-fetch is needed, and stays otherwise. */
  lemma FlagAfter(c: Cache, current: Passing, name: string, k: nat)
    requires name in c.services && k < |c.services[name]|
    ensures var out := Respond(c, current).services;
            && name in out && |out[name]| == |c.services[name]| && out[name][k].id == c.services[name][k].id
            && out[name][k].healthy ==
               if name in c.routable && IDs(current, name) != IDs(c.last, name) && !NeedsRefetch(c, current, name)
               then c.services[name][k].id in IDs(current, name) else c.services[name][k].healthy
    ensures Respond(c, current).last == current && Respond(c, current).routable == c.routable
  {
  }

  // ----- When a re-fetch fails ----------------------------------------------------

  /** `fetchServiceHealth`: a reply replaces the instances, a failure leaves the cache. */
  function Fetched(c: Cache, name: string, reply: Option<seq<Instance>>): Cache {
    if reply.None? then c else c.(services := c.services[name := reply.value])
  }

  ghost predicate FlagsAre(instances: seq<Instance>, ids: set<string>) {
    forall k | 0 <= k < |instances| :: instances[k].healthy <==> instances[k].id in ids
  }

  /** For every cache and response: before any re-fetch a service agrees with the new
      response exactly if it was updated in place, or its flags already fitted. */
  lemma AgreesAfterExactly(c: Cache, current: Passing, name: string)
    requires name in c.services
    ensures AgreesAt(Respond(c, current), name) <==>
            InPlace(c, current, name) || FlagsAre(c.services[name], IDs(current, name))
  {
    hide InPlace;
    var out := Respond(c, current).services[name];
    if InPlace(c, current, name) {
      assert forall k | 0 <= k < |out| :: out[k] == SetHealth(IDs(current, name))(c.services[name][k]);
    }
  }

  /** Two ID sets flag the same cached instances exactly if they agree on the cached IDs. */
  lemma SameFlagsExactly(instances: seq<Instance>, a: set<string>, b: set<string>)
    requires FlagsAre(instances, a)
    ensures FlagsAre(instances, b) <==> a * CachedIDs(instances) == b * CachedIDs(instances)
  {
    var ids := CachedIDs(instances);
    assert forall k | 0 <= k < |instances| :: instances[k] in instances && instances[k].id in ids;
    if FlagsAre(instances, b) {
      forall id | id in ids
        ensures id in a <==> id in b
      {
        var i :| i in instances && i.id == id;
        var k :| 0 <= k < |instances| && instances[k] == i;
      }
      assert a * ids == b * ids;
    } else {
      var k :| 0 <= k < |instances| && instances[k].healthy != (instances[k].id in b);
      assert instances[k].id in a * ids <==> instances[k].id !in b * ids;
    }
  }

  /** From a cache in agreement a failed re-fetch leaves flags that disagree exactly if
      the service needed it and the response differs from the last one on cached IDs. */
  lemma FailedRefetchAgreesExactly(c: Cache, current: Passing, name: string)
    requires name in c.routable && AgreesAt(c, name)
    ensures AgreesAt(Fetched(Respond(c, current), name, None), name) <==>
            var cached := CachedIDs(c.services[name]);
            !NeedsRefetch(c, current, name) || IDs(c.last, name) * cached == IDs(current, name) * cached
  {
    AgreesAfterExactly(c, current, name);
    SameFlagsExactly(c.services[name], IDs(c.last, name), IDs(current, name));
    if !NeedsRefetch(c, current, name) { ResponseKeepsAgreement(c, current, name); }
  }

  /** The diff is against the last response, not against the flags: flags that disagree
      are not repaired by any run of responses that repeat the service's passing IDs. */
  lemma {:induction false} StaleFlagsStay(c: Cache, responses: seq<Passing>, name: string)
    requires name in c.services && forall i | 0 <= i < |responses| :: IDs(responses[i], name) == IDs(c.last, name)
    ensures AgreesAt(RespondAll(c, responses), name) <==> AgreesAt(c, name)
    decreases |responses|
  {
    if responses != [] {
      hide AgreesAt;
      StaleFlagsStay(Respond(c, responses[0]), responses[1..], name);
    }
  }

  /** An input that shows it: instance i fails while j appears, the re-fetch this asks for
      fails, and i stays flagged healthy however often the response is repeated. */
  lemma FailedRefetchCanGoStale(n: nat)
    ensures var c := Cache(map["s" := [Instance("i", true)]], map["s" := {"i"}], {"s"});
            var current: Passing := map["s" := {"j"}];
            var after := Fetched(Respond(c, current), "s", None);
            && Agrees(c) && NeedsRefetch(c, current, "s") && !AgreesAt(after, "s")
            && !AgreesAt(RespondAll(after, seq(n, i => current)), "s")
  {
    var c := Cache(map["s" := [Instance("i", true)]], map["s" := {"i"}], {"s"});
    var current: Passing := map["s" := {"j"}];
    assert "j" in IDs(current, "s") && "i" in IDs(c.last, "s");
    assert CachedIDs(c.services["s"]) == {"i"};
    FailedRefetchAgreesExactly(c, current, "s");
    StaleFlagsStay(Respond(c, current), seq(n, i => current), "s");
  }
}
