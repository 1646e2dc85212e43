/** When two services end up registered on one local port (upstream_manager.go). New ports
    are chosen against the remembered allocations only, never against the ports read from
    the registration. */
module PortSharing {
  import opened PortProbe
  import opened UpstreamManager

  ghost predicate DistinctPorts(m: Allocations) { forall x, y | x in m && y in m && x != y :: m[x] != m[y] }

  // ----- One allocation ---------------------------------------------------------

  /** The ports of the range that no service is remembered with. */
  function Free(start: int, end: int, m: Allocations): set<int> { set p | start <= p < end && p !in m.Values }

  /** The port a service without one gets. */
  function NewPort(r: Range, m: Allocations, name: string): int { Landing(r.start, r.end, m.Values, r.Base(name)) }

  lemma NewPortLands(r: Range, m: Allocations, name: string)
    requires r.start < r.end
    ensures var p := NewPort(r, m, name);
            && InRange(r.start, r.end, p)
            && (if Free(r.start, r.end, m) == {} then p == r.Base(name) else p in Free(r.start, r.end, m))
            && (r.Base(name) !in m.Values ==> p == r.Base(name))
  {
    var base := r.Base(name);
    FoundFrom(r.start, r.end, m.Values, base, 0);
    assert Nth(r.start, r.end, base, 0) == base;
    var free := Free(r.start, r.end, m);
    if p :| r.start <= p < r.end && p !in m.Values { assert p in free; }
    if free != {} {
      var p :| p in free;
      assert HasFree(r.start, r.end, m.Values);
    }
  }

  lemma FreeShrinks(start: int, end: int, m: Allocations, name: string, p: int)
    requires name !in m
    ensures Free(start, end, m[name := p]) == Free(start, end, m) - {p}
  {
    var after := m[name := p];
    assert after[name] == p;
    forall q
      ensures q in after.Values <==> q in m.Values || q == p
    {
      if x :| x in m && m[x] == q { assert after[x] == q; }
    }
  }

  // ----- A sequence of allocations -------------------------------------------------

  /** The names that have no port yet. */
  function New(m: Allocations, names: seq<string>): set<string> { Elements(names) - m.Keys }

  lemma NewShrinks(m: Allocations, names: seq<string>, p: int)
    requires names != []
    ensures if names[0] in m then New(m, names[1..]) == New(m, names)
            else names[0] in New(m, names) && New(m[names[0] := p], names[1..]) == New(m, names) - {names[0]}
  {
    assert names == [names[0]] + names[1..];
  }

  /** If there is room, services without a port get different free ports of the range. */
  lemma {:induction false} RoomSuffices(r: Range, m: Allocations, names: seq<string>, x: string, y: string)
    requires r.start < r.end && |New(m, names)| <= |Free(r.start, r.end, m)|
    requires x in New(m, names) && y in New(m, names)
    ensures var m' := r.AllocateAll(m, names);
            x in m' && y in m' && m'[x] in Free(r.start, r.end, m) && (x != y ==> m'[x] != m'[y])
    decreases |names|
  {
    var p := NewPort(r, m, names[0]);
    NewShrinks(m, names, p);
    if names[0] in m {
      RoomSuffices(r, m, names[1..], x, y);
    } else {
      NewPortLands(r, m, names[0]);
      FreeShrinks(r.start, r.end, m, names[0], p);
      var m1 := m[names[0] := p];
      AllocateAllKeeps(r, m1, names[1..], names[0]);
      hide New, Free, NewPort;
      if x != names[0] { RoomSuffices(r, m1, names[1..], x, if y != names[0] then y else x); }
      if y != names[0] { RoomSuffices(r, m1, names[1..], y, if x != names[0] then x else y); }
    }
  }

  /** Every service hashes to this port. */
  ghost predicate AllHashTo(r: Range, p: int) { r.start < r.end && forall name :: r.Base(name) == p }

  function Constant(start: int, end: int, p: int): (r: Range)
    requires InRange(start, end, p)
    ensures r.start == start && r.end == end && AllHashTo(r, p)
  {
    var r := Range(start, end, (name: string) => p - start);
    assert forall name :: r.Base(name) == p;
    r
  }

  /** A port nobody is remembered with goes to the first service that hashes to it. */
  lemma {:induction false} FirstTakesIt(r: Range, m: Allocations, names: seq<string>, p: int) returns (y: string)
    requires AllHashTo(r, p) && p !in m.Values && New(m, names) != {}
    ensures y in New(m, names) && y in r.AllocateAll(m, names) && r.AllocateAll(m, names)[y] == p
    decreases |names|
  {
    NewShrinks(m, names, p);
    if names[0] in m {
      y := FirstTakesIt(r, m, names[1..], p);
    } else {
      y := names[0];
      NewPortLands(r, m, y);
      AllocateAllKeeps(r, m[y := p], names[1..], y);
    }
  }

  /** With the range exhausted every new service gets the port it hashes to. */
  lemma {:induction false} FullGivesBase(r: Range, m: Allocations, names: seq<string>, p: int, y: string)
    requires AllHashTo(r, p) && Free(r.start, r.end, m) == {} && y in New(m, names)
    ensures y in r.AllocateAll(m, names) && r.AllocateAll(m, names)[y] == p
    decreases |names|
  {
    NewShrinks(m, names, p);
    if names[0] in m {
      FullGivesBase(r, m, names[1..], p, y);
    } else {
      NewPortLands(r, m, names[0]);
      FreeShrinks(r.start, r.end, m, names[0], p);
      if y == names[0] {
        AllocateAllKeeps(r, m[y := p], names[1..], y);
      } else {
        FullGivesBase(r, m[names[0] := p], names[1..], p, y);
      }
    }
  }

  /** More new services than free ports: one of them gets the port they all hash to, even
      if it is taken. */
  lemma {:induction false} OverflowTakesIt(r: Range, m: Allocations, names: seq<string>, p: int) returns (y: string)
    requires AllHashTo(r, p) && |New(m, names)| > |Free(r.start, r.end, m)|
    ensures y in New(m, names) && y in r.AllocateAll(m, names) && r.AllocateAll(m, names)[y] == p
    decreases |names|
  {
    var q := NewPort(r, m, names[0]);
    NewShrinks(m, names, q);
    if names[0] in m {
      y := OverflowTakesIt(r, m, names[1..], p);
    } else {
      NewPortLands(r, m, names[0]);
      var m1 := m[names[0] := q];
      if Free(r.start, r.end, m) == {} {
        y := names[0];
        AllocateAllKeeps(r, m1, names[1..], y);
      } else {
        FreeShrinks(r.start, r.end, m, names[0], q);
        hide New, Free, NewPort;
        y := OverflowTakesIt(r, m1, names[1..], p);
      }
    }
  }

  /** And if that port was free before, two of them get it. */
  lemma {:induction false} OverflowShares(r: Range, m: Allocations, names: seq<string>, p: int) returns (x: string, y: string)
    requires AllHashTo(r, p) && p in Free(r.start, r.end, m) && |New(m, names)| > |Free(r.start, r.end, m)|
    ensures x in New(m, names) && y in New(m, names) && x != y
    ensures var m' := r.AllocateAll(m, names); x in m' && y in m' && m'[x] == m'[y] == p
    decreases |names|
  {
    NewShrinks(m, names, p);
    if names[0] in m {
      x, y := OverflowShares(r, m, names[1..], p);
    } else {
      x := names[0];
      NewPortLands(r, m, x);
      FreeShrinks(r.start, r.end, m, x, p);
      AllocateAllKeeps(r, m[x := p], names[1..], x);
      hide Free;
      y := OverflowTakesIt(r, m[x := p], names[1..], p);
    }
  }

  // ----- The ports of a registration ------------------------------------------------

  /** The ports a sync does not choose: those registered, and those remembered for the
      services it adds. */
  function Fixed(current: Allocations, m: Allocations, desired: set<string>): Allocations {
    map x | x in desired && (x in current || x in m) :: if x in current then current[x] else m[x]
  }

  lemma RegisteredPort(r: Range, current: Allocations, m: Allocations, desired: set<string>, order: seq<string>, x: string)
    requires Elements(order) == desired - current.Keys && x in desired
    ensures var after := Sync(r, current, m, desired, order).registered;
            var fixed := Fixed(current, m, desired);
            && after.Keys == desired
            && if x in fixed then after[x] == fixed[x]
               else x in New(m, order) && x in r.AllocateAll(m, order) && after[x] == r.AllocateAll(m, order)[x]
  {
    hide Range.AllocateAll;
    SyncRegistersDesired(r, current, m, desired, order);
    AllocateAllKeys(r, m, order);
    if x in m { AllocateAllKeeps(r, m, order, x); }
    assert x in order <==> x in Elements(order);
  }

  /** The services a sync chooses a port for. */
  function ToChoose(current: Allocations, m: Allocations, desired: set<string>): set<string> {
    desired - current.Keys - m.Keys
  }

  /** What a caller can check before a sync, without knowing the hash: the fixed ports are
      distinct, and either nothing is to be chosen, or there is room and every fixed port of
      the range is remembered, or the range is full, one port is to be chosen and no fixed
      port is in the range. */
  predicate Clear(start: int, end: int, current: Allocations, m: Allocations, desired: set<string>) {
    var fixed, chosen, free := Fixed(current, m, desired), ToChoose(current, m, desired), Free(start, end, m);
    && (forall x, y | x in fixed && y in fixed && x != y :: fixed[x] != fixed[y])
    && (|| chosen == {}
        || (|chosen| <= |free| && forall x | x in fixed && InRange(start, end, fixed[x]) :: fixed[x] in m.Values)
        || (|chosen| == 1 && free == {} && forall x | x in fixed :: !InRange(start, end, fixed[x])))
  }

  lemma ChosenIsNew(current: Allocations, m: Allocations, desired: set<string>, order: seq<string>)
    requires Elements(order) == desired - current.Keys
    ensures New(m, order) == ToChoose(current, m, desired)
  {
  }

  /** A chosen port differs from the fixed ones and the other chosen ones. */
  lemma ClearPortsDiffer(r: Range, current: Allocations, m: Allocations, desired: set<string>, order: seq<string>,
                         x: string, y: string)
    requires r.start < r.end && Elements(order) == desired - current.Keys
    requires Clear(r.start, r.end, current, m, desired) && x in desired && y in desired && x != y
    requires x !in Fixed(current, m, desired)
    ensures var after := Sync(r, current, m, desired, order).registered;
            x in after && y in after && after[x] != after[y]
  {
    hide Sync, Range.AllocateAll;
    RegisteredPort(r, current, m, desired, order, x);
    RegisteredPort(r, current, m, desired, order, y);
    ChosenIsNew(current, m, desired, order);
    var fixed, chosen, free := Fixed(current, m, desired), ToChoose(current, m, desired), Free(r.start, r.end, m);
    if |chosen| <= |free| {
      RoomSuffices(r, m, order, x, if y in fixed then x else y);
    } else {
      assert |chosen| == 1 && x in chosen;
      OnlyOne(chosen, x, y);
      ChosenInRange(r, m, order, x);
    }
  }

  lemma OnlyOne(s: set<string>, x: string, y: string)
    requires |s| == 1 && x in s && x != y
    ensures y !in s
  {
    assert |s - {x}| == 0;
    assert y in s ==> y in s - {x};
  }

  lemma {:induction false} ChosenInRange(r: Range, m: Allocations, names: seq<string>, x: string)
    requires r.start < r.end && x in New(m, names)
    ensures x in r.AllocateAll(m, names) && InRange(r.start, r.end, r.AllocateAll(m, names)[x])
    decreases |names|
  {
    var p := NewPort(r, m, names[0]);
    NewShrinks(m, names, p);
    if names[0] in m {
      ChosenInRange(r, m, names[1..], x);
    } else {
      NewPortLands(r, m, names[0]);
      if x == names[0] {
        AllocateAllKeeps(r, m[x := p], names[1..], x);
      } else {
        ChosenInRange(r, m[names[0] := p], names[1..], x);
      }
    }
  }

  /** Clear ports end distinct, whatever the hash. */
  lemma ClearIsDistinct(r: Range, current: Allocations, m: Allocations, desired: set<string>, order: seq<string>)
    requires r.start < r.end && Elements(order) == desired - current.Keys && Clear(r.start, r.end, current, m, desired)
    ensures DistinctPorts(Sync(r, current, m, desired, order).registered)
  {
    hide Sync;
    var after, fixed := Sync(r, current, m, desired, order).registered, Fixed(current, m, desired);
    SyncRegistersDesired(r, current, m, desired, order);
    forall x, y | x in after && y in after && x != y
      ensures after[x] != after[y]
    {
      if x !in fixed {
        ClearPortsDiffer(r, current, m, desired, order, x, y);
      } else if y !in fixed {
        ClearPortsDiffer(r, current, m, desired, order, y, x);
      } else {
        RegisteredPort(r, current, m, desired, order, x);
        RegisteredPort(r, current, m, desired, order, y);
      }
    }
  }

  /** If two names get one port, the registration shows it. */
  lemma Shared(r: Range, current: Allocations, m: Allocations, desired: set<string>, order: seq<string>, x: string, y: string)
    requires Elements(order) == desired - current.Keys && x in desired && y in desired && x != y
    ensures var after, fixed, m' := Sync(r, current, m, desired, order).registered, Fixed(current, m, desired), r.AllocateAll(m, order);
            && (x in fixed && y in fixed && fixed[x] == fixed[y] ==> !DistinctPorts(after))
            && (x in fixed && y !in fixed && y in m' && fixed[x] == m'[y] ==> !DistinctPorts(after))
            && (x !in fixed && y !in fixed && x in m' && y in m' && m'[x] == m'[y] ==> !DistinctPorts(after))
  {
    hide Sync, Range.AllocateAll, Fixed;
    RegisteredPort(r, current, m, desired, order, x);
    RegisteredPort(r, current, m, desired, order, y);
  }

  /** More ports to choose than there are free ones, of which there is one or two at least
      are to be chosen. */
  lemma OverflowIsShared(start: int, end: int, current: Allocations, m: Allocations, desired: set<string>, order: seq<string>)
    returns (r: Range)
    requires start < end && Elements(order) == desired - current.Keys
    requires |New(m, order)| > |Free(start, end, m)| && |New(m, order)| > 1
    ensures r.start == start && r.end == end && !DistinctPorts(Sync(r, current, m, desired, order).registered)
  {
    hide Sync, Range.AllocateAll, DistinctPorts, AllHashTo;
    var x, y;
    if Free(start, end, m) == {} {
      r := Constant(start, end, start);
      x, y := TwoOf(New(m, order));
      hide Free;
      FullGivesBase(r, m, order, start, x);
      FullGivesBase(r, m, order, start, y);
    } else {
      var p :| p in Free(start, end, m);
      r := Constant(start, end, p);
      x, y := OverflowShares(r, m, order, p);
    }
    Shared(r, current, m, desired, order, x, y);
  }

  /** A fixed port of the range that is not remembered, or any if the range is full. */
  lemma FixedIsShared(start: int, end: int, current: Allocations, m: Allocations, desired: set<string>, order: seq<string>,
                      x: string) returns (r: Range)
    requires start < end && Elements(order) == desired - current.Keys && New(m, order) != {}
    requires var fixed := Fixed(current, m, desired);
             x in fixed && InRange(start, end, fixed[x]) && (fixed[x] !in m.Values || Free(start, end, m) == {})
    ensures r.start == start && r.end == end && !DistinctPorts(Sync(r, current, m, desired, order).registered)
  {
    hide Sync, Range.AllocateAll, DistinctPorts, AllHashTo;
    var p := Fixed(current, m, desired)[x];
    r := Constant(start, end, p);
    var y;
    if p !in m.Values {
      y := FirstTakesIt(r, m, order, p);
    } else {
      y :| y in New(m, order);
      hide Free;
      FullGivesBase(r, m, order, p, y);
    }
    Shared(r, current, m, desired, order, x, y);
  }

  /** Ports that are not clear are shared for some hash. */
  lemma UnclearIsShared(start: int, end: int, current: Allocations, m: Allocations, desired: set<string>, order: seq<string>)
    returns (r: Range)
    requires start < end && Elements(order) == desired - current.Keys && !Clear(start, end, current, m, desired)
    ensures r.start == start && r.end == end && !DistinctPorts(Sync(r, current, m, desired, order).registered)
  {
    var fixed, chosen, free := Fixed(current, m, desired), ToChoose(current, m, desired), Free(start, end, m);
    ChosenIsNew(current, m, desired, order);
    hide Sync, Range.AllocateAll, DistinctPorts, AllHashTo, New, Free, Fixed, ToChoose, Elements;
    if x, y :| x in fixed && y in fixed && x != y && fixed[x] == fixed[y] {
      r := Constant(start, end, start);
      Shared(r, current, m, desired, order, x, y);
    } else if |chosen| > |free| && |chosen| > 1 {
      r := OverflowIsShared(start, end, current, m, desired, order);
    } else {
      assert |chosen| > |free| ==> free == {};
      var x :| x in fixed && InRange(start, end, fixed[x]) && (fixed[x] !in m.Values || free == {});
      r := FixedIsShared(start, end, current, m, desired, order, x);
    }
  }

  lemma TwoOf(s: set<string>) returns (x: string, y: string)
    requires |s| > 1
    ensures x in s && y in s && x != y
  {
    x :| x in s;
    assert |s - {x}| > 0;
    y :| y in s - {x};
  }

  /** Exactly when no two services share a port after a sync, for every registration, every
      remembered allocation, every set of services and however full the range is. */
  lemma DistinctPortsExactly(start: int, end: int, current: Allocations, m: Allocations, desired: set<string>, order: seq<string>)
    requires start < end && Elements(order) == desired - current.Keys
    ensures (forall hash: string -> nat :: DistinctPorts(Sync(Range(start, end, hash), current, m, desired, order).registered))
            <==> Clear(start, end, current, m, desired)
  {
    hide Sync, DistinctPorts, Clear;
    if Clear(start, end, current, m, desired) {
      forall hash: string -> nat
        ensures DistinctPorts(Sync(Range(start, end, hash), current, m, desired, order).registered)
      {
        ClearIsDistinct(Range(start, end, hash), current, m, desired, order);
      }
    } else {
      var r := UnclearIsShared(start, end, current, m, desired, order);
      assert r == Range(start, end, r.hash);
    }
  }

  /** The promise is kept where registration and memory agree, ports are distinct and there
      is room. */
  lemma AgreedIsClear(start: int, end: int, current: Allocations, m: Allocations, desired: set<string>)
    requires Agree(current, m) && DistinctPorts(m) && |ToChoose(current, m, desired)| <= |Free(start, end, m)|
    ensures Clear(start, end, current, m, desired)
  {
    var fixed := Fixed(current, m, desired);
    assert forall x | x in fixed :: x in m && fixed[x] == m[x];
  }

  /** A way in without any failed registration: an instance that starts without the saved
      allocations, as after a crash before the save, does not know the registered port of a
      service, and gives it to another one that hashes to it. */
  lemma LostStateCanCollide(r: Range)
    requires r.start < r.end
    ensures var p := r.Base("b");
            var current: Allocations := map["a" := p];
            var after := Sync(r, current, map[], {"a", "b"}, ["b"]).registered;
            && !Clear(r.start, r.end, current, map[], {"a", "b"}) && current.Keys <= {"a", "b"}
            && "a" in after && "b" in after && after["a"] == after["b"] == p
  {
    var p := r.Base("b");
    var current: Allocations := map["a" := p];
    var none: Allocations := map[];
    assert none.Values == {};
    assert Nth(r.start, r.end, p, 0) == p;
    assert ["b"][1..] == [];
    assert r.AllocateAll(none, ["b"]) == map["b" := p];
    assert "b" in ["b"] && Elements(["b"]) == {"b"};
    var after := Sync(r, current, none, {"a", "b"}, ["b"]).registered;
    assert after["a"] == after["b"] == p;
    if Clear(r.start, r.end, current, none, {"a", "b"}) {
      assert {"a", "b"} - current.Keys == {"b"};
      ClearIsDistinct(r, current, none, {"a", "b"}, ["b"]);
      assert false;
    }
  }
}
