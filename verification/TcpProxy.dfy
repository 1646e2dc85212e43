/** Per-connection work of tcp_proxy.go: the weighted choice of an upstream, and the
    order of peeking, replaying and matching. */
module TcpProxy {
  import opened Prelude
  import opened Bytes
  import opened Types
  import opened TcpSni
  import opened TcpTable
  import ClientHello
  import HelloLayout

  // ----- pickUpstream ---------------------------------------------------------

  function Share(u: Upstream): (w: nat)
    ensures w >= 1
  {
    if u.weight <= 0 then 1 else u.weight
  }

  function HealthyCount(ups: seq<Upstream>): nat {
    if ups == [] then 0 else (if ups[0].healthy then 1 else 0) + HealthyCount(ups[1..])
  }

  lemma {:induction false} NoneHealthyExactly(ups: seq<Upstream>)
    ensures HealthyCount(ups) == 0 <==> forall i | 0 <= i < |ups| :: !ups[i].healthy
  {
    if ups != [] {
      NoneHealthyExactly(ups[1..]);
      assert forall i | 0 < i < |ups| :: ups[i] == ups[1..][i - 1];
    }
  }

  /** More than one is healthy exactly if two different ones are. */
  lemma {:induction false} TwoHealthyExactly(ups: seq<Upstream>)
    ensures HealthyCount(ups) >= 2 <==> exists i, j | 0 <= i < j < |ups| :: ups[i].healthy && ups[j].healthy
  {
    if ups != [] {
      TwoHealthyExactly(ups[1..]);
      NoneHealthyExactly(ups[1..]);
      assert forall i | 0 < i < |ups| :: ups[i] == ups[1..][i - 1];
      if i, j :| 0 <= i < j < |ups[1..]| && ups[1..][i].healthy && ups[1..][j].healthy {
        assert ups[i + 1].healthy && ups[j + 1].healthy;
      }
      if ups[0].healthy && HealthyCount(ups[1..]) > 0 {
        var j :| 0 <= j < |ups[1..]| && ups[1..][j].healthy;
        assert ups[0].healthy && ups[j + 1].healthy;
      }
    }
  }

  function Total(ups: seq<Upstream>): (t: nat)
    ensures t >= HealthyCount(ups)
  {
    if ups == [] then 0 else (if ups[0].healthy then Share(ups[0]) else 0) + Total(ups[1..])
  }

  /** The part of the draw range in front of upstream i. */
  function Offset(ups: seq<Upstream>, i: nat): nat
    requires i <= |ups|
  {
    Total(ups[..i])
  }

  lemma {:induction false} TotalSnoc(ups: seq<Upstream>, u: Upstream)
    ensures Total(ups + [u]) == Total(ups) + if u.healthy then Share(u) else 0
    ensures HealthyCount(ups + [u]) == HealthyCount(ups) + if u.healthy then 1 else 0
  {
    if ups == [] {
      assert ups + [u] == [u];
    } else {
      assert (ups + [u])[1..] == ups[1..] + [u];
      TotalSnoc(ups[1..], u);
    }
  }

  lemma OffsetStep(ups: seq<Upstream>, i: nat)
    requires i < |ups|
    ensures Offset(ups, i + 1) == Offset(ups, i) + if ups[i].healthy then Share(ups[i]) else 0
    ensures HealthyCount(ups[..i + 1]) == HealthyCount(ups[..i]) + if ups[i].healthy then 1 else 0
  {
    assert ups[..i + 1] == ups[..i] + [ups[i]];
    TotalSnoc(ups[..i], ups[i]);
  }

  lemma {:induction false} OffsetMonotone(ups: seq<Upstream>, i: nat, j: nat)
    requires i <= j <= |ups|
    ensures Offset(ups, i) <= Offset(ups, j)
    ensures HealthyCount(ups[..i]) <= HealthyCount(ups[..j])
    decreases j - i
  {
    if i < j {
      OffsetStep(ups, j - 1);
      OffsetMonotone(ups, i, j - 1);
    }
  }

  /** Upstream i owns the draws from its offset up to its offset plus its share. */
  predicate Owns(ups: seq<Upstream>, i: nat, n: nat) {
    i < |ups| && ups[i].healthy && Offset(ups, i) <= n < Offset(ups, i) + Share(ups[i])
  }

  /** `n` is the draw of `rand.Intn(total)`; it is not used with fewer than two healthy
      upstreams. The indices of the healthy upstreams stand for the pointers. */
  method PickUpstream(ups: seq<Upstream>, n: nat) returns (pick: Option<nat>)
    requires n < Total(ups) || HealthyCount(ups) < 2
    ensures pick.None? <==> forall i | 0 <= i < |ups| :: !ups[i].healthy
    ensures pick.None? <==> HealthyCount(ups) == 0
    ensures pick.Some? ==> pick.value < |ups| && ups[pick.value].healthy
    ensures HealthyCount(ups) >= 2 ==> pick.Some? && Owns(ups, pick.value, n)
  {
    var total: int, healthy: seq<nat> := 0, [];
    for i := 0 to |ups|
      invariant total == Offset(ups, i)
      invariant HealthyIndices(ups, i, healthy)
    {
      OffsetStep(ups, i);
      if ups[i].healthy {
        healthy := healthy + [i];
        total := total + if ups[i].weight <= 0 then 1 else ups[i].weight;
      }
    }
    assert ups[..|ups|] == ups;
    NoneHealthyExactly(ups);
    if healthy == [] { return None; }
    if |healthy| == 1 || total <= 0 { return Some(healthy[0]); }
    var k := Draw(ups, healthy, n);
    return Some(healthy[k]);
  }

  /** The loop over the healthy upstreams; its trailing return is never reached. */
  method Draw(ups: seq<Upstream>, healthy: seq<nat>, n: nat) returns (k: nat)
    requires HealthyIndices(ups, |ups|, healthy) && n < Total(ups)
    ensures k < |healthy| && Owns(ups, healthy[k], n)
  {
    NothingBeforeFirst(ups, healthy);
    var m: int := n;
    k := 0;
    while k < |healthy|
      invariant 0 <= k <= |healthy|
      invariant m >= 0 && n == m + OffsetOf(ups, healthy, k)
    {
      var u := ups[healthy[k]];
      var w := if u.weight <= 0 then 1 else u.weight;
      GapIsUnhealthy(ups, healthy, k);
      if m < w { return k; }
      m := m - w;
      k := k + 1;
    }
    assert false;
  }

  predicate IsHealthyAt(ups: seq<Upstream>, bound: nat, i: nat) { i < bound <= |ups| && ups[i].healthy }

  /** `healthy` lists the healthy ones among the first `bound` upstreams, in order. */
  ghost predicate HealthyIndices(ups: seq<Upstream>, bound: nat, healthy: seq<nat>) {
    && bound <= |ups| && |healthy| == HealthyCount(ups[..bound])
    && forall k | 0 <= k < |healthy| :: IsHealthyAt(ups, bound, healthy[k]) && HealthyCount(ups[..healthy[k]]) == k
  }

  /** The offset of the k-th healthy upstream; the total past the last one. */
  ghost function OffsetOf(ups: seq<Upstream>, healthy: seq<nat>, k: nat): nat
    requires k <= |healthy| && HealthyIndices(ups, |ups|, healthy)
  {
    if k < |healthy| then Offset(ups, healthy[k]) else Total(ups)
  }

  /** No other healthy upstream lies between consecutive entries. */
  lemma GapIsUnhealthy(ups: seq<Upstream>, healthy: seq<nat>, k: nat)
    requires k < |healthy| && HealthyIndices(ups, |ups|, healthy)
    ensures OffsetOf(ups, healthy, k + 1) == Offset(ups, healthy[k]) + Share(ups[healthy[k]])
  {
    var i := healthy[k];
    var next := if k + 1 < |healthy| then healthy[k + 1] else |ups|;
    assert ups[..|ups|] == ups;
    OffsetStep(ups, i);
    if next <= i { OffsetMonotone(ups, next, i); }
    SameCountSameOffset(ups, i + 1, next);
  }

  lemma NothingBeforeFirst(ups: seq<Upstream>, healthy: seq<nat>)
    requires HealthyIndices(ups, |ups|, healthy)
    ensures OffsetOf(ups, healthy, 0) == 0
  {
    var i := if healthy == [] then |ups| else healthy[0];
    assert ups[..0] == [] && ups[..|ups|] == ups;
    SameCountSameOffset(ups, 0, i);
  }

  lemma {:induction false} SameCountSameOffset(ups: seq<Upstream>, i: nat, j: nat)
    requires i <= j <= |ups| && HealthyCount(ups[..i]) == HealthyCount(ups[..j])
    ensures Offset(ups, i) == Offset(ups, j)
    decreases j - i
  {
    if i < j {
      OffsetStep(ups, j - 1);
      OffsetMonotone(ups, i, j - 1);
      SameCountSameOffset(ups, i, j - 1);
    }
  }

  lemma OwnersAgree(ups: seq<Upstream>, i: nat, j: nat, n: nat)
    requires Owns(ups, i, n) && Owns(ups, j, n)
    ensures i == j
  {
    if i < j {
      OffsetStep(ups, i);
      OffsetMonotone(ups, i + 1, j);
    } else if j < i {
      OffsetStep(ups, j);
      OffsetMonotone(ups, j + 1, i);
    }
  }

  predicate Within(a: nat, b: nat, n: nat) { a <= n < b }

  lemma {:induction false} IntervalSize(a: nat, b: nat)
    requires a <= b
    ensures |set n | 0 <= n < b && Within(a, b, n)| == b - a
    decreases b - a
  {
    var all := set n | 0 <= n < b && Within(a, b, n);
    if a < b {
      var hi := b - 1;
      IntervalSize(a, hi);
      assert all == (set n | 0 <= n < hi && Within(a, hi, n)) + {hi};
    } else {
      assert all == {};
    }
  }

  /** Exact shares: of the draws below the total, each healthy upstream owns exactly its
      weight (1 when unset), an unhealthy one owns none, and no draw has two owners. */
  lemma ExactShares(ups: seq<Upstream>, i: nat)
    requires i < |ups|
    ensures |set n | 0 <= n < Total(ups) && Owns(ups, i, n)| ==
            if !ups[i].healthy then 0 else if ups[i].weight > 1 then ups[i].weight else 1
  {
    var mine := set n | 0 <= n < Total(ups) && Owns(ups, i, n);
    if ups[i].healthy {
      OffsetStep(ups, i);
      OffsetMonotone(ups, i + 1, |ups|);
      assert ups[..|ups|] == ups;
      var a := Offset(ups, i);
      var b := a + Share(ups[i]);
      IntervalSize(a, b);
      assert mine == set n | 0 <= n < b && Within(a, b, n);
    } else {
      assert mine == {};
    }
  }

  // ----- handle ---------------------------------------------------------------

  function AsString(b: bytes): (s: string)
    ensures |s| == |b| && forall i | 0 <= i < |b| :: s[i] as int == b[i]
  {
    seq(|b|, i requires 0 <= i < |b| => b[i] as char)
  }

  predicate PortHasSNI(routes: seq<TCPRoute>, port: int) { AnySNI(OnPort(routes, port)) }

  /** The name the connection is matched by: only SNI ports are peeked at. */
  function SniFor(routes: seq<TCPRoute>, port: int, stream: bytes): string
    requires PortHasSNI(routes, port) ==> PeekLength(stream) <= |stream|
  {
    if PortHasSNI(routes, port) then AsString(PeekSni(stream)) else ""
  }

  /** What a plain scan of the published routes answers for a connection. */
  function Answer(routes: seq<TCPRoute>, port: int, stream: bytes): Option<TCPRoute> {
    if PortHasSNI(routes, port) && PeekLength(stream) > |stream| then None
    else FlatScan(routes, port, SniFor(routes, port, stream))
  }

  /** The first half of `handle`: peek if the port needs it, wrap, match. A route comes
      with a client from which every byte of the stream can still be read. */
  method ChooseRoute(table: TCPTable, ghost routes: seq<TCPRoute>, port: int, down: Conn)
    returns (client: Client, route: Option<TCPRoute>)
    requires Indexes(table.byPort, routes)
    modifies down
    ensures route.Some? ==>
              && route == Answer(routes, port, old(down.pending))
              && client.Valid() && client.Remaining() == old(down.pending)
    ensures Deadline !in old(down.script) ==> route == Answer(routes, port, old(down.pending))
  {
    hide PeekSni, PeekLength, ClientHello.Sni, FlatScan, Scan;
    client, route := Direct(down), None;
    ghost var stream := down.pending;
    var pr := table.Lookup(port);
    if pr.None? {
      IndexRefinesScan(table.byPort, routes, port, "");
      return;
    }
    var sni := "";
    if pr.value.anySNI {
      var name, buffered, isTLS, err := PeekClientHelloSNI(down);
      if err != NoError { return; }
      sni := AsString(name);
      client := NewPrefixConn(down, buffered);
      assert client.Remaining() == stream;
    }
    IndexRefinesScan(table.byPort, routes, port, sni);
    route := pr.value.Match(sni);
  }

  /** `handle` up to the dial; `rand.Intn(k)` is `draw % k`. */
  method Handle(table: TCPTable, ghost routes: seq<TCPRoute>, port: int, down: Conn, draw: nat)
    returns (client: Client, route: Option<TCPRoute>, upstream: Option<nat>)
    requires Indexes(table.byPort, routes)
    modifies down
    ensures upstream.Some? ==>
              && route.Some? && route == Answer(routes, port, old(down.pending))
              && upstream.value < |route.value.upstreams| && route.value.upstreams[upstream.value].healthy
              && client.Valid() && client.Remaining() == old(down.pending)
    ensures Deadline !in old(down.script) ==>
              (upstream.Some? <==> && Answer(routes, port, old(down.pending)).Some?
                                   && HealthyCount(Answer(routes, port, old(down.pending)).value.upstreams) > 0)
  {
    hide Answer;
    client, route := ChooseRoute(table, routes, port, down);
    if route.None? { return client, None, None; }
    var ups := route.value.upstreams;
    upstream := PickUpstream(ups, if Total(ups) > 0 then draw % Total(ups) else 0);
  }

  /** A ClientHello sent in one record is matched by the first host_name it carries,
      whatever follows it on the stream. */
  lemma RecordRoundTrip(c: HelloLayout.Hello, version: bytes, rest: bytes)
    requires HelloLayout.HelloOk(c) && |version| == 2
    requires |HelloLayout.EncodeHello(c)| <= 16384
    ensures var hello := HelloLayout.EncodeHello(c);
            var stream := [22] + version + U16(|hello|) + hello + rest;
            && PeekLength(stream) == 5 + |hello| <= |stream|
            && PeekSni(stream) == match HelloLayout.HostOfHello(c) case None => [] case Some(host) => host
  {
    var hello := HelloLayout.EncodeHello(c);
    var hdr := [22] + version + U16(|hello|);
    var stream := hdr + hello + rest;
    assert stream[..5] == hdr && stream[5] == hello[0];
    assert stream[5..5 + |hello|] == hello;
    HelloLayout.RoundTrip(c);
    hide HelloLayout.EncodeHello, HelloLayout.HostOfHello, ClientHello.Sni, PeekLength, PeekSni;
    RecordBytes(stream, |hello|);
  }
}
