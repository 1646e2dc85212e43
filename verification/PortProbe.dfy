/** The hash-and-probe search of `allocatePort` (upstream_manager.go), as a function of
    the range, the ports in use and the hash. */
module PortProbe {

  /** One move of the search: the next port, wrapping at the end of the range. */
  function Move(start: int, end: int, port: int): int {
    if port + 1 >= end then start else port + 1
  }

  /** The range size the hash is reduced by; 10000 for an empty or inverted range. */
  function RangeSize(start: int, end: int): (n: nat)
    ensures n > 0
  {
    if end - start <= 0 then 10000 else end - start
  }

  function BasePort(start: int, end: int, hash: nat): int { start + hash % RangeSize(start, end) }

  predicate InRange(start: int, end: int, port: int) { start <= port < end }

  // ----- Termination ----------------------------------------------------------

  /** The loop, standing at `port`, is left within k more moves. */
  predicate HaltsWithin(start: int, end: int, used: set<int>, base: int, port: int, k: nat)
    decreases k
  {
    port !in used
    || (k > 0 && (var next := Move(start, end, port);
                  next == base || HaltsWithin(start, end, used, base, next, k - 1)))
  }

  ghost predicate Halts(start: int, end: int, used: set<int>, base: int) {
    exists k: nat :: HaltsWithin(start, end, used, base, base, k)
  }

  /** The guard under which the search ends. */
  predicate Ends(start: int, end: int, used: set<int>, base: int) {
    start < end || base !in used || base == start || start !in used
  }

  lemma {:induction false} HaltsFrom(start: int, end: int, used: set<int>, base: int, k: nat)
    requires start < end && InRange(start, end, base) && k < end - start
    ensures HaltsWithin(start, end, used, base, Nth(start, end, base, k), end - start - k)
    decreases end - start - k
  {
    MoveNth(start, end, base, k);
    if k + 1 < end - start { HaltsFrom(start, end, used, base, k + 1); }
  }

  lemma {:induction false} StuckAtStart(start: int, end: int, used: set<int>, base: int, k: nat)
    requires start >= end && base != start && start in used
    ensures !HaltsWithin(start, end, used, base, start, k)
  {
    if k > 0 { StuckAtStart(start, end, used, base, k - 1); }
  }

  lemma OneMoveSuffices(start: int, end: int, used: set<int>, base: int, k: nat)
    requires start >= end && base >= start && k == 1 && Ends(start, end, used, base)
    ensures Halts(start, end, used, base)
  {
    assert Move(start, end, base) == start;
    assert start !in used ==> HaltsWithin(start, end, used, base, start, k - 1);
    assert HaltsWithin(start, end, used, base, base, k);
  }

  /** The probe loop ends exactly under `Ends`, and over a proper range within as many
      moves as the range has ports. Over an empty or inverted range it can spin on the
      first port forever, in spite of the fallback size. */
  lemma ProbeEndsExactly(start: int, end: int, used: set<int>, hash: nat)
    ensures var base := BasePort(start, end, hash);
            && (Halts(start, end, used, base) <==> Ends(start, end, used, base))
            && (start < end ==> HaltsWithin(start, end, used, base, base, end - start))
  {
    var base := BasePort(start, end, hash);
    if start < end {
      HaltsFrom(start, end, used, base, 0);
      assert Nth(start, end, base, 0) == base;
    } else if Ends(start, end, used, base) {
      OneMoveSuffices(start, end, used, base, 1);
    } else {
      forall k: nat
        ensures !HaltsWithin(start, end, used, base, base, k)
      {
        if k > 0 { StuckAtStart(start, end, used, base, k - 1); }
      }
    }
  }

  /** Such a range and such ports in use: configured from 20000 to 20000, with both the
      hashed port and the first one taken. */
  lemma ProbeCanSpin(k: nat)
    ensures BasePort(20000, 20000, 1) == 20001
    ensures !HaltsWithin(20000, 20000, {20000, 20001}, 20001, 20001, k)
  {
    if k > 0 { StuckAtStart(20000, 20000, {20000, 20001}, 20001, k - 1); }
  }

  // ----- What the search finds -------------------------------------------------

  /** The k-th port tried. */
  function Nth(start: int, end: int, base: int, k: nat): int {
    if base + k < end then base + k else base + k - (end - start)
  }

  lemma MoveNth(start: int, end: int, base: int, k: nat)
    requires start < end && InRange(start, end, base) && k < end - start
    ensures InRange(start, end, Nth(start, end, base, k))
    ensures k + 1 < end - start ==> Move(start, end, Nth(start, end, base, k)) == Nth(start, end, base, k + 1) != base
    ensures k + 1 == end - start ==> Move(start, end, Nth(start, end, base, k)) == base
  {
  }

  /** The first free port at or after the k-th one tried; the base port when all are taken. */
  function Found(start: int, end: int, used: set<int>, base: int, k: nat): int
    requires start < end && k <= end - start
    decreases end - start - k
  {
    if k == end - start then base
    else if Nth(start, end, base, k) !in used then Nth(start, end, base, k)
    else Found(start, end, used, base, k + 1)
  }

  /** Where the search ends up, over any range on which it ends. */
  function Landing(start: int, end: int, used: set<int>, base: int): int {
    if start < end then Found(start, end, used, base, 0) else if base in used then start else base
  }

  predicate HasFree(start: int, end: int, used: set<int>) {
    exists p | start <= p < end :: p !in used
  }

  lemma {:induction false} FoundFrom(start: int, end: int, used: set<int>, base: int, k: nat)
    requires start < end && InRange(start, end, base) && k <= end - start
    requires forall j | 0 <= j < k :: Nth(start, end, base, j) in used
    ensures var p := Found(start, end, used, base, k);
            InRange(start, end, p) && (p in used <==> !HasFree(start, end, used)) && (p in used ==> p == base)
    decreases end - start - k
  {
    if k < end - start && Nth(start, end, base, k) in used {
      FoundFrom(start, end, used, base, k + 1);
    } else if k == end - start {
      forall p | start <= p < end
        ensures p in used
      {
        var j := if p >= base then p - base else p - base + (end - start);
        assert Nth(start, end, base, j) == p;
      }
      assert Nth(start, end, base, 0) == base;
    }
  }

  /** Whatever the hash, the search stays in range and finds a free port if there is one. */
  lemma FindsFree(start: int, end: int, used: set<int>, hash: nat)
    requires start < end
    ensures var p := Found(start, end, used, BasePort(start, end, hash), 0);
            InRange(start, end, p) && (p in used <==> !HasFree(start, end, used))
  {
    FoundFrom(start, end, used, BasePort(start, end, hash), 0);
  }

  /** Between the base port and the one found, going up and wrapping at the end of the range,
      all are taken: it is the next free one. */
  lemma {:induction false} FoundIsNext(start: int, end: int, used: set<int>, base: int, k: nat, q: int)
    requires start < end && InRange(start, end, base) && k <= end - start
    requires forall j | 0 <= j < k :: Nth(start, end, base, j) in used
    ensures var p := Found(start, end, used, base, k);
            (if p >= base then base <= q < p else base <= q < end || start <= q < p) ==> q in used
    decreases end - start - k
  {
    if k < end - start && Nth(start, end, base, k) in used {
      FoundIsNext(start, end, used, base, k + 1, q);
    } else if k < end - start {
      var p := Nth(start, end, base, k);
      if (if p >= base then base <= q < p else base <= q < end || start <= q < p) {
        var j := if q >= base then q - base else q - base + (end - start);
        assert Nth(start, end, base, j) == q;
      }
    }
  }

  // ----- Pigeonhole -----------------------------------------------------------

  lemma {:induction false} RangeFitsIn(start: int, end: int, used: set<int>)
    requires start <= end && forall p | start <= p < end :: p in used
    ensures end - start <= |used|
    decreases end - start
  {
    if start < end {
      var rest := used - {end - 1};
      RangeFitsIn(start, end - 1, rest);
      assert used == rest + {end - 1};
    }
  }

  /** Fewer ports in use than the range has leaves one free. */
  lemma Pigeonhole(start: int, end: int, used: set<int>)
    requires |used| < end - start
    ensures HasFree(start, end, used)
  {
    if !HasFree(start, end, used) { RangeFitsIn(start, end, used); }
  }
}
