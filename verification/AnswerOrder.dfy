/** What the order of equal routes can do to a lookup: which routes a request can be
    answered with over all outcomes of the compiler's unstable sort, and exactly when
    there is only one. */
module AnswerOrder {
  import opened Prelude
  import opened Types
  import opened Compiler
  import opened CompilerProofs

  // ----- A lookup, seen from the route definitions ------------------------------

  datatype Rank = Rank(hi: int, lo: int)

  /** Both tables answer with the earliest of the best-ranked routes that match. */
  datatype Lookup = Lookup(kind: Kind, matches: RouteDefinition -> bool, rank: RouteDefinition -> Rank)
  {
    predicate Over(a: RouteDefinition, b: RouteDefinition) {
      rank(a).hi > rank(b).hi || (rank(a).hi == rank(b).hi && rank(a).lo > rank(b).lo)
    }

    /** The route, compiled, would match. */
    predicate Hit(r: RouteDefinition) { Served(kind, r) && matches(r) }

    /** Ranked higher, or equally high and sorted in front. */
    predicate Stronger(a: RouteDefinition, b: RouteDefinition) { Over(a, b) || (!Over(b, a) && Before(a, b)) }

    /** Does not keep `r` from being the answer. */
    predicate Yields(d: RouteDefinition, r: RouteDefinition) { !(Hit(d) && Stronger(d, r)) }

    predicate IsAnswer(ws: seq<RouteDefinition>, i: nat) {
      && i < |ws| && matches(ws[i])
      && forall j | 0 <= j < |ws| && matches(ws[j]) :: !Over(ws[j], ws[i]) && (j < i ==> Over(ws[i], ws[j]))
    }

    predicate AnyMatch(ws: seq<RouteDefinition>) { exists i | 0 <= i < |ws| :: matches(ws[i]) }
  }

  lemma {:induction false} AnswerExists(l: Lookup, ws: seq<RouteDefinition>) returns (i: nat)
    requires l.AnyMatch(ws)
    ensures l.IsAnswer(ws, i)
  {
    var n := |ws| - 1;
    if l.AnyMatch(ws[..n]) {
      i := AnswerExists(l, ws[..n]);
      assert forall j | 0 <= j < n :: ws[..n][j] == ws[j];
      if l.matches(ws[n]) && l.Over(ws[n], ws[i]) { i := n; }
    } else {
      assert forall j | 0 <= j < n :: ws[..n][j] == ws[j];
      i := n;
    }
  }

  /** The definitions compiled into a table, in its order. */
  function Kept(s: seq<RouteDefinition>, kind: Kind): seq<RouteDefinition> { Keep(Winners(s, kind), ServedIn(kind)) }

  // ----- Who can win a key ---------------------------------------------------------

  /** A claimant that no other claimant of its key sorts in front of. */
  ghost predicate Top(m: multiset<RouteDefinition>, kind: Kind, r: RouteDefinition) {
    r in m && InKind(kind, r) && forall t | t in m && Claiming(kind, Key(kind, r))(t) :: !Before(t, r)
  }

  lemma KeptExactly(s: seq<RouteDefinition>, kind: Kind, r: RouteDefinition)
    ensures r in Kept(s, kind) <==>
            InKind(kind, r) && Served(kind, r) && WinnerFor(s, kind, Key(kind, r)) == Some(r)
  {
    hide Winners, Keep, Key, InKind, WinnerFor, Served;
    assert r in Kept(s, kind) <==> r in multiset(Kept(s, kind));
    KeepCount(Winners(s, kind), ServedIn(kind), r);
    WinnersCount(s, kind, r);
  }

  lemma WinnerIsTop(s: seq<RouteDefinition>, kind: Kind, k: string)
    requires Sorted(s) && WinnerFor(s, kind, k).Some?
    ensures var w := WinnerFor(s, kind, k).value; Top(multiset(s), kind, w) && InKind(kind, w) && Key(kind, w) == k
  {
    hide Key, InKind, First;
    WinnerIsBest(s, kind, k);
    assert forall t :: t in s <==> t in multiset(s);
  }

  lemma TopHasWinner(s: seq<RouteDefinition>, kind: Kind, d: RouteDefinition)
    requires Sorted(s) && Top(multiset(s), kind, d)
    ensures WinnerFor(s, kind, Key(kind, d)).Some? && Tied(WinnerFor(s, kind, Key(kind, d)).value, d)
  {
    hide Key, InKind;
    assert d in s && Claiming(kind, Key(kind, d))(d);
    WinnerIsBest(s, kind, Key(kind, d));
    var w := WinnerFor(s, kind, Key(kind, d)).value;
    assert w in multiset(s);
    TiedMeansUnordered(w, d);
  }

  // ----- Arranging ties ---------------------------------------------------------------

  type Level = RouteDefinition -> int

  /** Sorted, and ties by level. */
  predicate Earlier(lv: Level, a: RouteDefinition, b: RouteDefinition) {
    Before(a, b) || (Tied(a, b) && lv(a) < lv(b))
  }

  predicate Arranged(s: seq<RouteDefinition>, lv: Level) {
    forall i, j | 0 <= i < j < |s| :: !Earlier(lv, s[j], s[i])
  }

  lemma EarlierTransitive(lv: Level, a: RouteDefinition, b: RouteDefinition, c: RouteDefinition)
    requires Earlier(lv, a, b) && Earlier(lv, b, c)
    ensures Earlier(lv, a, c)
  {
    if Before(a, b) && Before(b, c) { BeforeTransitive(a, b, c); }
  }

  lemma EarlierIrreflexive(lv: Level, a: RouteDefinition)
    ensures !Earlier(lv, a, a)
  {
    TiedMeansUnordered(a, a);
  }

  lemma {:induction false} EarliestExists(s: seq<RouteDefinition>, lv: Level) returns (m: nat)
    requires s != []
    ensures m < |s| && forall i | 0 <= i < |s| :: !Earlier(lv, s[i], s[m])
  {
    hide Earlier;
    var n := |s| - 1;
    m := n;
    EarlierIrreflexive(lv, s[n]);
    if n > 0 {
      var k := EarliestExists(s[..n], lv);
      assert forall i | 0 <= i < n :: s[..n][i] == s[i];
      if Earlier(lv, s[n], s[k]) {
        forall i | 0 <= i < n && Earlier(lv, s[i], s[n])
          ensures false
        {
          EarlierTransitive(lv, s[i], s[n], s[k]);
        }
      } else {
        m := k;
      }
    }
  }

  /** Every list of routes has an arrangement by any levels. */
  lemma {:induction false} ArrangementExists(s: seq<RouteDefinition>, lv: Level) returns (t: seq<RouteDefinition>)
    ensures multiset(t) == multiset(s) && Arranged(t, lv)
    decreases |s|
  {
    t := [];
    if s != [] {
      hide Earlier, Without;
      var m := EarliestExists(s, lv);
      WithoutMultiset(s, m);
      assert |multiset(Without(s, m))| == |multiset(s)| - 1;
      var rest := ArrangementExists(Without(s, m), lv);
      t := [s[m]] + rest;
      forall i | 0 <= i < |rest|
        ensures !Earlier(lv, rest[i], s[m])
      {
        assert rest[i] in multiset(rest) && rest[i] in multiset(s);
      }
    }
  }

  lemma ArrangedIsSorted(s: seq<RouteDefinition>, lv: Level)
    requires Arranged(s, lv)
    ensures Sorted(s)
  {
    assert forall i, j | 0 <= i < j < |s| :: !Earlier(lv, s[j], s[i]);
  }

  /** An arrangement of a sorted list is another outcome of the sort. */
  lemma Arrangement(s: seq<RouteDefinition>, lv: Level) returns (t: seq<RouteDefinition>)
    requires Sorted(s)
    ensures Reordering(s, t) && Arranged(t, lv)
  {
    hide Sorted, Arranged;
    t := ArrangementExists(s, lv);
    ArrangedIsSorted(t, lv);
  }

  lemma {:induction false} WinnersArranged(s: seq<RouteDefinition>, kind: Kind, lv: Level)
    requires Arranged(s, lv)
    ensures Arranged(Winners(s, kind), lv) && forall r | r in Winners(s, kind) :: r in s
  {
    hide Earlier, Key, InKind, WinnerFor;
    if s != [] {
      var n := |s| - 1;
      WinnersArranged(s[..n], kind, lv);
      assert forall r | r in s[..n] :: !Earlier(lv, s[n], r);
    }
  }

  lemma {:induction false} KeepArranged(s: seq<RouteDefinition>, p: RouteDefinition -> bool, lv: Level)
    requires Arranged(s, lv)
    ensures Arranged(Keep(s, p), lv) && forall r | r in Keep(s, p) :: r in s
  {
    hide Earlier;
    if s != [] {
      var n := |s| - 1;
      KeepArranged(s[..n], p, lv);
      assert forall r | r in s[..n] :: !Earlier(lv, s[n], r);
    }
  }

  lemma KeptArranged(s: seq<RouteDefinition>, kind: Kind, lv: Level)
    requires Arranged(s, lv)
    ensures Arranged(Kept(s, kind), lv)
  {
    hide Arranged, Winners, Keep;
    WinnersArranged(s, kind, lv);
    KeepArranged(Winners(s, kind), ServedIn(kind), lv);
  }

  /** The winner of a key has the lowest level among its top claimants. */
  lemma WinnerLevel(s: seq<RouteDefinition>, kind: Kind, lv: Level, d: RouteDefinition)
    requires Arranged(s, lv) && Top(multiset(s), kind, d)
    ensures var w := WinnerFor(s, kind, Key(kind, d)); w.Some? && lv(w.value) <= lv(d)
  {
    hide Key, InKind;
    ArrangedIsSorted(s, lv);
    TopHasWinner(s, kind, d);
    var i := FirstIn(s, Claiming(kind, Key(kind, d)));
    assert d in s;
    var j :| 0 <= j < |s| && s[j] == d;
    assert Claiming(kind, Key(kind, d))(s[j]);
    assert i < j ==> !Earlier(lv, s[j], s[i]);
  }

  // ----- What a request can be answered with ---------------------------------------------

  ghost predicate KeyYields(m: multiset<RouteDefinition>, l: Lookup, k: string, r: RouteDefinition) {
    exists d :: Top(m, l.kind, d) && Key(l.kind, d) == k && l.Yields(d, r)
  }

  ghost predicate KeyMisses(m: multiset<RouteDefinition>, l: Lookup, k: string) {
    exists d :: Top(m, l.kind, d) && Key(l.kind, d) == k && !l.Hit(d)
  }

  /** `r` can win its key and would match, and every key has a top claimant that yields to it. */
  ghost predicate CanAnswer(m: multiset<RouteDefinition>, l: Lookup, r: RouteDefinition) {
    && Top(m, l.kind, r) && l.Hit(r)
    && forall c | Top(m, l.kind, c) :: KeyYields(m, l, Key(l.kind, c), r)
  }

  /** Every key has a top claimant that would not match. */
  ghost predicate CanMiss(m: multiset<RouteDefinition>, l: Lookup) {
    forall c | Top(m, l.kind, c) :: KeyMisses(m, l, Key(l.kind, c))
  }

  lemma KeptIsTop(t: seq<RouteDefinition>, kind: Kind, i: nat)
    requires Sorted(t) && i < |Kept(t, kind)|
    ensures var w := Kept(t, kind)[i];
            Top(multiset(t), kind, w) && Served(kind, w) && WinnerFor(t, kind, Key(kind, w)) == Some(w)
  {
    hide Kept, Sorted, Top, WinnerFor, Key, InKind, Served;
    KeptExactly(t, kind, Kept(t, kind)[i]);
    WinnerIsTop(t, kind, Key(kind, Kept(t, kind)[i]));
  }

  lemma KeptOnce(t: seq<RouteDefinition>, kind: Kind, i: nat, j: nat)
    requires i < |Kept(t, kind)| && j < |Kept(t, kind)| && Kept(t, kind)[i] == Kept(t, kind)[j]
    ensures i == j
  {
    hide Winners, Keep, Key;
    WinnersDistinct(t, kind);
    KeepDistinct(Winners(t, kind), kind, ServedIn(kind));
  }

  /** The routes answered with are possible answers. */
  lemma AnswerIsPossible(t: seq<RouteDefinition>, l: Lookup, i: nat)
    requires Sorted(t) && l.IsAnswer(Kept(t, l.kind), i)
    ensures CanAnswer(multiset(t), l, Kept(t, l.kind)[i])
  {
    hide Kept, Top, Key, Served, WinnerFor, Sorted, Lookup.Over;
    var ws := Kept(t, l.kind);
    KeptIsTop(t, l.kind, i);
    forall c | Top(multiset(t), l.kind, c)
      ensures KeyYields(multiset(t), l, Key(l.kind, c), ws[i])
    {
      TopHasWinner(t, l.kind, c);
      var w := WinnerFor(t, l.kind, Key(l.kind, c)).value;
      WinnerIsTop(t, l.kind, Key(l.kind, c));
      WinnerYields(t, l, i, w);
    }
  }

  lemma WinnerYields(t: seq<RouteDefinition>, l: Lookup, i: nat, w: RouteDefinition)
    requires Sorted(t) && l.IsAnswer(Kept(t, l.kind), i)
    requires InKind(l.kind, w) && WinnerFor(t, l.kind, Key(l.kind, w)) == Some(w)
    ensures l.Yields(w, Kept(t, l.kind)[i])
  {
    hide Kept, Key, Served, WinnerFor, InKind, Lookup.Over;
    if l.Hit(w) {
      KeptExactly(t, l.kind, w);
      var ws := Kept(t, l.kind);
      var j :| 0 <= j < |ws| && ws[j] == w;
      TiedMeansUnordered(w, w);
      SortedKept(t, l.kind);
    }
  }

  lemma SortedKept(t: seq<RouteDefinition>, kind: Kind)
    requires Sorted(t)
    ensures Sorted(Kept(t, kind))
  {
    var flat: Level := r => 0;
    assert Arranged(t, flat);
    KeptArranged(t, kind, flat);
    ArrangedIsSorted(Kept(t, kind), flat);
  }

  /** Levels that put `r` first and what does not yield to it last. */
  function Favouring(l: Lookup, r: RouteDefinition): Level {
    d => if d == r then 0 else if l.Yields(d, r) then 1 else 2
  }

  lemma YieldingClaimant(m: multiset<RouteDefinition>, l: Lookup, r: RouteDefinition, c: RouteDefinition)
    returns (d: RouteDefinition)
    requires CanAnswer(m, l, r) && Top(m, l.kind, c)
    ensures Top(m, l.kind, d) && Key(l.kind, d) == Key(l.kind, c) && l.Yields(d, r)
  {
    hide Top, Key, Lookup.Yields;
    assert KeyYields(m, l, Key(l.kind, c), r);
    d :| Top(m, l.kind, d) && Key(l.kind, d) == Key(l.kind, c) && l.Yields(d, r);
  }

  lemma CanAnswerHits(m: multiset<RouteDefinition>, l: Lookup, r: RouteDefinition)
    requires CanAnswer(m, l, r)
    ensures Top(m, l.kind, r) && InKind(l.kind, r) && l.Hit(r) && l.matches(r)
  {
    hide Key, KeyYields;
  }

  /** With these levels every winner of a key is `r` or yields to it. */
  lemma WinnersYield(t: seq<RouteDefinition>, l: Lookup, r: RouteDefinition, j: nat)
    requires CanAnswer(multiset(t), l, r) && Arranged(t, Favouring(l, r)) && j < |Kept(t, l.kind)|
    ensures var w := Kept(t, l.kind)[j]; w == r || l.Yields(w, r)
  {
    hide Kept, Top, Key, WinnerFor, Arranged, Lookup.Yields, Lookup.Hit, CanAnswer;
    ArrangedIsSorted(t, Favouring(l, r));
    KeptIsTop(t, l.kind, j);
    var w := Kept(t, l.kind)[j];
    var d := YieldingClaimant(multiset(t), l, r, w);
    WinnerLevel(t, l.kind, Favouring(l, r), d);
  }

  lemma FavouredIsKept(t: seq<RouteDefinition>, l: Lookup, r: RouteDefinition) returns (i: nat)
    requires CanAnswer(multiset(t), l, r) && Arranged(t, Favouring(l, r))
    ensures i < |Kept(t, l.kind)| && Kept(t, l.kind)[i] == r
  {
    hide Kept, WinnerFor, Arranged, Lookup.Yields, Key, InKind, CanAnswer, Top, Served;
    CanAnswerHits(multiset(t), l, r);
    ArrangedIsSorted(t, Favouring(l, r));
    WinnerLevel(t, l.kind, Favouring(l, r), r);
    KeptExactly(t, l.kind, r);
    var ws := Kept(t, l.kind);
    i :| 0 <= i < |ws| && ws[i] == r;
  }

  /** Behind `r` in rank, and not in front of it unless outranked. */
  lemma FavouredBeats(t: seq<RouteDefinition>, l: Lookup, r: RouteDefinition, i: nat, j: nat)
    requires CanAnswer(multiset(t), l, r) && Arranged(t, Favouring(l, r))
    ensures var ws := Kept(t, l.kind);
            i < |ws| && ws[i] == r && j < |ws| && l.matches(ws[j])
            ==> !l.Over(ws[j], r) && (j < i ==> l.Over(r, ws[j]))
  {
    hide Kept, CanAnswer, WinnerFor, Key, Top;
    var ws := Kept(t, l.kind);
    if i < |ws| && ws[i] == r && j < |ws| && l.matches(ws[j]) {
      var w := ws[j];
      WinnersYield(t, l, r, j);
      ArrangedIsSorted(t, Favouring(l, r));
      KeptIsTop(t, l.kind, j);
      KeptArranged(t, l.kind, Favouring(l, r));
      TiedMeansUnordered(w, r);
      if w == r { KeptOnce(t, l.kind, i, j); }
    }
  }

  /** Every possible answer is given by some outcome of the sort. */
  lemma PossibleIsAnswered(s: seq<RouteDefinition>, l: Lookup, r: RouteDefinition) returns (t: seq<RouteDefinition>, i: nat)
    requires Sorted(s) && CanAnswer(multiset(s), l, r)
    ensures Reordering(s, t) && l.IsAnswer(Kept(t, l.kind), i) && Kept(t, l.kind)[i] == r
  {
    hide Kept, Arranged, Favouring, Sorted, Lookup.Over, CanAnswer;
    t := Arrangement(s, Favouring(l, r));
    i := FavouredIsKept(t, l, r);
    var ws := Kept(t, l.kind);
    forall j | 0 <= j < |ws| && l.matches(ws[j])
      ensures !l.Over(ws[j], ws[i]) && (j < i ==> l.Over(ws[i], ws[j]))
    {
      FavouredBeats(t, l, r, i, j);
    }
    CanAnswerHits(multiset(s), l, r);
  }

  /** A lookup finds nothing only if every key can go to a claimant that would not match. */
  lemma MissIsPossible(t: seq<RouteDefinition>, l: Lookup)
    requires Sorted(t) && !l.AnyMatch(Kept(t, l.kind))
    ensures CanMiss(multiset(t), l)
  {
    hide Kept, Top, Key, Served, WinnerFor, Sorted;
    var ws := Kept(t, l.kind);
    forall c | Top(multiset(t), l.kind, c)
      ensures KeyMisses(multiset(t), l, Key(l.kind, c))
    {
      TopHasWinner(t, l.kind, c);
      WinnerIsTop(t, l.kind, Key(l.kind, c));
      var w := WinnerFor(t, l.kind, Key(l.kind, c)).value;
      if l.Hit(w) { WinnerHits(t, l, w); }
    }
  }

  lemma WinnerHits(t: seq<RouteDefinition>, l: Lookup, w: RouteDefinition)
    requires l.Hit(w) && InKind(l.kind, w) && WinnerFor(t, l.kind, Key(l.kind, w)) == Some(w)
    ensures l.AnyMatch(Kept(t, l.kind))
  {
    hide Kept, Key, Served, WinnerFor, InKind;
    KeptExactly(t, l.kind, w);
    var ws := Kept(t, l.kind);
    var j :| 0 <= j < |ws| && ws[j] == w;
  }

  /** Levels that put what would match last. */
  function Disfavouring(l: Lookup): Level { d => if l.Hit(d) then 1 else 0 }

  /** And then some outcome of the sort finds nothing. */
  lemma PossibleIsMissed(s: seq<RouteDefinition>, l: Lookup) returns (t: seq<RouteDefinition>)
    requires Sorted(s) && CanMiss(multiset(s), l)
    ensures Reordering(s, t) && !l.AnyMatch(Kept(t, l.kind))
  {
    hide Kept, Arranged, Sorted, CanMiss, Disfavouring;
    t := Arrangement(s, Disfavouring(l));
    var ws := Kept(t, l.kind);
    forall j | 0 <= j < |ws|
      ensures !l.matches(ws[j])
    {
      DisfavouredMisses(t, l, j);
    }
  }

  lemma DisfavouredMisses(t: seq<RouteDefinition>, l: Lookup, j: nat)
    requires Arranged(t, Disfavouring(l))
    ensures CanMiss(multiset(t), l) && j < |Kept(t, l.kind)| ==> !l.matches(Kept(t, l.kind)[j])
  {
    hide Kept, Arranged, Sorted, Key, Top, Served, WinnerFor;
    if CanMiss(multiset(t), l) && j < |Kept(t, l.kind)| {
      ArrangedIsSorted(t, Disfavouring(l));
      KeptIsTop(t, l.kind, j);
      var w := Kept(t, l.kind)[j];
      assert KeyMisses(multiset(t), l, Key(l.kind, w));
      hide CanMiss;
      var d :| Top(multiset(t), l.kind, d) && Key(l.kind, d) == Key(l.kind, w) && !l.Hit(d);
      WinnerLevel(t, l.kind, Disfavouring(l), d);
    }
  }

  // ----- When there is one answer only ------------------------------------------------------

  /** All possible answers compile to the same route, and missing is not possible beside one. */
  ghost predicate Settled<T(!new)>(m: multiset<RouteDefinition>, l: Lookup, out: RouteDefinition -> T) {
    && (forall a, b | CanAnswer(m, l, a) && CanAnswer(m, l, b) :: out(a) == out(b))
    && (CanMiss(m, l) ==> forall a :: !CanAnswer(m, l, a))
  }

  /** Two lists give the same answer. */
  ghost predicate SameAnswer<T(!new)>(l: Lookup, a: seq<RouteDefinition>, b: seq<RouteDefinition>, out: RouteDefinition -> T) {
    && (l.AnyMatch(a) <==> l.AnyMatch(b))
    && forall i: nat, j: nat | l.IsAnswer(a, i) && l.IsAnswer(b, j) :: out(a[i]) == out(b[j])
  }

  lemma SettledSameAnswer<T(!new)>(s: seq<RouteDefinition>, t: seq<RouteDefinition>, l: Lookup, out: RouteDefinition -> T)
    requires Reordering(s, t) && Settled(multiset(s), l, out)
    ensures SameAnswer(l, Kept(s, l.kind), Kept(t, l.kind), out)
  {
    hide Kept, Sorted, CanAnswer, CanMiss, Lookup.Over, Lookup.AnyMatch;
    var a, b := Kept(s, l.kind), Kept(t, l.kind);
    forall i: nat, j: nat | l.IsAnswer(a, i) && l.IsAnswer(b, j)
      ensures out(a[i]) == out(b[j])
    {
      AnswerIsPossible(s, l, i);
      AnswerIsPossible(t, l, j);
    }
    AnswerOrMiss(s, l);
    AnswerOrMiss(t, l);
  }

  lemma AnswerOrMiss(t: seq<RouteDefinition>, l: Lookup)
    requires Sorted(t)
    ensures if l.AnyMatch(Kept(t, l.kind)) then exists r :: CanAnswer(multiset(t), l, r) else CanMiss(multiset(t), l)
  {
    hide Kept, Sorted, CanAnswer, CanMiss, Lookup.AnyMatch;
    if l.AnyMatch(Kept(t, l.kind)) {
      var i := AnswerExists(l, Kept(t, l.kind));
      AnswerIsPossible(t, l, i);
    } else {
      MissIsPossible(t, l);
    }
  }

  /** A possible answer is, compiled, the answer of every order that answers the same. */
  lemma PossibleIsTheAnswer<T(!new)>(s: seq<RouteDefinition>, l: Lookup, out: RouteDefinition -> T, r: RouteDefinition) returns (i: nat)
    requires Sorted(s) && CanAnswer(multiset(s), l, r)
    requires forall t | Reordering(s, t) :: SameAnswer(l, Kept(s, l.kind), Kept(t, l.kind), out)
    ensures l.IsAnswer(Kept(s, l.kind), i) && out(Kept(s, l.kind)[i]) == out(r)
  {
    hide Kept, Sorted, CanAnswer, Lookup.Over;
    var t, j := PossibleIsAnswered(s, l, r);
    assert SameAnswer(l, Kept(s, l.kind), Kept(t, l.kind), out);
    i := AnswerExists(l, Kept(s, l.kind));
  }

  /** However ties are sorted, a lookup gives the same answer exactly if it is settled. */
  lemma SettledExactly<T(!new)>(s: seq<RouteDefinition>, l: Lookup, out: RouteDefinition -> T)
    requires Sorted(s)
    ensures (forall t | Reordering(s, t) :: SameAnswer(l, Kept(s, l.kind), Kept(t, l.kind), out))
            <==> Settled(multiset(s), l, out)
  {
    hide Kept, Sorted, CanAnswer, CanMiss, Lookup.IsAnswer;
    if Settled(multiset(s), l, out) {
      forall t | Reordering(s, t)
        ensures SameAnswer(l, Kept(s, l.kind), Kept(t, l.kind), out)
      {
        SettledSameAnswer(s, t, l, out);
      }
    }
    if forall t | Reordering(s, t) :: SameAnswer(l, Kept(s, l.kind), Kept(t, l.kind), out) {
      forall a, b | CanAnswer(multiset(s), l, a) && CanAnswer(multiset(s), l, b)
        ensures out(a) == out(b)
      {
        var i := PossibleIsTheAnswer(s, l, out, a);
        var j := PossibleIsTheAnswer(s, l, out, b);
      }
      forall a | CanMiss(multiset(s), l) && CanAnswer(multiset(s), l, a)
        ensures false
      {
        var t := PossibleIsMissed(s, l);
        assert SameAnswer(l, Kept(s, l.kind), Kept(t, l.kind), out);
        var i := PossibleIsTheAnswer(s, l, out, a);
        AnswerMatches(l, Kept(s, l.kind), i);
      }
    }
  }

  lemma AnswerMatches(l: Lookup, ws: seq<RouteDefinition>, i: nat)
    requires l.IsAnswer(ws, i)
    ensures l.AnyMatch(ws)
  {
  }

  // ----- Where every key has one top claimant -----------------------------------------------

  lemma TopUnique(m: multiset<RouteDefinition>, kind: Kind, c: RouteDefinition, d: RouteDefinition)
    requires Decided(m) && Top(m, kind, c) && Top(m, kind, d) && Key(kind, c) == Key(kind, d)
    ensures c == d
  {
    hide Key, InKind;
    TiedMeansUnordered(c, d);
    assert !TopTie(m, kind, c, d);
  }

  /** A served top claimant that matches, with no stronger one. */
  ghost predicate Contends(m: multiset<RouteDefinition>, l: Lookup, r: RouteDefinition) {
    Top(m, l.kind, r) && l.Hit(r) && forall c | Top(m, l.kind, c) && l.Hit(c) :: !l.Stronger(c, r)
  }

  lemma DecidedAnswers(m: multiset<RouteDefinition>, l: Lookup, r: RouteDefinition)
    requires Decided(m)
    ensures CanAnswer(m, l, r) <==> Contends(m, l, r)
  {
    hide Top, Key, Decided, Lookup.Hit, Lookup.Stronger;
    if CanAnswer(m, l, r) {
      forall c | Top(m, l.kind, c) && l.Hit(c)
        ensures !l.Stronger(c, r)
      {
        var d := YieldingClaimant(m, l, r, c);
        TopUnique(m, l.kind, c, d);
      }
    } else if Contends(m, l, r) {
      forall c | Top(m, l.kind, c)
        ensures KeyYields(m, l, Key(l.kind, c), r)
      {
        assert l.Yields(c, r);
      }
    }
  }

  lemma DecidedMisses(m: multiset<RouteDefinition>, l: Lookup)
    requires Decided(m) && CanMiss(m, l)
    ensures forall c | Top(m, l.kind, c) :: !l.Hit(c)
  {
    hide Top, Key, Decided, Lookup.Hit;
    forall c | Top(m, l.kind, c)
      ensures !l.Hit(c)
    {
      assert KeyMisses(m, l, Key(l.kind, c));
      var d :| Top(m, l.kind, d) && Key(l.kind, d) == Key(l.kind, c) && !l.Hit(d);
      TopUnique(m, l.kind, c, d);
    }
  }

  /** If no two claimants tie at the top of a key, a lookup is settled exactly if all that
      contend for it compile to the same route. */
  lemma DecidedSettledExactly<T(!new)>(m: multiset<RouteDefinition>, l: Lookup, out: RouteDefinition -> T)
    requires Decided(m)
    ensures Settled(m, l, out) <==> forall a, b | Contends(m, l, a) && Contends(m, l, b) :: out(a) == out(b)
  {
    forall r
      ensures CanAnswer(m, l, r) <==> Contends(m, l, r)
    {
      DecidedAnswers(m, l, r);
    }
    if CanMiss(m, l) { DecidedMisses(m, l); }
    hide CanAnswer, CanMiss, Decided, Top, Lookup.Hit, Lookup.Stronger;
  }
}
