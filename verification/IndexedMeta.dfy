/** Indexed route metadata, `caddy-route-N-field` (metadata.go): grouping the keys by
    index whatever order the map is walked in. */
module IndexedMeta {
  import opened Prelude
  import opened Strings

  type Meta = map<string, string>

  // ----- Keys ---------------------------------------------------------------------

  const INDEXED_PREFIX := "caddy-route-"

  function DigitRun(s: string): (n: nat)
    ensures n <= |s| && AllDigits(s[..n]) && (n < |s| ==> !IsDigit(s[n]))
  {
    if s == "" || !IsDigit(s[0]) then 0 else
      var n := 1 + DigitRun(s[1..]);
      assert forall i | 0 < i < n :: s[i] == s[1..][i - 1];
      n
  }

  /** The regular expression ^caddy-route-(\d+)-(.+)$ */
  predicate IsIndexed(k: string) {
    HasPrefix(k, INDEXED_PREFIX)
    && var rest := k[|INDEXED_PREFIX|..];
       var n := DigitRun(rest);
       0 < n < |rest| - 1 && rest[n] == '-' && '\n' !in rest[n + 1..]
  }

  datatype Spelled = Spelled(index: nat, field: string)

  /** What a key spells; an index that does not fit an int is skipped. */
  function ParseKey(k: string): Option<Spelled> {
    if !IsIndexed(k) then None else
      var rest := k[|INDEXED_PREFIX|..];
      var n := DigitRun(rest);
      var index := DigitsValue(rest[..n]);
      if index > MAX_INT then None else Some(Spelled(index, rest[n + 1..]))
  }

  // ----- Grouping, for one order of the map ----------------------------------------

  type Indexed = map<nat, Meta>

  /** The order lists every key of the map once. */
  ghost predicate Iterates(order: seq<string>, meta: Meta) {
    (forall k :: k in order <==> k in meta) && Distinct(order)
  }

  function Put(g: Indexed, s: Spelled, v: string): Indexed {
    g[s.index := (if s.index in g then g[s.index] else map[])[s.field := v]]
  }

  function Grouped(meta: Meta, order: seq<string>): Indexed {
    if order == [] then map[] else
      var n := |order| - 1;
      var g := Grouped(meta, order[..n]);
      if order[n] in meta && ParseKey(order[n]).Some?
      then Put(g, ParseKey(order[n]).value, meta[order[n]]) else g
  }

  function At(g: Indexed, s: Spelled): Option<string> {
    if s.index in g && s.field in g[s.index] then Some(g[s.index][s.field]) else None
  }

  ghost predicate NoEmptyGroup(g: Indexed) { forall i | i in g :: g[i] != map[] }

  /** The key spells this index and field. */
  predicate Spells(k: string, s: Spelled) { ParseKey(k) == Some(s) }

  /** The value of the last key in the order that spells a field. */
  function LastSpelling(meta: Meta, order: seq<string>, s: Spelled): Option<string> {
    if order == [] then None else
      var n := |order| - 1;
      if order[n] in meta && Spells(order[n], s) then Some(meta[order[n]]) else LastSpelling(meta, order[..n], s)
  }

  lemma {:induction false} GroupedIsLast(meta: Meta, order: seq<string>, s: Spelled)
    ensures At(Grouped(meta, order), s) == LastSpelling(meta, order, s)
    ensures NoEmptyGroup(Grouped(meta, order))
  {
    hide ParseKey, Put;
    if order != [] {
      var n := |order| - 1;
      GroupedIsLast(meta, order[..n], s);
      if order[n] in meta && ParseKey(order[n]).Some? {
        PutAt(Grouped(meta, order[..n]), ParseKey(order[n]).value, meta[order[n]], s);
      }
    }
  }

  lemma {:induction false} LastSpellingFound(meta: Meta, order: seq<string>, s: Spelled)
    requires forall i | 0 <= i < |order| :: order[i] in meta
    ensures var v := LastSpelling(meta, order, s);
            && (v.None? <==> forall i | 0 <= i < |order| :: !Spells(order[i], s))
            && (v.Some? ==> exists i | 0 <= i < |order| :: Spells(order[i], s) && v.value == meta[order[i]])
  {
    hide Spells;
    if order != [] {
      var n := |order| - 1;
      LastSpellingFound(meta, order[..n], s);
      assert forall i | 0 <= i < n :: order[..n][i] == order[i];
    }
  }

  /** The groups hold what the keys spell; the last one in the order decides. */
  lemma GroupedAt(meta: Meta, order: seq<string>, s: Spelled)
    requires forall k | k in order :: k in meta
    ensures var v := At(Grouped(meta, order), s);
            && (v.None? <==> forall i | 0 <= i < |order| :: !Spells(order[i], s))
            && (v.Some? ==> exists i | 0 <= i < |order| :: Spells(order[i], s) && v.value == meta[order[i]])
            && (order != [] && Spells(order[|order| - 1], s) ==> v == Some(meta[order[|order| - 1]]))
    ensures NoEmptyGroup(Grouped(meta, order))
  {
    hide Spells, Grouped, At;
    assert forall i | 0 <= i < |order| :: order[i] in order;
    GroupedIsLast(meta, order, s);
    LastSpellingFound(meta, order, s);
  }

  lemma PutAt(g: Indexed, t: Spelled, v: string, s: Spelled)
    ensures At(Put(g, t, v), s) == if s == t then Some(v) else At(g, s)
    ensures NoEmptyGroup(g) ==> NoEmptyGroup(Put(g, t, v))
  {
    var fields := (if t.index in g then g[t.index] else map[])[t.field := v];
    assert t.field in fields;
  }

  lemma SameGroups(g: Indexed, h: Indexed)
    requires NoEmptyGroup(g) && NoEmptyGroup(h) && forall s :: At(g, s) == At(h, s)
    ensures g == h
  {
    assert forall i | i in g :: i in h by { SubGroups(g, h); }
    assert forall i | i in h :: i in g by { SubGroups(h, g); }
    forall i | i in g
      ensures g[i] == h[i]
    {
      forall f
        ensures (f in g[i] <==> f in h[i]) && (f in g[i] ==> g[i][f] == h[i][f])
      {
        assert At(g, Spelled(i, f)) == At(h, Spelled(i, f));
      }
    }
  }

  lemma SubGroups(g: Indexed, h: Indexed)
    requires NoEmptyGroup(g) && forall s :: At(g, s) == At(h, s)
    ensures forall i | i in g :: i in h
  {
    forall i | i in g
      ensures i in h
    {
      Inhabited(g[i].Keys);
      var f :| f in g[i];
      assert At(g, Spelled(i, f)) == At(h, Spelled(i, f));
    }
  }

  // ----- Order independence ----------------------------------------------------------

  /** No two keys spell one field with different values, as 0 and 00 can. */
  ghost predicate Unambiguous(meta: Meta) {
    forall k, l | k in meta && l in meta && ParseKey(k).Some? && ParseKey(k) == ParseKey(l) :: meta[k] == meta[l]
  }

  lemma NotSpelled(o1: seq<string>, o2: seq<string>, meta: Meta, s: Spelled)
    requires Iterates(o1, meta) && Iterates(o2, meta) && forall i | 0 <= i < |o1| :: !Spells(o1[i], s)
    ensures forall i | 0 <= i < |o2| :: !Spells(o2[i], s)
  {
    hide ParseKey;
    assert forall i | 0 <= i < |o2| :: o2[i] in o1;
  }

  lemma SameForAllOrders(meta: Meta, o1: seq<string>, o2: seq<string>)
    requires Iterates(o1, meta) && Iterates(o2, meta) && Unambiguous(meta)
    ensures Grouped(meta, o1) == Grouped(meta, o2)
  {
    forall s
      ensures At(Grouped(meta, o1), s) == At(Grouped(meta, o2), s)
    {
      GroupedAt(meta, o1, s);
      GroupedAt(meta, o2, s);
      hide ParseKey, Grouped;
      var v, w := At(Grouped(meta, o1), s), At(Grouped(meta, o2), s);
      if v.Some? {
        var i :| 0 <= i < |o1| && Spells(o1[i], s) && v.value == meta[o1[i]];
        assert o1[i] in o2;
        var j :| 0 <= j < |o2| && o2[j] == o1[i];
        assert Spells(o2[j], s);
      } else {
        NotSpelled(o1, o2, meta, s);
      }
    }
    GroupedAt(meta, o1, Spelled(0, ""));
    GroupedAt(meta, o2, Spelled(0, ""));
    SameGroups(Grouped(meta, o1), Grouped(meta, o2));
  }

  /** The order with one key moved to its end. */
  lemma MoveLast(order: seq<string>, meta: Meta, k: string) returns (moved: seq<string>)
    requires Iterates(order, meta) && k in meta
    ensures Iterates(moved, meta) && moved != [] && moved[|moved| - 1] == k
  {
    assert k in order;
    var i :| 0 <= i < |order| && order[i] == k;
    WithoutDistinct(order, i);
    hide Without;
    moved := Without(order, i) + [k];
    AppendDistinct(Without(order, i), k);
  }

  lemma AppendDistinct(s: seq<string>, k: string)
    requires Distinct(s) && k !in s
    ensures Distinct(s + [k]) && forall x :: x in s + [k] <==> x in s || x == k
  {
  }

  predicate Distinct(s: seq<string>) { forall i, j | 0 <= i < j < |s| :: s[i] != s[j] }

  lemma WithoutDistinct(s: seq<string>, i: nat)
    requires i < |s| && Distinct(s)
    ensures Distinct(Without(s, i))
    ensures forall x :: x in Without(s, i) <==> x in s && x != s[i]
  {
    var t := Without(s, i);
    assert forall j | 0 <= j < |t| :: t[j] == s[if j < i then j else j + 1];
    forall x | x in s && x != s[i]
      ensures x in t
    {
      var j :| 0 <= j < |s| && s[j] == x;
      assert t[if j < i then j else j - 1] == x;
    }
  }

  /** Every walk of the map gives the same groups exactly if no field is spelled twice
      with different values. */
  lemma OrderIndependentExactly(meta: Meta, order: seq<string>)
    requires Iterates(order, meta)
    ensures (forall o :: Iterates(o, meta) ==> Grouped(meta, o) == Grouped(meta, order)) <==> Unambiguous(meta)
  {
    if Unambiguous(meta) {
      forall o | Iterates(o, meta)
        ensures Grouped(meta, o) == Grouped(meta, order)
      {
        SameForAllOrders(meta, o, order);
      }
    } else {
      var k, l :| k in meta && l in meta && ParseKey(k).Some? && ParseKey(k) == ParseKey(l) && meta[k] != meta[l];
      var s := ParseKey(k).value;
      hide ParseKey, Grouped;
      var o1 := MoveLast(order, meta, k);
      var o2 := MoveLast(order, meta, l);
      GroupedAt(meta, o1, s);
      GroupedAt(meta, o2, s);
      assert Spells(k, s) && Spells(l, s);
      assert At(Grouped(meta, o1), s) != At(Grouped(meta, o2), s);
    }
  }
}
