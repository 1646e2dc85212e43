/** Writing routes as metadata or tags and reading them back (metadata.go). */
module MetaRoundTrip {
  import opened Prelude
  import opened Strings
  import opened Types
  import opened IndexedMeta
  import opened Metadata

  // ----- Numbers -------------------------------------------------------------------

  lemma AtoiItoa(n: int)
    requires -MAX_INT - 1 <= n <= MAX_INT
    ensures Atoi(Itoa(n)) == Some(n)
  {
    var d := Digits(if n < 0 then -n else n);
    DigitsRoundTrip(if n < 0 then -n else n);
    if n < 0 {
      assert Itoa(n)[1..] == d;
    } else {
      assert IsDigit(d[0]);
    }
  }

  // ----- One route -------------------------------------------------------------------

  function BoolText(b: bool): string { if b then "true" else "false" }

  function ProtocolText(p: Protocol): string {
    match p
    case HTTP => "http"
    case HTTPS => "https"
    case TCP => "tcp"
    case TLSPassthrough => "tls-passthrough"
    case OtherProtocol(name) => name
  }

  /** The documented fields of a route. */
  function FieldsOf(r: RouteDefinition): Meta {
    var base := map[
      "protocol" := ProtocolText(r.protocol), "host" := r.host, "path" := r.path, "port" := Itoa(r.port),
      "priority" := Itoa(r.priority), "weight" := Itoa(r.weight), "strip-prefix" := BoolText(r.stripPrefix),
      "enabled" := BoolText(r.enabled), "redirect-code" := Itoa(r.redirectCode), "redirect-url" := r.redirectURL,
      "redirect-no-cache" := BoolText(r.redirectNoCache)];
    if r.hasNoCacheStatus then base["no-cache-status" := r.noCacheStatusRaw] else base
  }

  predicate Fits(n: int) { -MAX_INT - 1 <= n <= MAX_INT }

  /** A route that metadata can express: nothing set that is filled in later, and
      numbers of an int. */
  predicate Expressible(r: RouteDefinition) {
    && r.serviceName == "" && r.upstreams == [] && r.via == "" && r.tagValues == map[]
    && Fits(r.port) && Fits(r.priority) && Fits(r.weight) && Fits(r.redirectCode)
    && (r.protocol.OtherProtocol? ==> r.protocol.name !in {"http", "https", "tcp", "tls-passthrough"})
    && (!r.hasNoCacheStatus ==> r.noCacheStatusRaw == "")
  }

  predicate Holds(f: Meta, name: string, v: string) { name in f && f[name] == v }

  lemma TextFields(r: RouteDefinition)
    ensures var f := FieldsOf(r);
            Holds(f, "protocol", ProtocolText(r.protocol)) && Holds(f, "host", r.host) && Holds(f, "path", r.path)
  {
    hide Itoa, ProtocolText, BoolText;
  }

  lemma NumberFields(r: RouteDefinition)
    ensures var f := FieldsOf(r);
            && Holds(f, "port", Itoa(r.port)) && Holds(f, "priority", Itoa(r.priority))
            && Holds(f, "weight", Itoa(r.weight)) && Holds(f, "redirect-code", Itoa(r.redirectCode))
  {
    hide Itoa, ProtocolText, BoolText;
  }

  lemma FlagFields(r: RouteDefinition)
    ensures var f := FieldsOf(r);
            && Holds(f, "strip-prefix", BoolText(r.stripPrefix)) && Holds(f, "enabled", BoolText(r.enabled))
            && Holds(f, "redirect-no-cache", BoolText(r.redirectNoCache)) && Holds(f, "redirect-url", r.redirectURL)
  {
    hide Itoa, ProtocolText, BoolText;
  }

  lemma OtherFields(r: RouteDefinition)
    ensures var f := FieldsOf(r);
            && "sni" !in f && ("no-cache-status" in f <==> r.hasNoCacheStatus)
            && (r.hasNoCacheStatus ==> Holds(f, "no-cache-status", r.noCacheStatusRaw))
  {
    hide Itoa, ProtocolText, BoolText;
  }

  lemma ProtocolReadsBack(p: Protocol)
    requires p.OtherProtocol? ==> p.name !in {"http", "https", "tcp", "tls-passthrough"}
    ensures ToProtocol(ProtocolText(p)) == p
  {
  }

  lemma RouteFromFields(r: RouteDefinition)
    requires Expressible(r)
    ensures RouteFrom(FieldsOf(r)) == r
  {
    ProtocolReadsBack(r.protocol);
    hide FieldsOf, Itoa, Atoi, ToProtocol, ProtocolText;
    TextFields(r);
    NumberFields(r);
    FlagFields(r);
    OtherFields(r);
    AtoiItoa(r.port);
    AtoiItoa(r.priority);
    AtoiItoa(r.weight);
    AtoiItoa(r.redirectCode);
    assert BoolText(true) == "true" && BoolText(false) == "false" != "true";
  }

  /** The same under plain `caddy-*` keys. */
  lemma NonIndexedRoundTrip(r: RouteDefinition, meta: Meta)
    requires Expressible(r)
    requires forall f :: (f in FieldsOf(r) <==> ("caddy-" + f) in meta && f in PLAIN_FIELDS)
                         && (f in FieldsOf(r) ==> meta["caddy-" + f] == FieldsOf(r)[f])
    ensures NonIndexedRoute(meta) == r
  {
    hide FieldsOf, RouteFrom;
    RouteFromFields(r);
    assert PlainFields(meta) == FieldsOf(r);
  }

  // ----- Indexed keys ------------------------------------------------------------------

  function IndexedKey(i: nat, field: string): string { INDEXED_PREFIX + (Digits(i) + ("-" + field)) }

  lemma {:induction false} DigitRunOf(d: string, rest: string)
    requires AllDigits(d) && rest != "" && !IsDigit(rest[0])
    ensures DigitRun(d + rest) == |d|
  {
    if d == "" {
      assert d + rest == rest;
    } else {
      assert (d + rest)[1..] == d[1..] + rest;
      DigitRunOf(d[1..], rest);
    }
  }

  /** Any digits in front of a field spell it, under the index they stand for. */
  lemma DigitsSpell(d: string, field: string)
    requires d != "" && AllDigits(d) && DigitsValue(d) <= MAX_INT && field != "" && '\n' !in field
    ensures Spells(INDEXED_PREFIX + (d + ("-" + field)), Spelled(DigitsValue(d), field))
  {
    hide DigitsValue, DigitRun;
    var k := INDEXED_PREFIX + (d + ("-" + field));
    var rest := d + ("-" + field);
    assert k[|INDEXED_PREFIX|..] == rest;
    DigitRunOf(d, "-" + field);
    assert rest[..|d|] == d && rest[|d| + 1..] == field;
  }

  lemma IndexedKeySpells(i: nat, field: string)
    requires i <= MAX_INT && field != "" && '\n' !in field
    ensures Spells(IndexedKey(i, field), Spelled(i, field))
  {
    hide Digits, DigitsValue, Spells;
    DigitsRoundTrip(i);
    DigitsSpell(Digits(i), field);
  }

  lemma {:induction false} LeadingZero(d: string)
    requires AllDigits(d)
    ensures AllDigits("0" + d) && DigitsValue("0" + d) == DigitsValue(d)
  {
    if d == "" {
      assert "0" + d == "0" && "0"[..0] == "";
    } else {
      var n := |d| - 1;
      LeadingZero(d[..n]);
      assert ("0" + d)[..|d|] == "0" + d[..n];
    }
  }

  /** An input on which the walk shows: a path spelled under an index and under the same
      index with a leading zero, with different values. */
  lemma LeadingZeroShows(i: nat, v: string, w: string)
    requires i <= MAX_INT && v != w
    ensures var k, l := IndexedKey(i, "path"), INDEXED_PREFIX + (("0" + Digits(i)) + "-path");
            k != l && !SameForAllWalks(map[k := v, l := w])
  {
    hide Digits, DigitsValue, ParseKey, SameForAllWalks;
    var d := Digits(i);
    var k, l := IndexedKey(i, "path"), INDEXED_PREFIX + (("0" + d) + "-path");
    assert |k| != |l|;
    assert "-" + "path" == "-path";
    IndexedKeySpells(i, "path");
    DigitsRoundTrip(i);
    LeadingZero(d);
    DigitsSpell("0" + d, "path");
    var meta: Meta := map[k := v, l := w];
    assert !SpeltAlike(meta, Spelled(i, "path"), meta[k], meta[l]);
    assert !ReadsAlike(meta);
    SameForAllWalksExactly(meta, [k, l]);
  }

  lemma FieldNamesPlain(r: RouteDefinition, f: string)
    requires f in FieldsOf(r)
    ensures f != "" && '\n' !in f
  {
    hide Itoa, ProtocolText, BoolText;
  }

  // ----- A list of routes as indexed metadata ---------------------------------------------

  ghost function KeysOf(rs: seq<RouteDefinition>): set<string> {
    set i, f | 0 <= i < |rs| && f in FieldsOf(rs[i]) :: IndexedKey(i, f)
  }

  /** Route i under the keys caddy-route-i-*. */
  ghost function Print(rs: seq<RouteDefinition>): Meta {
    map k | k in KeysOf(rs) ::
      match ParseKey(k)
      case Some(Spelled(i, f)) => if i < |rs| && f in FieldsOf(rs[i]) then FieldsOf(rs[i])[f] else ""
      case None => ""
  }

  lemma PrintHolds(rs: seq<RouteDefinition>, i: nat, f: string)
    requires |rs| <= MAX_INT && i < |rs| && f in FieldsOf(rs[i])
    ensures var k := IndexedKey(i, f);
            Spells(k, Spelled(i, f)) && k in Print(rs) && Print(rs)[k] == FieldsOf(rs[i])[f]
  {
    hide FieldsOf, IndexedKey, ParseKey;
    FieldNamesPlain(rs[i], f);
    IndexedKeySpells(i, f);
  }

  lemma PrintOnly(rs: seq<RouteDefinition>, k: string) returns (i: nat, f: string)
    ensures k in Print(rs) ==> i < |rs| && f in FieldsOf(rs[i]) && k == IndexedKey(i, f)
  {
    hide FieldsOf, IndexedKey, ParseKey;
    i, f := 0, "";
    if k in KeysOf(rs) {
      i, f :| 0 <= i < |rs| && f in FieldsOf(rs[i]) && k == IndexedKey(i, f);
    }
  }

  ghost function GroupsOf(rs: seq<RouteDefinition>): Indexed { map i: nat | i < |rs| :: FieldsOf(rs[i]) }

  /** The groups found in printed metadata are the fields of the routes. */
  lemma PrintedAt(rs: seq<RouteDefinition>, order: seq<string>, s: Spelled)
    requires |rs| <= MAX_INT && Iterates(order, Print(rs))
    ensures At(Grouped(Print(rs), order), s) == At(GroupsOf(rs), s)
  {
    hide FieldsOf, IndexedKey, ParseKey, Print, Grouped;
    var meta := Print(rs);
    GroupedAt(meta, order, s);
    var v := At(Grouped(meta, order), s);
    if v.Some? {
      var j :| 0 <= j < |order| && Spells(order[j], s) && v.value == meta[order[j]];
      assert order[j] in order;
      var i, f := PrintOnly(rs, order[j]);
      PrintHolds(rs, i, f);
    } else if s.index < |rs| && s.field in FieldsOf(rs[s.index]) {
      PrintHolds(rs, s.index, s.field);
    }
  }

  lemma PrintedGroups(rs: seq<RouteDefinition>, order: seq<string>)
    requires |rs| <= MAX_INT && Iterates(order, Print(rs))
    ensures Grouped(Print(rs), order) == GroupsOf(rs)
  {
    forall s
      ensures At(Grouped(Print(rs), order), s) == At(GroupsOf(rs), s)
    {
      PrintedAt(rs, order, s);
    }
    GroupedAt(Print(rs), order, Spelled(0, ""));
    assert NoEmptyGroup(GroupsOf(rs)) by {
      forall i: nat | i < |rs|
        ensures FieldsOf(rs[i]) != map[]
      {
        TextFields(rs[i]);
      }
    }
    hide FieldsOf, Print, Grouped, At;
    SameGroups(Grouped(Print(rs), order), GroupsOf(rs));
  }

  function UpTo(n: nat): (s: seq<nat>)
    ensures Ascending(s) && |s| == n && forall i | 0 <= i < n :: s[i] == i
  {
    seq(n, i requires 0 <= i < n => i)
  }

  /** Round trip: whatever list of routes is written as indexed metadata, and in whatever
      order the map is walked, reading it gives back exactly that list. */
  lemma IndexedRoundTrip(rs: seq<RouteDefinition>, order: seq<string>, routes: seq<RouteDefinition>)
    requires |rs| <= MAX_INT && forall i | 0 <= i < |rs| :: Expressible(rs[i])
    requires Iterates(order, Print(rs)) && InIndexOrder(Grouped(Print(rs), order), routes)
    ensures routes == rs
  {
    hide Print, Grouped, GroupsOf, InIndexOrder, Expressible;
    PrintedGroups(rs, order);
    RoutesOfGroups(rs);
    InIndexOrderUnique(GroupsOf(rs), routes, rs);
  }

  lemma RoutesOfGroups(rs: seq<RouteDefinition>)
    requires forall i | 0 <= i < |rs| :: Expressible(rs[i])
    ensures InIndexOrder(GroupsOf(rs), rs)
  {
    hide FieldsOf, RouteFrom, Expressible, UpTo;
    var g, idx := GroupsOf(rs), UpTo(|rs|);
    forall i | 0 <= i < |idx|
      ensures idx[i] in g && rs[i] == RouteFrom(g[idx[i]])
    {
      RouteFromFields(rs[i]);
    }
    NumbersUpTo(|rs|);
    assert Numbers(idx) == g.Keys;
    assert Listed(g, idx, rs);
  }

  lemma NumbersUpTo(n: nat)
    ensures forall i: nat :: i in Numbers(UpTo(n)) <==> i < n
  {
    forall i: nat | i < n
      ensures i in Numbers(UpTo(n))
    {
      assert UpTo(n)[i] == i;
    }
  }
}
