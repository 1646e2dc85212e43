/** What metadata keys and tags say, in terms of their text (metadata.go): which keys are
    indexed, what the plain keys and the defaults are, and how tags are taken apart. */
module MetaMeaning {
  import opened Prelude
  import opened Strings
  import opened Types
  import opened IndexedMeta
  import opened Metadata
  import opened MetaRoundTrip

  // ----- Indexed keys ----------------------------------------------------------

  /** caddy-route-, digits, a dash and a field on one line. */
  predicate IndexedForm(k: string, digits: string, field: string) {
    && k == "caddy-route-" + digits + "-" + field
    && digits != "" && AllDigits(digits) && field != "" && '\n' !in field
  }

  lemma IndexedFormRead(k: string, digits: string, field: string)
    requires IndexedForm(k, digits, field)
    ensures IsIndexed(k)
    ensures ParseKey(k) == if DigitsValue(digits) > 9223372036854775807 then None else Some(Spelled(DigitsValue(digits), field))
  {
    hide DigitsValue, DigitRun;
    var rest := digits + ("-" + field);
    assert k == INDEXED_PREFIX + rest;
    assert k[|INDEXED_PREFIX|..] == rest;
    DigitRunOf(digits, "-" + field);
    assert rest[..|digits|] == digits && rest[|digits| + 1..] == field;
  }

  lemma IndexedHasForm(k: string) returns (digits: string, field: string)
    requires IsIndexed(k)
    ensures IndexedForm(k, digits, field)
  {
    hide DigitRun;
    var rest := k[|INDEXED_PREFIX|..];
    var n := DigitRun(rest);
    digits, field := rest[..n], rest[n + 1..];
    assert k == INDEXED_PREFIX + rest && rest == digits + ("-" + field);
    assert k == "caddy-route-" + digits + "-" + field;
  }

  /** A key is indexed exactly if it has the form. */
  lemma IsIndexedExactly(k: string)
    ensures IsIndexed(k) <==> exists digits, field :: IndexedForm(k, digits, field)
  {
    hide IsIndexed, IndexedForm;
    if IsIndexed(k) { var digits, field := IndexedHasForm(k); }
    forall digits, field | IndexedForm(k, digits, field)
      ensures IsIndexed(k)
    {
      IndexedFormRead(k, digits, field);
    }
  }

  /** A key spells an index and a field exactly if it has the form with them, and the index
      fits an int. */
  lemma SpellsExactly(k: string, s: Spelled)
    ensures Spells(k, s) <==>
            s.index <= 9223372036854775807
            && exists digits :: IndexedForm(k, digits, s.field) && DigitsValue(digits) == s.index
  {
    if Spells(k, s) {
      var digits, field := IndexedHasForm(k);
      hide IndexedForm, ParseKey;
      IndexedFormRead(k, digits, field);
    }
    forall digits | IndexedForm(k, digits, s.field) && DigitsValue(digits) == s.index && s.index <= 9223372036854775807
      ensures Spells(k, s)
    {
      IndexedFormRead(k, digits, s.field);
    }
  }

  // ----- Which source an instance's routes come from ---------------------------------

  /** Indexed metadata is there exactly if some key spells an index and a field. */
  lemma HasIndexedExactly(meta: Meta, order: seq<string>)
    requires Iterates(order, meta)
    ensures Grouped(meta, order) != map[] <==> exists s :: IsSpelled(meta, s)
  {
    hide Grouped, IsSpelled, Iterates;
    var g := Grouped(meta, order);
    forall s
      ensures IsSpelled(meta, s) <==> s.index in g && s.field in g[s.index]
    {
      GroupedShape(meta, order, s.index, s.field);
    }
    if g != map[] {
      var i :| i in g;
      Inhabited(g[i].Keys) by { NoneEmpty(meta, order, i); }
      NoneEmpty(meta, order, i);
      var f :| f in g[i];
      assert IsSpelled(meta, Spelled(i, f));
    }
  }

  lemma NoneEmpty(meta: Meta, order: seq<string>, i: nat)
    requires Iterates(order, meta) && i in Grouped(meta, order)
    ensures Grouped(meta, order)[i] != map[]
  {
    hide Grouped;
    GroupedAt(meta, order, Spelled(i, ""));
  }

  /** Plain metadata is there exactly if some key starts with caddy- and is not indexed. */
  lemma HasNonIndexedExactly(meta: Meta)
    ensures HasNonIndexed(meta) <==>
            exists k :: k in meta && |k| >= 6 && k[..6] == "caddy-" && !exists digits, field :: IndexedForm(k, digits, field)
  {
    forall k: string
      ensures HasPrefix(k, "caddy-") && !IsIndexed(k) <==>
              |k| >= 6 && k[..6] == "caddy-" && !exists digits, field :: IndexedForm(k, digits, field)
    {
      IsIndexedExactly(k);
    }
    hide IsIndexed, IndexedForm, HasPrefix;
  }

  // ----- Fields -----------------------------------------------------------------------

  /** A route from plain keys, key by key; there is no key for an sni. */
  lemma PlainRouteExactly(meta: Meta)
    ensures var r := NonIndexedRoute(meta);
            && r.protocol == (if "caddy-protocol" in meta then ToProtocol(meta["caddy-protocol"]) else HTTP)
            && r.host == Text(meta, "caddy-host") && r.path == Text(meta, "caddy-path")
            && r.port == Number(meta, "caddy-port") && r.priority == Number(meta, "caddy-priority")
            && r.weight == Number(meta, "caddy-weight") && (r.stripPrefix <==> Flag(meta, "caddy-strip-prefix"))
            && r.redirectCode == Number(meta, "caddy-redirect-code") && r.redirectURL == Text(meta, "caddy-redirect-url")
            && (r.redirectNoCache <==> Flag(meta, "caddy-redirect-no-cache"))
            && (!r.enabled <==> "caddy-enabled" in meta && meta["caddy-enabled"] == "false")
            && (r.hasNoCacheStatus <==> "caddy-no-cache-status" in meta)
            && r.noCacheStatusRaw == Text(meta, "caddy-no-cache-status")
  {
    hide ToProtocol, Text, Number, Flag, PlainFields;
    PlainTexts(meta);
    PlainNumbers(meta);
    PlainFlags(meta);
    PlainOthers(meta);
  }

  lemma PlainTexts(meta: Meta)
    ensures var f := PlainFields(meta);
            && Text(f, "host") == Text(meta, "caddy-host") && Text(f, "path") == Text(meta, "caddy-path")
            && Text(f, "redirect-url") == Text(meta, "caddy-redirect-url") && "sni" !in f
  {
    hide PlainFields, Text, Number, Flag;
    PlainField(meta, "host", "caddy-host");
    PlainField(meta, "path", "caddy-path");
    PlainField(meta, "redirect-url", "caddy-redirect-url");
  }

  lemma PlainNumbers(meta: Meta)
    ensures var f := PlainFields(meta);
            && Number(f, "port") == Number(meta, "caddy-port") && Number(f, "priority") == Number(meta, "caddy-priority")
            && Number(f, "weight") == Number(meta, "caddy-weight")
            && Number(f, "redirect-code") == Number(meta, "caddy-redirect-code")
  {
    hide PlainFields, Text, Number, Flag;
    PlainField(meta, "port", "caddy-port");
    PlainField(meta, "priority", "caddy-priority");
    PlainField(meta, "weight", "caddy-weight");
    PlainField(meta, "redirect-code", "caddy-redirect-code");
  }

  lemma PlainFlags(meta: Meta)
    ensures var f := PlainFields(meta);
            && (Flag(f, "strip-prefix") <==> Flag(meta, "caddy-strip-prefix"))
            && (Flag(f, "redirect-no-cache") <==> Flag(meta, "caddy-redirect-no-cache"))
  {
    hide PlainFields, Text, Number, Flag;
    PlainField(meta, "strip-prefix", "caddy-strip-prefix");
    PlainField(meta, "redirect-no-cache", "caddy-redirect-no-cache");
  }

  lemma PlainOthers(meta: Meta)
    ensures var f := PlainFields(meta);
            && ("protocol" in f <==> "caddy-protocol" in meta)
            && ("protocol" in f ==> f["protocol"] == meta["caddy-protocol"])
            && ("enabled" in f <==> "caddy-enabled" in meta) && ("enabled" in f ==> f["enabled"] == meta["caddy-enabled"])
            && ("no-cache-status" in f <==> "caddy-no-cache-status" in meta)
            && Text(f, "no-cache-status") == Text(meta, "caddy-no-cache-status")
  {
    hide PlainFields, Text, Number, Flag;
    PlainField(meta, "protocol", "caddy-protocol");
    PlainField(meta, "enabled", "caddy-enabled");
    PlainField(meta, "no-cache-status", "caddy-no-cache-status");
  }

  lemma PlainField(meta: Meta, f: string, key: string)
    requires f in PLAIN_FIELDS && key == "caddy-" + f
    ensures var fields := PlainFields(meta);
            && (f in fields <==> key in meta) && (f in fields ==> fields[f] == meta[key]) && "sni" !in fields
            && Text(fields, f) == Text(meta, key) && Number(fields, f) == Number(meta, key)
            && (Flag(fields, f) <==> Flag(meta, key))
  {
    hide Atoi;
  }

  /** What a field that is not written stands for. */
  lemma AbsentMeansDefault(f: Meta)
    ensures var r := RouteFrom(f);
            && ("protocol" !in f ==> r.protocol == HTTP) && ("host" !in f && "sni" !in f ==> r.host == "")
            && ("path" !in f ==> r.path == "") && ("port" !in f ==> r.port == 0) && ("priority" !in f ==> r.priority == 0)
            && ("weight" !in f ==> r.weight == 0) && ("strip-prefix" !in f ==> !r.stripPrefix)
            && ("enabled" !in f ==> r.enabled) && ("redirect-code" !in f ==> r.redirectCode == 0)
            && ("redirect-url" !in f ==> r.redirectURL == "") && ("redirect-no-cache" !in f ==> !r.redirectNoCache)
            && ("no-cache-status" !in f ==> !r.hasNoCacheStatus && r.noCacheStatusRaw == "")
            && ("sni" in f ==> r.host == f["sni"])
            && r.serviceName == "" && r.upstreams == [] && r.via == "" && r.tagValues == map[]
  {
  }

  // ----- key=value ----------------------------------------------------------------------

  /** A text that is a key, an equals sign and a value; the first equals sign cuts. */
  predicate IsPair(t: string, k: string, v: string) { '=' !in k && t == k + "=" + v }

  lemma PairIsCut(t: string, k: string, v: string)
    requires IsPair(t, k, v)
    ensures IndexOf(t, '=') == |k| && t[..|k|] == k && t[|k| + 1..] == v
  {
    hide IndexOf;
    assert t[|k|] == '=' && forall j | 0 <= j < |k| :: t[j] == k[j];
  }

  lemma CutIsPair(t: string)
    ensures var i := IndexOf(t, '='); 0 <= i ==> IsPair(t, t[..i], t[i + 1..])
  {
    hide IndexOf;
    var i := IndexOf(t, '=');
    assert 0 <= i ==> t == t[..i] + "=" + t[i + 1..];
  }

  ghost predicate HasKey(t: string, k: string) { exists v :: IsPair(t, k, v) }

  /** Where `t` is a pair with the key, its value; elsewhere it has no such value. */
  lemma HasKeyExactly(t: string, k: string)
    ensures HasKey(t, k) <==> var i := IndexOf(t, '='); 0 <= i && t[..i] == k
  {
    var i := IndexOf(t, '=');
    hide IsPair, IndexOf;
    CutIsPair(t);
    forall v | IsPair(t, k, v)
      ensures 0 <= i && t[..i] == k
    {
      PairIsCut(t, k, v);
    }
  }

  /** Modifiers of a tag: the value of a key is that of the last word with it. */
  lemma {:induction false} ModifiersExactly(ws: seq<string>, k: string, v: string)
    ensures (k in Modifiers(ws) && Modifiers(ws)[k] == v) <==>
            exists i | 0 <= i < |ws| :: IsPair(ws[i], k, v) && forall j | i < j < |ws| :: !HasKey(ws[j], k)
    ensures k in Modifiers(ws) <==> exists i | 0 <= i < |ws| :: HasKey(ws[i], k)
  {
    hide IsPair, HasKey;
    if ws != [] {
      var n := |ws| - 1;
      ModifiersExactly(ws[..n], k, v);
      ModifierStep(ws, k, v);
      assert forall i | 0 <= i < n :: ws[..n][i] == ws[i];
      LastPair(ws, k, v);
      hide Modifiers;
    }
  }

  lemma ModifierStep(ws: seq<string>, k: string, v: string)
    requires ws != []
    ensures var m, front := Modifiers(ws), Modifiers(ws[..|ws| - 1]);
            var last := ws[|ws| - 1];
            && (k in m <==> HasKey(last, k) || k in front)
            && ((k in m && m[k] == v) <==> if HasKey(last, k) then IsPair(last, k, v) else k in front && front[k] == v)
  {
    hide IsPair, HasKey, IndexOf, Modifiers;
    var front, last := Modifiers(ws[..|ws| - 1]), ws[|ws| - 1];
    var i := IndexOf(last, '=');
    HasKeyExactly(last, k);
    CutIsPair(last);
    if IsPair(last, k, v) { PairIsCut(last, k, v); }
    OneMoreModifier(ws);
    if i >= 0 { PutAtKey(front, last[..i], last[i + 1..], k); }
  }

  lemma {:induction false} OneMoreModifier(ws: seq<string>)
    requires ws != []
    ensures var m, last := Modifiers(ws[..|ws| - 1]), ws[|ws| - 1];
            var i := IndexOf(last, '=');
            Modifiers(ws) == if i < 0 then m else m[last[..i] := last[i + 1..]]
  {
    hide IndexOf;
  }

  lemma {:induction false} OneMoreTag(tags: seq<string>)
    requires tags != []
    ensures var m, last := TagValues(tags[..|tags| - 1]), tags[|tags| - 1];
            var i := IndexOf(last, '=');
            TagValues(tags) == if i <= 0 || last[..i] in m then m else m[last[..i] := last[i + 1..]]
  {
    hide IndexOf;
  }

  lemma PutAtKey(m: map<string, string>, key: string, val: string, k: string)
    ensures k in m[key := val] <==> k == key || k in m
    ensures k in m[key := val] ==> m[key := val][k] == if k == key then val else m[k]
  {
  }

  lemma LastPair(ws: seq<string>, k: string, v: string)
    requires ws != [] && forall i | 0 <= i < |ws| - 1 :: ws[..|ws| - 1][i] == ws[i]
    ensures (exists i | 0 <= i < |ws| :: IsPair(ws[i], k, v) && forall j | i < j < |ws| :: !HasKey(ws[j], k)) <==>
            var n := |ws| - 1;
            if HasKey(ws[n], k) then IsPair(ws[n], k, v)
            else exists i | 0 <= i < n :: IsPair(ws[..n][i], k, v) && forall j | i < j < n :: !HasKey(ws[..n][j], k)
  {
    hide IsPair;
    var n := |ws| - 1;
    if HasKey(ws[n], k) {
    } else {
      if i :| 0 <= i < n && IsPair(ws[..n][i], k, v) && forall j | i < j < n :: !HasKey(ws[..n][j], k) {
        assert IsPair(ws[i], k, v) && forall j | i < j < |ws| :: !HasKey(ws[j], k);
      }
      if i :| 0 <= i < |ws| && IsPair(ws[i], k, v) && forall j | i < j < |ws| :: !HasKey(ws[j], k) {
        assert i < n && IsPair(ws[..n][i], k, v) && forall j | i < j < n :: !HasKey(ws[..n][j], k);
      }
    }
  }

  /** Tag values of an instance: the value of a key is that of the first tag with it; empty
      keys do not count. */
  lemma {:induction false} TagValuesExactly(tags: seq<string>, k: string, v: string)
    ensures (k in TagValues(tags) && TagValues(tags)[k] == v) <==>
            k != "" && exists i | 0 <= i < |tags| :: IsPair(tags[i], k, v) && forall j | 0 <= j < i :: !HasKey(tags[j], k)
    ensures k in TagValues(tags) <==> k != "" && exists i | 0 <= i < |tags| :: HasKey(tags[i], k)
  {
    hide IsPair, HasKey;
    if tags != [] {
      var n := |tags| - 1;
      TagValuesExactly(tags[..n], k, v);
      TagValueStep(tags, k, v);
      assert forall i | 0 <= i < n :: tags[..n][i] == tags[i];
      FirstPair(tags, k, v);
      hide TagValues;
    }
  }

  lemma TagValueStep(tags: seq<string>, k: string, v: string)
    requires tags != []
    ensures var m, front := TagValues(tags), TagValues(tags[..|tags| - 1]);
            var last := tags[|tags| - 1];
            && (k in m <==> (k != "" && HasKey(last, k)) || k in front)
            && ((k in m && m[k] == v) <==> if k in front then front[k] == v else k != "" && IsPair(last, k, v))
  {
    hide IsPair, HasKey, IndexOf, TagValues;
    var front, last := TagValues(tags[..|tags| - 1]), tags[|tags| - 1];
    var i := IndexOf(last, '=');
    HasKeyExactly(last, k);
    CutIsPair(last);
    if IsPair(last, k, v) { PairIsCut(last, k, v); }
    OneMoreTag(tags);
    assert i == 0 ==> last[..i] == "";
    if i > 0 { PutAtKey(front, last[..i], last[i + 1..], k); }
  }

  lemma FirstPair(tags: seq<string>, k: string, v: string)
    requires tags != [] && forall i | 0 <= i < |tags| - 1 :: tags[..|tags| - 1][i] == tags[i]
    ensures (exists i | 0 <= i < |tags| :: IsPair(tags[i], k, v) && forall j | 0 <= j < i :: !HasKey(tags[j], k)) <==>
            var n := |tags| - 1;
            if exists i | 0 <= i < n :: HasKey(tags[..n][i], k)
            then exists i | 0 <= i < n :: IsPair(tags[..n][i], k, v) && forall j | 0 <= j < i :: !HasKey(tags[..n][j], k)
            else IsPair(tags[n], k, v)
  {
    hide IsPair;
    var n := |tags| - 1;
    if i :| 0 <= i < n && IsPair(tags[..n][i], k, v) && forall j | 0 <= j < i :: !HasKey(tags[..n][j], k) {
      assert IsPair(tags[i], k, v) && forall j | 0 <= j < i :: !HasKey(tags[j], k);
    }
    if i :| 0 <= i < |tags| && IsPair(tags[i], k, v) && forall j | 0 <= j < i :: !HasKey(tags[j], k) {
      if i < n {
        assert IsPair(tags[..n][i], k, v) && forall j | 0 <= j < i :: !HasKey(tags[..n][j], k);
        assert HasKey(tags[..n][i], k);
      } else {
        assert forall j | 0 <= j < n :: !HasKey(tags[..n][j], k);
      }
    }
  }
}
