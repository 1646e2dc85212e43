/** What a Fabio tag says, in terms of its text (metadata.go): words, modifiers, redirects,
    standard ports, hosts and paths. */
module TagMeaning {
  import opened Prelude
  import opened Strings
  import opened Types
  import opened Metadata

  // ----- Words ----------------------------------------------------------------------

  predicate Solid(s: string) { s != "" && forall i | 0 <= i < |s| :: !IsSpace(s[i]) }

  lemma {:induction false} WordLengthOf(w: string, rest: string)
    requires Solid(w) && (rest == "" || IsSpace(rest[0]))
    ensures WordLength(w + rest) == |w|
  {
    assert (w + rest)[1..] == w[1..] + rest;
    if |w| == 1 {
      assert w[1..] + rest == rest;
    } else {
      WordLengthOf(w[1..], rest);
    }
  }

  lemma WordsCons(w: string, rest: string)
    requires Solid(w) && (rest == "" || IsSpace(rest[0]))
    ensures Words(w + rest) == [w] + Words(rest)
  {
    WordLengthOf(w, rest);
    assert (w + rest)[..|w|] == w && (w + rest)[|w|..] == rest;
  }

  /** White space, a word, and what follows it: this and `WordsOfBlank` say what the words
      of any text are. */
  lemma {:induction false} WordsAfterSpace(space: string, w: string, rest: string)
    requires Blank(space) && Solid(w) && (rest == "" || IsSpace(rest[0]))
    ensures Words(space + (w + rest)) == [w] + Words(rest)
  {
    var s := space + (w + rest);
    if space == "" {
      assert s == w + rest;
      WordsCons(w, rest);
    } else {
      assert s[1..] == space[1..] + (w + rest) && IsSpace(s[0]);
      WordsAfterSpace(space[1..], w, rest);
    }
  }

  /** Words written after each other with a space in front of each. */
  function Tail(ws: seq<string>): string { if ws == [] then "" else " " + ws[0] + Tail(ws[1..]) }

  predicate AllSolid(ws: seq<string>) { forall i | 0 <= i < |ws| :: Solid(ws[i]) }

  lemma {:induction false} WordsOfTail(ws: seq<string>)
    requires AllSolid(ws)
    ensures Words(Tail(ws)) == ws
  {
    if ws != [] {
      var rest := Tail(ws[1..]);
      assert Tail(ws) == " " + (ws[0] + rest);
      assert rest == "" || rest[0] == ' ';
      WordsAfterSpace(" ", ws[0], rest);
      WordsOfTail(ws[1..]);
      assert ws == [ws[0]] + ws[1..];
    }
  }

  lemma WordsOfTag(url: string, ws: seq<string>)
    requires Solid(url) && AllSolid(ws)
    ensures Words(url + Tail(ws)) == [url] + ws
  {
    var rest := Tail(ws);
    assert rest == "" || rest[0] == ' ';
    WordsOfTail(ws);
    WordsCons(url, rest);
  }

  // ----- Redirects -------------------------------------------------------------------

  /** A value CODE,URL with a code of 300 to 399; the first comma cuts. */
  predicate IsRedirectValue(v: string, code: string, n: int, url: string) {
    ',' !in code && v == code + "," + url && Atoi(code) == Some(n) && 300 <= n <= 399
  }

  lemma RedirectRead(mods: map<string, string>, code: string, n: int, url: string)
    requires "redirect" in mods && IsRedirectValue(mods["redirect"], code, n, url)
    ensures Redirect(mods) == (n, ReplacePath(url))
  {
    hide Atoi, ReplacePath;
    var v := mods["redirect"];
    assert v[|code|] == ',' && forall j | 0 <= j < |code| :: v[j] == code[j];
    assert IndexOf(v, ',') == |code|;
    assert v[..|code|] == code && v[|code| + 1..] == url;
  }

  lemma NoRedirect(mods: map<string, string>)
    requires "redirect" in mods ==> forall code, n, url :: !IsRedirectValue(mods["redirect"], code, n, url)
    ensures Redirect(mods) == (0, "")
  {
    hide Atoi, ReplacePath;
    if "redirect" in mods {
      var v := mods["redirect"];
      var i := IndexOf(v, ',');
      if i >= 0 && Atoi(v[..i]).Some? {
        assert v == v[..i] + "," + v[i + 1..];
        assert !IsRedirectValue(v, v[..i], Atoi(v[..i]).value, v[i + 1..]);
      }
    }
  }

  lemma PutFirst(front: string, mid: string, rest: string)
    requires front != ""
    ensures [front[0]] + (front[1..] + mid + rest) == front + mid + rest
  {
    assert front == [front[0]] + front[1..];
  }

  /** `strings.ReplaceAll` of $path: the first occurrence is replaced and the rest goes on
      behind it; without one nothing changes. */
  lemma {:induction false} FirstPathReplaced(front: string, rest: string)
    requires forall i | 0 <= i < |front| :: !HasPrefix((front + "$path" + rest)[i..], "$path")
    ensures ReplacePath(front + "$path" + rest) == front + "{http.request.uri}" + ReplacePath(rest)
  {
    var s := front + "$path" + rest;
    if front == "" {
      assert s == "$path" + rest && s[5..] == rest;
    } else {
      var shorter := front[1..] + "$path" + rest;
      assert s[1..] == shorter && s[0] == front[0] && s == [s[0]] + s[1..];
      assert s[0..] == s;
      forall i | 0 <= i < |front[1..]|
        ensures !HasPrefix(shorter[i..], "$path")
      {
        assert shorter[i..] == s[i + 1..];
      }
      FirstPathReplaced(front[1..], rest);
      PutFirst(front, "{http.request.uri}", ReplacePath(rest));
    }
  }

  lemma {:induction false} NoPathUnchanged(s: string)
    requires forall i | 0 <= i < |s| :: !HasPrefix(s[i..], "$path")
    ensures ReplacePath(s) == s
  {
    if s != "" {
      assert s[0..] == s;
      forall i | 0 <= i < |s[1..]|
        ensures !HasPrefix(s[1..][i..], "$path")
      {
        assert s[1..][i..] == s[i + 1..];
      }
      NoPathUnchanged(s[1..]);
    }
  }

  // ----- Whole tags -------------------------------------------------------------------

  /** A host that carries port 80 or 443, or none of them. */
  predicate StandardPort(host: string, bare: string) { host == bare + ":80" || host == bare + ":443" }

  lemma StandardPortStripped(host: string, bare: string)
    ensures StandardPort(host, bare) ==>
              StripStandardPort(host) == bare && (HasSuffix(host, ":80") || HasSuffix(host, ":443"))
    ensures (forall b :: !StandardPort(host, b)) ==>
              StripStandardPort(host) == host && !HasSuffix(host, ":80") && !HasSuffix(host, ":443")
  {
    HasSuffixExactly(host, ":80");
    HasSuffixExactly(host, ":443");
    if StandardPort(host, bare) {
      assert host[..|bare|] == bare;
      if host == bare + ":443" {
        assert host[|host| - 1] == '3';
      }
    }
    if forall b :: !StandardPort(host, b) {
      assert forall b :: host == b + ":80" ==> StandardPort(host, b);
      assert forall b :: host == b + ":443" ==> StandardPort(host, b);
    }
  }

  lemma HostAndPathCut(host: string, path: string)
    requires '/' !in host && (path == "" || path[0] == '/')
    ensures HostAndPath(host + path) == (host, if path == "" then "/" else path)
  {
    if path == "" {
      assert host + path == host;
    } else {
      var r := HostAndPath(host + path);
      CutUnique(r.0, r.1, host, path, '/');
    }
  }

  /** The parts of a tag written as urlprefix-, the URL, and modifiers. */
  lemma TagParts(url: string, ws: seq<string>)
    requires Solid(url) && AllSolid(ws)
    ensures var tag := "urlprefix-" + (url + Tail(ws));
            && HasPrefix(tag, FABIO_PREFIX) && tag[|FABIO_PREFIX|..] == url + Tail(ws) != ""
            && Words(tag[|FABIO_PREFIX|..]) == [url] + ws && ([url] + ws)[1..] == ws
  {
    hide Words, Tail;
    WordsOfTag(url, ws);
    var tag := "urlprefix-" + (url + Tail(ws));
    assert tag[10..] == url + Tail(ws);
  }

  /** An HTTP tag: host and path, with the modifiers proto, strip and redirect. A redirect on
      a standard port is left to Caddy; otherwise the standard port is dropped. A missing
      path is the root. */
  lemma HttpTagExactly(host: string, bare: string, path: string, ws: seq<string>)
    requires Solid(host + path) && '/' !in host && (path == "" || path[0] == '/') && AllSolid(ws)
    requires StandardPort(host, bare) || (host == bare && forall b :: !StandardPort(host, b))
    requires var mods := Modifiers(ws); "proto" in mods ==> mods["proto"] != "tcp"
    ensures var tag := "urlprefix-" + (host + path + Tail(ws));
            var mods := Modifiers(ws);
            HasPrefix(tag, FABIO_PREFIX) && FabioTag(tag) ==
            if host != bare && Redirect(mods).0 > 0 then PortRedirect
            else Route(RouteDefinition(
                         "", if "proto" in mods && mods["proto"] == "https" then HTTPS else HTTP,
                         bare, if path == "" then "/" else path, 0, 0, 0, "strip" in mods, true, [], "",
                         Redirect(mods).0, Redirect(mods).1, false, "", false, map[]))
  {
    hide Modifiers, Redirect, Words, Tail, HostAndPath, StripStandardPort, HasSuffix;
    TagParts(host + path, ws);
    HostAndPathCut(host, path);
    StandardPortStripped(host, bare);
  }

  /** A TCP tag: a colon and a positive port. */
  lemma TcpTagExactly(port: string, ws: seq<string>)
    requires Solid(":" + port) && AllSolid(ws)
    requires var mods := Modifiers(ws); "proto" in mods && mods["proto"] == "tcp"
    ensures var tag := "urlprefix-" + (":" + port + Tail(ws));
            var mods := Modifiers(ws);
            HasPrefix(tag, FABIO_PREFIX) && FabioTag(tag) ==
            if Atoi(port).None? || Atoi(port).value <= 0 then NoRoute
            else Route(RouteDefinition(
                         "", TCP, "", "", Atoi(port).value, 0, 0, "strip" in mods, true, [], "",
                         Redirect(mods).0, Redirect(mods).1, false, "", false, map[]))
  {
    hide Modifiers, Redirect, Words, Tail, Atoi;
    TagParts(":" + port, ws);
    assert (":" + port)[1..] == port;
  }

  /** With proto=tcp a URL that does not start with a colon gives no route. */
  lemma TcpTagNeedsColon(url: string, ws: seq<string>)
    requires Solid(url) && url[0] != ':' && AllSolid(ws)
    requires var mods := Modifiers(ws); "proto" in mods && mods["proto"] == "tcp"
    ensures var tag := "urlprefix-" + (url + Tail(ws));
            HasPrefix(tag, FABIO_PREFIX) && FabioTag(tag) == NoRoute
  {
    hide Modifiers, Redirect, Words, Tail, Atoi;
    TagParts(url, ws);
  }

  // ----- Lists of tags -----------------------------------------------------------------

  /** The routes of an instance's tags: tags without the prefix do not count, and the others
      are read one by one in order. */
  lemma FabioRoutesOfMore(tags: seq<string>, tag: string)
    ensures FabioRoutes(tags + [tag]) ==
            FabioRoutes(tags) + if |tag| >= 10 && tag[..10] == "urlprefix-" && FabioTag(tag).Route? then [FabioTag(tag).route] else []
    ensures FabioRoutes([]) == []
  {
    hide FabioTag;
    assert (tags + [tag])[..|tags|] == tags;
  }
}
