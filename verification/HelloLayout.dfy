/** What `extractSNI` means in terms of the ClientHello layout of section 4.1.2 of
    RFC 8446 and section 3 of RFC 6066: exactly which byte strings yield a name,
    and the round trip for every encoded ClientHello. */
module HelloLayout {
  import opened Bytes
  import opened Prelude
  import opened ClientHello

  // ----- Name lists ----------------------------------------------------------

  lemma ScanNamesStep(n: Name, rest: bytes)
    requires NameOk(n)
    ensures ScanNames(PutName(n, rest)) == if n.kind == HOST_NAME then Found(n.host) else ScanNames(rest)
  {
    assert PutName(n, rest)[1..] == Vec16(n.host) + rest;
    ReadVec16Front(Vec16(n.host) + rest, n.host, rest);
  }

  lemma {:induction false} ScanNamesPast(ns: seq<Name>, rest: bytes)
    requires NamesOk(ns) && NoHost(ns)
    ensures ScanNames(PutNames(ns, rest)) == ScanNames(rest)
  {
    if ns != [] {
      ScanNamesStep(ns[0], PutNames(ns[1..], rest));
      ScanNamesPast(ns[1..], rest);
    }
  }

  lemma NamesSplitStep(list: bytes) returns (n: Name, more: bytes)
    requires list != [] && ScanNames(list) != Malformed
    ensures NameOk(n) && list == PutName(n, more) && |more| < |list|
    ensures ScanNames(list) == if n.kind == HOST_NAME then Found(n.host) else ScanNames(more)
  {
    var r := ReadVec16(list[1..]);
    ReadVec16Back(list[1..]);
    assert list == [list[0]] + list[1..];
    n, more := Name(list[0], r.value), r.rest;
  }

  /** Whatever a name list is scanned to, it starts with entries of other types. */
  lemma {:induction false} ScanNamesSplit(list: bytes) returns (ns: seq<Name>, rest: bytes)
    requires ScanNames(list) != Malformed
    ensures NamesOk(ns) && NoHost(ns)
    ensures ScanNames(list) == Absent ==> list == PutNames(ns, [])
    ensures ScanNames(list).Found? ==>
              var n := Name(HOST_NAME, ScanNames(list).host);
              NameOk(n) && list == PutNames(ns, PutName(n, rest))
    decreases |list|
  {
    hide PutName;
    if list == [] { return [], []; }
    var n, more := NamesSplitStep(list);
    if n.kind == HOST_NAME { return [], more; }
    var ns';
    ns', rest := ScanNamesSplit(more);
    ns := [n] + ns';
    assert ns[1..] == ns';
  }

  // ----- Extension lists -----------------------------------------------------

  lemma ScanServerNameFront(list: bytes, pad: bytes)
    requires 0 < |list| && |list| + 2 + |pad| < 65536
    ensures ScanServerName(Vec16(list) + pad) == ScanNames(list)
  {
    ReadVec16Front(Vec16(list) + pad, list, pad);
  }

  lemma ScanExtsStep(kind: nat, data: bytes, rest: bytes)
    requires kind < 65536 && |data| < 65536
    ensures ScanExts(PutRawExt(kind, data, rest)) ==
            if kind != SERVER_NAME || ScanServerName(data) == Absent then ScanExts(rest) else ScanServerName(data)
  {
    ReadVec16Front(Vec16(data) + rest, data, rest);
  }

  lemma ScanExtPast(e: Ext, rest: bytes)
    requires ExtOk(e) && Passed(e)
    ensures ScanExts(PutExt(e, rest)) == ScanExts(rest)
  {
    match e
    case Opaque(kind, data) => ScanExtsStep(kind, data, rest);
    case ServerNames(names, pad) =>
      var list := PutNames(names, []);
      ScanExtsStep(SERVER_NAME, Vec16(list) + pad, rest);
      ScanServerNameFront(list, pad);
      ScanNamesPast(names, []);
  }

  lemma {:induction false} ScanExtsPast(es: seq<Ext>, rest: bytes)
    requires ExtsOk(es) && AllPassed(es)
    ensures ScanExts(PutExts(es, rest)) == ScanExts(rest)
  {
    if es != [] {
      ScanExtPast(es[0], PutExts(es[1..], rest));
      ScanExtsPast(es[1..], rest);
    }
  }

  /** The server_name extension in which the scan stops. */
  datatype Hit = Hit(names: seq<Name>, host: bytes, namesTail: bytes, pad: bytes)

  function HitNames(h: Hit): (r: bytes)
    requires NamesOk(h.names) && 0 < |h.host| < 65536
  {
    PutNames(h.names, PutName(Name(HOST_NAME, h.host), h.namesTail))
  }

  predicate HitOk(h: Hit) {
    && NamesOk(h.names) && NoHost(h.names) && 0 < |h.host| < 65536
    && |HitNames(h)| + 2 + |h.pad| < 65536
  }

  function PutHit(h: Hit, rest: bytes): bytes
    requires HitOk(h)
  {
    PutRawExt(SERVER_NAME, Vec16(HitNames(h)) + h.pad, rest)
  }

  lemma ScanExtsHit(h: Hit, rest: bytes)
    requires HitOk(h)
    ensures ScanExts(PutHit(h, rest)) == Found(h.host)
  {
    var list := HitNames(h);
    var n := Name(HOST_NAME, h.host);
    ScanNamesStep(n, h.namesTail);
    ScanNamesPast(h.names, PutName(n, h.namesTail));
    ScanExtsStep(SERVER_NAME, Vec16(list) + h.pad, rest);
    ScanServerNameFront(list, h.pad);
  }

  /** Reading a server_name extension's data back into its layout. */
  lemma ServerNameSplit(data: bytes) returns (names: seq<Name>, tail: bytes, pad: bytes)
    requires |data| < 65536 && ScanServerName(data) != Malformed
    ensures ScanServerName(data) == Absent ==>
              ExtOk(ServerNames(names, pad)) && NoHost(names) && data == Vec16(PutNames(names, [])) + pad
    ensures ScanServerName(data).Found? ==>
              var h := Hit(names, ScanServerName(data).host, tail, pad);
              HitOk(h) && data == Vec16(HitNames(h)) + pad
  {
    var r := ReadVec16(data);
    ReadVec16Back(data);
    names, tail := ScanNamesSplit(r.value);
    pad := r.rest;
  }

  lemma ExtsSplitStep(exts: bytes) returns (kind: nat, data: bytes, more: bytes)
    requires exts != [] && ScanExts(exts) != Malformed
    ensures kind < 65536 && |data| < 65536 && exts == PutRawExt(kind, data, more) && |more| < |exts|
    ensures ScanExts(exts) ==
            if kind != SERVER_NAME || ScanServerName(data) == Absent then ScanExts(more) else ScanServerName(data)
  {
    var k := ReadUint16(exts);
    var d := ReadVec16(k.rest);
    ReadVec16Back(k.rest);
    kind, data, more := k.value, d.value, d.rest;
  }

  /** An extension the scan does not stop in. */
  lemma PassedExtSplit(kind: nat, data: bytes, more: bytes) returns (e: Ext)
    requires kind < 65536 && |data| < 65536
    requires kind == SERVER_NAME ==> ScanServerName(data) == Absent
    ensures ExtOk(e) && Passed(e) && PutRawExt(kind, data, more) == PutExt(e, more)
  {
    if kind != SERVER_NAME { return Opaque(kind, data); }
    var names, _, pad := ServerNameSplit(data);
    return ServerNames(names, pad);
  }

  lemma PutExtsCons(e: Ext, es: seq<Ext>, rest: bytes)
    requires ExtOk(e) && ExtsOk(es)
    ensures ExtsOk([e] + es) && PutExts([e] + es, rest) == PutExt(e, PutExts(es, rest))
  {
    assert ([e] + es)[1..] == es;
  }

  lemma {:induction false} ScanExtsSplit(exts: bytes) returns (before: seq<Ext>, h: Hit, rest: bytes)
    requires ScanExts(exts).Found?
    ensures ExtsOk(before) && AllPassed(before) && HitOk(h) && h.host == ScanExts(exts).host
    ensures exts == PutExts(before, PutHit(h, rest))
    decreases |exts|
  {
    hide PutRawExt, Vec16, HitNames, ScanServerName;
    var kind, data, more := ExtsSplitStep(exts);
    if kind == SERVER_NAME && ScanServerName(data) != Absent {
      var names, tail, pad := ServerNameSplit(data);
      return [], Hit(names, ScanServerName(data).host, tail, pad), more;
    }
    var e := PassedExtSplit(kind, data, more);
    var es;
    es, h, rest := ScanExtsSplit(more);
    PutExtsCons(e, es, PutHit(h, rest));
    before := [e] + es;
  }

  // ----- Whole messages ------------------------------------------------------

  /** The fields in front of the extensions. */
  datatype Front = Front(head: bytes, session: bytes, suites: bytes, compression: bytes)

  predicate FrontOk(f: Front) {
    |f.head| == HEAD_LENGTH && |f.session| < 256 && |f.suites| < 65536 && |f.compression| < 256
  }

  function PutFront(f: Front, rest: bytes): bytes
    requires FrontOk(f)
  {
    f.head + (Vec8(f.session) + (Vec16(f.suites) + (Vec8(f.compression) + rest)))
  }

  /** They are skipped whatever they hold. */
  lemma ExtensionsAfter(f: Front, rest: bytes)
    requires FrontOk(f)
    ensures Extensions(PutFront(f, rest)) == ReadVec16(rest)
  {
    var s2 := Vec8(f.compression) + rest;
    var s1 := Vec16(f.suites) + s2;
    var s0 := Vec8(f.session) + s1;
    ReadVec8Front(s0, f.session, s1);
    ReadVec16Front(s1, f.suites, s2);
    ReadVec8Front(s2, f.compression, rest);
    SkipFront(f.head, s0);
  }

  lemma SkipFront(head: bytes, rest: bytes)
    ensures Skip(head + rest, |head|) == Got(head, rest)
  {
    assert (head + rest)[..|head|] == head && (head + rest)[|head|..] == rest;
  }

  lemma ExtensionsSplit(hs: bytes) returns (f: Front)
    requires Extensions(hs).Got?
    ensures FrontOk(f) && |Extensions(hs).value| < 65536
    ensures hs == PutFront(f, Vec16(Extensions(hs).value) + Extensions(hs).rest)
  {
    hide Vec8, Vec16, ReadVec8, ReadVec16;
    var a := Skip(hs, HEAD_LENGTH);
    assert hs == a.value + a.rest;
    var b := ReadVec8(a.rest);
    ReadVec8Back(a.rest);
    var c := ReadVec16(b.rest);
    ReadVec16Back(b.rest);
    var d := ReadVec8(c.rest);
    ReadVec8Back(c.rest);
    ReadVec16Back(d.rest);
    f := Front(a.value, b.value, c.value, d.value);
  }

  /** Everything in a handshake message from which a name is read, in wire order. */
  datatype Layout = Layout(front: Front, before: seq<Ext>, hit: Hit, extsTail: bytes, trailing: bytes)

  function LayoutExts(l: Layout): bytes
    requires ExtsOk(l.before) && HitOk(l.hit)
  {
    PutExts(l.before, PutHit(l.hit, l.extsTail))
  }

  predicate LayoutOk(l: Layout) {
    && FrontOk(l.front) && ExtsOk(l.before) && AllPassed(l.before) && HitOk(l.hit)
    && |LayoutExts(l)| < 65536
  }

  function Render(l: Layout): bytes
    requires LayoutOk(l)
  {
    PutFront(l.front, Vec16(LayoutExts(l)) + l.trailing)
  }

  /** Completeness: every message with the layout yields its name. */
  lemma LayoutIsRead(l: Layout)
    requires LayoutOk(l)
    ensures Sni(Render(l)) == Some(l.hit.host)
  {
    var block := Vec16(LayoutExts(l)) + l.trailing;
    ExtensionsAfter(l.front, block);
    ReadVec16Front(block, LayoutExts(l), l.trailing);
    ScanExtsPast(l.before, PutHit(l.hit, l.extsTail));
    ScanExtsHit(l.hit, l.extsTail);
  }

  /** Soundness: a name is only ever read out of a message with the layout. */
  lemma NameHasLayout(hs: bytes) returns (l: Layout)
    requires Sni(hs).Some?
    ensures LayoutOk(l) && Render(l) == hs && l.hit.host == Sni(hs).value
  {
    var front := ExtensionsSplit(hs);
    var Got(exts, trailing) := Extensions(hs);
    var before, hit, extsTail := ScanExtsSplit(exts);
    l := Layout(front, before, hit, extsTail, trailing);
  }

  /** `extractSNI` returns a name exactly for the messages that decompose into the
      layout around that name. */
  lemma SniExactly(hs: bytes, host: bytes)
    ensures Sni(hs) == Some(host) <==> exists l: Layout :: LayoutOk(l) && Render(l) == hs && l.hit.host == host
  {
    if Sni(hs) == Some(host) {
      var l := NameHasLayout(hs);
    }
    forall l: Layout | LayoutOk(l) && Render(l) == hs && l.hit.host == host
      ensures Sni(hs) == Some(host)
    {
      LayoutIsRead(l);
    }
  }

  // ----- Encoded ClientHellos ------------------------------------------------

  /** A ClientHello with any field contents; `extensions` may be left out altogether. */
  datatype Hello = Hello(
    version: bytes, random: bytes, session: bytes, suites: bytes, compression: bytes,
    extensions: Option<seq<Ext>>)

  predicate HelloOk(c: Hello) {
    && |c.version| == 2 && |c.random| == 32
    && |c.session| < 256 && |c.suites| < 65536 && |c.compression| < 256
    && (c.extensions.Some? ==> ExtsOk(c.extensions.value) && |PutExts(c.extensions.value, [])| < 65536)
  }

  function HelloExts(c: Hello): bytes
    requires HelloOk(c)
  {
    if c.extensions.None? then [] else Vec16(PutExts(c.extensions.value, []))
  }

  function HelloLength(c: Hello): (n: nat)
    requires HelloOk(c)
    ensures n < 0x100_0000
  {
    2 + 32 + |Vec8(c.session)| + |Vec16(c.suites)| + |Vec8(c.compression)| + |HelloExts(c)|
  }

  /** Handshake type client_hello, uint24 length, client_version, random. */
  function HelloFront(c: Hello): (f: Front)
    requires HelloOk(c)
    ensures FrontOk(f)
  {
    var n := HelloLength(c);
    var head: bytes := [1, n / 0x1_0000, n / 256 % 256, n % 256] + (c.version + c.random);
    Front(head, c.session, c.suites, c.compression)
  }

  function EncodeHello(c: Hello): bytes
    requires HelloOk(c)
  {
    PutFront(HelloFront(c), HelloExts(c))
  }

  /** The first host_name of a name list, and of the server_name extensions of a hello. */
  function HostOf(ns: seq<Name>): Option<bytes> {
    if ns == [] then None
    else if ns[0].kind == HOST_NAME then Some(ns[0].host)
    else HostOf(ns[1..])
  }

  function HostOfExts(es: seq<Ext>): Option<bytes> {
    if es == [] then None
    else if es[0].ServerNames? && HostOf(es[0].names).Some? then HostOf(es[0].names)
    else HostOfExts(es[1..])
  }

  function HostOfHello(c: Hello): Option<bytes> {
    if c.extensions.None? then None else HostOfExts(c.extensions.value)
  }

  function AsScan(o: Option<bytes>): Scan {
    match o
    case None => Absent
    case Some(host) => Found(host)
  }

  lemma {:induction false} EncodedNamesScan(ns: seq<Name>)
    requires NamesOk(ns)
    ensures ScanNames(PutNames(ns, [])) == AsScan(HostOf(ns))
  {
    if ns != [] {
      ScanNamesStep(ns[0], PutNames(ns[1..], []));
      EncodedNamesScan(ns[1..]);
    }
  }

  lemma {:induction false} EncodedExtsScan(es: seq<Ext>)
    requires ExtsOk(es)
    ensures ScanExts(PutExts(es, [])) == AsScan(HostOfExts(es))
  {
    if es != [] {
      var rest := PutExts(es[1..], []);
      EncodedExtsScan(es[1..]);
      match es[0] {
        case Opaque(kind, data) =>
          ScanExtsStep(kind, data, rest);
        case ServerNames(names, pad) =>
          var list := PutNames(names, []);
          ScanExtsStep(SERVER_NAME, Vec16(list) + pad, rest);
          ScanServerNameFront(list, pad);
          EncodedNamesScan(names);
      }
    }
  }

  lemma SniAfterFront(f: Front, block: bytes)
    requires FrontOk(f) && |block| < 65536
    ensures Sni(PutFront(f, [])) == None
    ensures Sni(PutFront(f, Vec16(block))) ==
            match ScanExts(block) case Found(host) => Some(host) case _ => None
  {
    hide PutFront, Vec16, ScanExts, Extensions;
    ExtensionsAfter(f, []);
    ExtensionsAfter(f, Vec16(block));
    assert Vec16(block) + [] == Vec16(block);
    ReadVec16Front(Vec16(block), block, []);
  }

  /** Round trip: parsing an encoded ClientHello gives the first host_name it carries,
      and nothing when it carries none. */
  lemma RoundTrip(c: Hello)
    requires HelloOk(c)
    ensures Sni(EncodeHello(c)) == HostOfHello(c)
  {
    var exts := if c.extensions.None? then [] else c.extensions.value;
    EncodedExtsScan(exts);
    SniAfterFront(HelloFront(c), PutExts(exts, []));
  }
}
