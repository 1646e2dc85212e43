/** The ClientHello parser of tcp_sni.go: `extractSNI` and the layout it accepts. */
module ClientHello {
  import opened Bytes
  import opened Prelude

  // ----- What is on the wire -------------------------------------------------

  /** One entry of a ServerNameList (section 3 of RFC 6066). */
  datatype Name = Name(kind: byte, host: bytes)

  /** One extension. `pad` is what may follow the name list inside the extension
      data; a conforming client sends none. */
  datatype Ext = Opaque(kind: nat, data: bytes) | ServerNames(names: seq<Name>, pad: bytes)

  const HOST_NAME: byte := 0
  const SERVER_NAME: nat := 0
  const HEAD_LENGTH: nat := 38 // handshake header 4, client_version 2, random 32

  predicate NameOk(n: Name) { 0 < |n.host| < 65536 }

  predicate NamesOk(ns: seq<Name>) { forall i | 0 <= i < |ns| :: NameOk(ns[i]) }

  predicate NoHost(ns: seq<Name>) { forall i | 0 <= i < |ns| :: ns[i].kind != HOST_NAME }

  // Printers put a value in front of the bytes that follow it.

  function PutName(n: Name, rest: bytes): bytes
    requires NameOk(n)
  {
    [n.kind] + (Vec16(n.host) + rest)
  }

  function PutNames(ns: seq<Name>, rest: bytes): bytes
    requires NamesOk(ns)
  {
    if ns == [] then rest else PutName(ns[0], PutNames(ns[1..], rest))
  }

  predicate ExtOk(e: Ext) {
    match e
    case Opaque(kind, data) => kind < 65536 && kind != SERVER_NAME && |data| < 65536
    case ServerNames(names, pad) =>
      && names != [] && NamesOk(names)
      && |PutNames(names, [])| + 2 + |pad| < 65536
  }

  predicate ExtsOk(es: seq<Ext>) { forall i | 0 <= i < |es| :: ExtOk(es[i]) }

  function PutRawExt(kind: nat, data: bytes, rest: bytes): bytes
    requires kind < 65536 && |data| < 65536
  {
    U16(kind) + (Vec16(data) + rest)
  }

  function PutExt(e: Ext, rest: bytes): bytes
    requires ExtOk(e)
  {
    match e
    case Opaque(kind, data) => PutRawExt(kind, data, rest)
    case ServerNames(names, pad) => PutRawExt(SERVER_NAME, Vec16(PutNames(names, [])) + pad, rest)
  }

  function PutExts(es: seq<Ext>, rest: bytes): bytes
    requires ExtsOk(es)
  {
    if es == [] then rest else PutExt(es[0], PutExts(es[1..], rest))
  }

  /** An extension the parser walks past: anything but a server_name extension
      that holds a host_name. */
  predicate Passed(e: Ext) { e.ServerNames? ==> NoHost(e.names) }

  predicate AllPassed(es: seq<Ext>) { forall i | 0 <= i < |es| :: Passed(es[i]) }

  // ----- The parser as a function of its cursors -----------------------------

  datatype Scan = Found(host: bytes) | Absent | Malformed

  /** The inner loop: walk a ServerNameList. */
  function ScanNames(list: bytes): Scan
    decreases |list|
  {
    if list == [] then Absent else
      match ReadVec16(list[1..])
      case Short => Malformed
      case Got(host, rest) =>
        if host == [] then Malformed
        else if list[0] == HOST_NAME then Found(host)
        else ScanNames(rest)
  }

  /** One server_name extension's data. */
  function ScanServerName(data: bytes): Scan {
    match ReadVec16(data)
    case Short => Malformed
    case Got(list, _) => if list == [] then Malformed else ScanNames(list)
  }

  /** The outer loop: walk the extensions. */
  function ScanExts(exts: bytes): Scan
    decreases |exts|
  {
    if exts == [] then Absent else
      match ReadUint16(exts)
      case Short => Malformed
      case Got(kind, rest) =>
        match ReadVec16(rest)
        case Short => Malformed
        case Got(data, rest') =>
          if kind != SERVER_NAME then ScanExts(rest') else
            var scan := ScanServerName(data);
            if scan == Absent then ScanExts(rest') else scan
  }

  /** The fields in front of the extensions; `Got` carries the extension block. */
  function Extensions(hs: bytes): Read<bytes> {
    match Skip(hs, HEAD_LENGTH)
    case Short => Short
    case Got(_, s0) =>
      match ReadVec8(s0)
      case Short => Short
      case Got(_, s1) =>
        match ReadVec16(s1)
        case Short => Short
        case Got(_, s2) =>
          match ReadVec8(s2)
          case Short => Short
          case Got(_, s3) => ReadVec16(s3)
  }

  function Sni(hs: bytes): Option<bytes> {
    match Extensions(hs)
    case Short => None
    case Got(exts, _) =>
      match ScanExts(exts)
      case Found(host) => Some(host)
      case _ => None
  }

  // ----- extractSNI ----------------------------------------------------------

  /** The inner loop of `extractSNI`, over `nameList`. */
  method WalkNames(list: bytes) returns (scan: Scan)
    ensures scan == ScanNames(list)
  {
    var nameList := list;
    while nameList != []
      invariant ScanNames(nameList) == ScanNames(list)
      decreases |nameList|
    {
      var nameType := nameList[0];
      match ReadVec16(nameList[1..])
      case Short => return Malformed;
      case Got(serverName, rest) =>
        if serverName == [] { return Malformed; }
        if nameType == HOST_NAME { return Found(serverName); }
        nameList := rest;
    }
    return Absent;
  }

  /** The outer loop of `extractSNI`, over `extensions`. */
  method WalkExtensions(block: bytes) returns (scan: Scan)
    ensures scan == ScanExts(block)
  {
    var extensions := block;
    while extensions != []
      invariant ScanExts(extensions) == ScanExts(block)
      decreases |extensions|
    {
      var extType := ReadUint16(extensions);
      if extType.Short? { return Malformed; }
      var extData := ReadVec16(extType.rest);
      if extData.Short? { return Malformed; }
      extensions := extData.rest;
      if extType.value == SERVER_NAME {
        var nameList := ReadVec16(extData.value);
        if nameList.Short? || nameList.value == [] { return Malformed; }
        scan := WalkNames(nameList.value);
        if scan != Absent { return scan; }
      }
    }
    return Absent;
  }

  method ExtractSNI(hs: bytes) returns (name: bytes, ok: bool)
    ensures ok <==> Sni(hs).Some?
    ensures name == if ok then Sni(hs).value else []
  {
    if |hs| < 4 { return [], false; }
    var s := hs[4..]; // handshake type and uint24 length
    if |s| < 2 { return [], false; }
    s := s[2..]; // client_version
    if |s| < 32 { return [], false; }
    s := s[32..]; // random
    assert s == hs[HEAD_LENGTH..];

    var sessionId := ReadVec8(s);
    if sessionId.Short? { return [], false; }
    var cipherSuites := ReadVec16(sessionId.rest);
    if cipherSuites.Short? { return [], false; }
    var compressionMethods := ReadVec8(cipherSuites.rest);
    if compressionMethods.Short? { return [], false; }
    s := compressionMethods.rest;
    if s == [] { return [], false; } // a ClientHello without extensions
    var extensions := ReadVec16(s);
    if extensions.Short? { return [], false; }
    var scan := WalkExtensions(extensions.value);
    if scan.Found? { return scan.host, true; }
    return [], false;
  }
}
