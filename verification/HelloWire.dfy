/** The ClientHello on the wire, byte by byte: which extension types and name types
    `extractSNI` looks at (tcp_sni.go). */
module HelloWire {
  import opened Bytes
  import opened Prelude
  import opened ClientHello
  import opened HelloLayout

  /** A handshake message around an extension block: 4 bytes of header, 2 of version, 32 of
      random, and the three vectors. */
  function Message(head: bytes, session: bytes, suites: bytes, compression: bytes, exts: bytes, trailing: bytes): bytes
    requires |session| < 256 && |suites| < 65536 && |compression| < 256 && |exts| < 65536
  {
    head + (Vec8(session) + (Vec16(suites) + (Vec8(compression) + (Vec16(exts) + trailing))))
  }

  lemma SniOfMessage(head: bytes, session: bytes, suites: bytes, compression: bytes, exts: bytes, trailing: bytes)
    requires |head| == 38 && |session| < 256 && |suites| < 65536 && |compression| < 256 && |exts| < 65536
    ensures Sni(Message(head, session, suites, compression, exts, trailing)) ==
            match ScanExts(exts) case Found(host) => Some(host) case _ => None
  {
    var f := Front(head, session, suites, compression);
    ExtensionsAfter(f, Vec16(exts) + trailing);
    ReadVec16Front(Vec16(exts) + trailing, exts, trailing);
    hide ScanExts, Vec16, Vec8, Extensions;
  }

  /** An entry of type 0 is the host_name; any other type is passed over. */
  lemma EntryBytes(kind: byte, name: bytes, tail: bytes)
    requires 0 < |name| < 65536
    ensures ScanNames([kind] + Vec16(name) + tail) == if kind == 0 then Found(name) else ScanNames(tail)
  {
    hide Vec16;
    assert [kind] + Vec16(name) + tail == PutName(Name(kind, name), tail);
    ScanNamesStep(Name(kind, name), tail);
  }

  /** An extension of type 0x0000 is the server_name one; any other type is passed over. */
  lemma ExtensionBytes(hi: byte, lo: byte, data: bytes, more: bytes)
    requires |data| < 65536
    ensures ScanExts([hi, lo] + Vec16(data) + more) ==
            if (hi != 0 || lo != 0) || ScanServerName(data) == Absent then ScanExts(more) else ScanServerName(data)
  {
    hide Vec16, ScanServerName;
    var h: int, l: int := hi, lo;
    assert [hi, lo] == U16(256 * h + l);
    assert [hi, lo] + Vec16(data) + more == PutRawExt(256 * h + l, data, more);
    ScanExtsStep(256 * h + l, data, more);
  }

  /** On the wire an extension of type 0x0000 whose list starts with an entry of type 0 gives
      that entry's name, whatever else the message holds. */
  lemma ServerNameOnTheWire(head: bytes, session: bytes, suites: bytes, compression: bytes,
                            host: bytes, tail: bytes, pad: bytes, more: bytes, trailing: bytes)
    requires |head| == 38 && |session| < 256 && |suites| < 65536 && |compression| < 256
    requires host != [] && |host| + |tail| + |pad| + |more| + 9 < 65536
    ensures var list := [0] + Vec16(host) + tail;
            var exts := [0, 0] + Vec16(Vec16(list) + pad) + more;
            Sni(Message(head, session, suites, compression, exts, trailing)) == Some(host)
  {
    hide Vec16, ScanExts, ScanServerName, Message, Sni;
    var list := [0] + Vec16(host) + tail;
    EntryBytes(0, host, tail);
    ScanServerNameFront(list, pad);
    ExtensionBytes(0, 0, Vec16(list) + pad, more);
    SniOfMessage(head, session, suites, compression, [0, 0] + Vec16(Vec16(list) + pad) + more, trailing);
  }

  /** An extension of any other two-byte type is passed over. */
  lemma OtherTypeOnTheWire(head: bytes, session: bytes, suites: bytes, compression: bytes,
                           hi: byte, lo: byte, data: bytes, more: bytes, trailing: bytes)
    requires |head| == 38 && |session| < 256 && |suites| < 65536 && |compression| < 256
    requires (hi != 0 || lo != 0) && |data| + |more| + 4 < 65536
    ensures Sni(Message(head, session, suites, compression, [hi, lo] + Vec16(data) + more, trailing))
            == Sni(Message(head, session, suites, compression, more, trailing))
  {
    hide Vec16, ScanExts, ScanServerName, Message, Sni;
    ExtensionBytes(hi, lo, data, more);
    SniOfMessage(head, session, suites, compression, [hi, lo] + Vec16(data) + more, trailing);
    SniOfMessage(head, session, suites, compression, more, trailing);
  }

  /** In the list, an entry of any other type is passed over. */
  lemma OtherNameOnTheWire(head: bytes, session: bytes, suites: bytes, compression: bytes,
                           kind: byte, name: bytes, list: bytes, pad: bytes, more: bytes, trailing: bytes)
    requires |head| == 38 && |session| < 256 && |suites| < 65536 && |compression| < 256
    requires kind != 0 && name != [] && list != [] && |name| + |list| + |pad| + |more| + 9 < 65536
    ensures Sni(Message(head, session, suites, compression,
                        [0, 0] + Vec16(Vec16([kind] + Vec16(name) + list) + pad) + more, trailing))
            == Sni(Message(head, session, suites, compression, [0, 0] + Vec16(Vec16(list) + pad) + more, trailing))
  {
    hide Vec16, ScanExts, ScanServerName, Message, Sni;
    var longer := [kind] + Vec16(name) + list;
    EntryBytes(kind, name, list);
    ScanServerNameFront(longer, pad);
    ScanServerNameFront(list, pad);
    ExtensionBytes(0, 0, Vec16(longer) + pad, more);
    ExtensionBytes(0, 0, Vec16(list) + pad, more);
    SniOfMessage(head, session, suites, compression, [0, 0] + Vec16(Vec16(longer) + pad) + more, trailing);
    SniOfMessage(head, session, suites, compression, [0, 0] + Vec16(Vec16(list) + pad) + more, trailing);
  }
}
