/** Peeking at the ClientHello and replaying what was read (tcp_sni.go). */
module TcpSni {
  import opened Bytes
  import opened ClientHello

  /** How one read of the underlying socket goes: at most `n` bytes arrive, or the
      deadline passes. */
  datatype Outcome = Deliver(n: nat) | Deadline

  datatype Err = NoError | EOF | UnexpectedEOF | Timeout

  /** A client connection. `pending` is what the client has sent and nobody has read;
      `script` fixes how the coming reads go. Past the script, reads are never short. */
  class Conn {
    var pending: bytes
    var script: seq<Outcome>

    constructor (stream: bytes, script: seq<Outcome>)
      ensures pending == stream && this.script == script
    {
      pending, this.script := stream, script;
    }

    method Read(cap: nat) returns (data: bytes, err: Err)
      modifies this
      ensures data + pending == old(pending) && |data| <= cap
      ensures err != NoError ==> data == []
      ensures err == NoError && cap > 0 ==> data != []
      ensures err == EOF ==> pending == []
      ensures Deadline !in old(script) ==> err != Timeout && Deadline !in script
      ensures err != UnexpectedEOF
    {
      if cap == 0 { return [], NoError; }
      var next := if script == [] then Deliver(cap) else script[0];
      script := if script == [] then [] else script[1..];
      if next == Deadline { return [], Timeout; }
      if pending == [] { return [], EOF; }
      var n := if next.n == 0 then 1 else next.n;
      n := if n > cap then cap else n;
      n := if n > |pending| then |pending| else n;
      data, err := pending[..n], NoError;
      pending := pending[n..];
    }
  }

  /** `io.ReadFull`: read until `n` bytes are there or a read fails. */
  method ReadFull(conn: Conn, n: nat) returns (buf: bytes, err: Err)
    modifies conn
    ensures buf + conn.pending == old(conn.pending)
    ensures err == NoError <==> |buf| == n
    ensures err != NoError ==> |buf| < n
    ensures err == EOF || err == UnexpectedEOF ==> conn.pending == [] && (err == EOF <==> buf == [])
    ensures Deadline !in old(conn.script) ==>
              && Deadline !in conn.script && err != Timeout
              && (err == NoError <==> n <= |old(conn.pending)|)
  {
    buf, err := [], NoError;
    while |buf| < n && err == NoError
      invariant |buf| <= n
      invariant buf + conn.pending == old(conn.pending)
      invariant err != NoError ==> |buf| < n
      invariant Deadline !in old(conn.script) ==> Deadline !in conn.script && err != Timeout
      invariant err == NoError || err == Timeout || (err == EOF && conn.pending == [])
      decreases n - |buf|, if err == NoError then 1 else 0
    {
      var data;
      data, err := conn.Read(n - |buf|);
      buf := buf + data;
    }
    if |buf| < n && err == EOF && buf != [] { err := UnexpectedEOF; }
  }

  // ----- What a peek finds, as a function of the stream ----------------------

  const RECORD_HANDSHAKE: byte := 0x16
  const HANDSHAKE_CLIENT_HELLO: byte := 1
  const RECORD_HEADER_LEN: nat := 5
  const MAX_CLIENT_HELLO_RECORD: nat := 16384

  function RecordLength(hdr: bytes): nat
    requires |hdr| == RECORD_HEADER_LEN
  {
    var hi: int, lo: int := hdr[3], hdr[4];
    hi * 256 + lo
  }

  /** A handshake record of plausible length. */
  predicate LooksTLS(hdr: bytes)
    requires |hdr| == RECORD_HEADER_LEN
  {
    hdr[0] == RECORD_HANDSHAKE && 0 < RecordLength(hdr) <= MAX_CLIENT_HELLO_RECORD
  }

  /** How many bytes of the stream a successful peek consumes. */
  function PeekLength(stream: bytes): nat {
    if |stream| < RECORD_HEADER_LEN then RECORD_HEADER_LEN else
      var hdr := stream[..RECORD_HEADER_LEN];
      RECORD_HEADER_LEN + if LooksTLS(hdr) then RecordLength(hdr) else 0
  }

  function RecordSni(body: bytes): bytes {
    if |body| < 4 || body[0] != HANDSHAKE_CLIENT_HELLO || Sni(body).None? then [] else Sni(body).value
  }

  function PeekSni(stream: bytes): bytes
    requires PeekLength(stream) <= |stream|
  {
    if LooksTLS(stream[..RECORD_HEADER_LEN])
    then RecordSni(stream[RECORD_HEADER_LEN..PeekLength(stream)]) else []
  }

  /** A first byte other than 22, or a length of zero or above 16384: only the five bytes of
      the header are taken, and no name is found. */
  lemma PlainBytes(stream: bytes)
    requires |stream| >= 5
    requires var hi: int, lo: int := stream[3], stream[4]; stream[0] != 22 || hi * 256 + lo == 0 || hi * 256 + lo > 16384
    ensures PeekLength(stream) == 5 && !LooksTLS(stream[..5]) && PeekSni(stream) == []
  {
  }

  /** Otherwise the announced bytes are taken too; a record that is not a ClientHello, of
      type 1, gives no name. */
  lemma RecordBytes(stream: bytes, n: nat)
    requires |stream| >= 5 && stream[0] == 22
    requires var hi: int, lo: int := stream[3], stream[4]; 0 < n == hi * 256 + lo <= 16384
    ensures PeekLength(stream) == 5 + n && LooksTLS(stream[..5])
    ensures 5 + n <= |stream| && (n < 4 || stream[5] != 1) ==> PeekSni(stream) == []
    ensures 5 + n <= |stream| && n >= 4 && stream[5] == 1 ==>
              PeekSni(stream) == match Sni(stream[5..5 + n]) case None => [] case Some(host) => host
  {
    hide Sni;
  }

  // ----- peekClientHelloSNI --------------------------------------------------

  /** Success depends on the stream and the deadline only, and so do the results: no
      pattern of short reads shows. On failure the piece being read is dropped: nothing is
      lost exactly if the failing read got nothing of the header or nothing of the body.
      Without a deadline that is so exactly for an empty stream and for one that ends
      with the header. */
  method PeekClientHelloSNI(conn: Conn) returns (sni: bytes, buffered: bytes, isTLS: bool, err: Err)
    modifies conn
    ensures err == NoError ==>
              var stream := old(conn.pending);
              && PeekLength(stream) <= |stream|
              && buffered == stream[..PeekLength(stream)] && conn.pending == stream[PeekLength(stream)..]
              && sni == PeekSni(stream) && isTLS == LooksTLS(stream[..RECORD_HEADER_LEN])
    ensures err != NoError ==>
              && sni == [] && (isTLS ==> RECORD_HEADER_LEN <= |old(conn.pending)|)
              && buffered == if isTLS then old(conn.pending)[..RECORD_HEADER_LEN] else []
    ensures err != NoError ==> PeekFailed(old(conn.pending), conn.pending, buffered, isTLS)
    ensures err == EOF || err == UnexpectedEOF ==> conn.pending == []
    ensures err != NoError ==>
              var consumed := |old(conn.pending)| - |conn.pending|;
              Lossless(old(conn.pending), buffered, conn.pending) <==> consumed == 0 || consumed == RECORD_HEADER_LEN
    ensures err != NoError && Deadline !in old(conn.script) ==>
              var n := |old(conn.pending)|;
              && conn.pending == []
              && (Lossless(old(conn.pending), buffered, conn.pending) <==> n == 0 || n == RECORD_HEADER_LEN)
    ensures Deadline !in old(conn.script) ==>
              (err == NoError <==> PeekLength(old(conn.pending)) <= |old(conn.pending)|)
  {
    ghost var stream := conn.pending;
    var hdr;
    hdr, err := ReadFull(conn, RECORD_HEADER_LEN);
    if err != NoError {
      return [], [], false, err;
    }
    assert hdr == stream[..RECORD_HEADER_LEN] && conn.pending == stream[RECORD_HEADER_LEN..];
    buffered := hdr;
    if hdr[0] != RECORD_HANDSHAKE { return [], buffered, false, NoError; }
    var hi: int, lo: int := hdr[3], hdr[4];
    var recLen := hi * 256 + lo;
    if recLen <= 0 || recLen > MAX_CLIENT_HELLO_RECORD { return [], buffered, false, NoError; }
    var body;
    body, err := ReadFull(conn, recLen);
    if err != NoError {
      return [], buffered, true, err;
    }
    buffered := buffered + body;
    if |body| < 4 || body[0] != HANDSHAKE_CLIENT_HELLO { return [], buffered, true, NoError; }
    var ok;
    sni, ok := ExtractSNI(body);
    return sni, buffered, true, NoError;
  }

  /** The returned bytes and those still to be read make up the stream. */
  predicate Lossless(stream: bytes, buffered: bytes, pending: bytes) { buffered + pending == stream }

  /** What a failed peek has consumed: less than the header, or the header and less than
      the body; what is pending is the rest of the stream. */
  ghost predicate PeekFailed(stream: bytes, pending: bytes, buffered: bytes, isTLS: bool) {
    var consumed := |stream| - |pending|;
    && 0 <= consumed < PeekLength(stream) && pending == stream[consumed..]
    && (isTLS <==> consumed >= RECORD_HEADER_LEN) && (isTLS ==> LooksTLS(stream[..RECORD_HEADER_LEN]))
  }

  /** A stream that shows the loss: three bytes of a header and then the end of the
      stream are consumed and not returned. */
  method PeekLosesPartialHeader(script: seq<Outcome>) returns (buffered: bytes, left: bytes, err: Err)
    requires Deadline !in script
    ensures err != NoError && buffered + left == []
  {
    var conn := new Conn([RECORD_HANDSHAKE, 3, 1], script);
    var sni, isTLS;
    sni, buffered, isTLS, err := PeekClientHelloSNI(conn);
    left := conn.pending;
  }

  // ----- prefixConn ----------------------------------------------------------

  class PrefixConn {
    const conn: Conn
    const prefix: bytes
    var off: nat

    constructor (c: Conn, prefix: bytes)
      ensures conn == c && this.prefix == prefix && off == 0
    {
      conn, this.prefix, off := c, prefix, 0;
    }

    method Read(cap: nat) returns (data: bytes, err: Err)
      requires off <= |prefix|
      modifies this, conn
      ensures off <= |prefix|
      ensures data + (prefix[off..] + conn.pending) == old(prefix[off..] + conn.pending) && |data| <= cap
      ensures err == EOF ==> prefix[off..] + conn.pending == []
      ensures err != NoError ==> data == []
    {
      if off < |prefix| {
        var n := if cap < |prefix| - off then cap else |prefix| - off;
        data, err := prefix[off..off + n], NoError;
        off := off + n;
        assert prefix[old(off)..] == data + prefix[off..];
      } else {
        data, err := conn.Read(cap);
        assert prefix[off..] == [];
      }
    }
  }

  /** What the proxy copies from: the socket itself, or a socket with a replayed prefix. */
  datatype Client = Direct(conn: Conn) | Replaying(p: PrefixConn)
  {
    ghost function Socket(): Conn { if Direct? then conn else p.conn }

    ghost function Objects(): set<object> { if Direct? then {conn} else {p, p.conn} }

    ghost predicate Valid()
      reads Objects()
    {
      Replaying? ==> p.off <= |p.prefix|
    }

    /** The bytes still to be read through this client. */
    ghost function Remaining(): bytes
      requires Valid()
      reads Objects()
    {
      if Direct? then conn.pending else p.prefix[p.off..] + p.conn.pending
    }

    method Read(cap: nat) returns (data: bytes, err: Err)
      requires Valid()
      modifies Objects()
      ensures Valid() && data + Remaining() == old(Remaining()) && |data| <= cap
      ensures err == EOF ==> Remaining() == []
      ensures err != NoError ==> data == []
    {
      match this
      case Direct(c) => data, err := c.Read(cap);
      case Replaying(q) => data, err := q.Read(cap);
    }

    /** Reads made with any sequence of buffer sizes, up to the first failing one. */
    method ReadAll(caps: seq<nat>) returns (got: bytes, err: Err)
      requires Valid()
      modifies Objects()
      ensures Valid() && got + Remaining() == old(Remaining())
      ensures err == EOF ==> got == old(Remaining())
    {
      got, err := [], NoError;
      ghost var stream := Remaining();
      hide Lossless;
      ReadMore(stream, [], stream, [], stream);
      for i := 0 to |caps|
        invariant Valid() && Lossless(stream, got, Remaining()) && err == NoError
      {
        var data;
        ghost var before := Remaining();
        data, err := Read(caps[i]);
        ReadMore(stream, got, before, data, Remaining());
        got := got + data;
        if err != NoError { break; }
      }
    }
  }

  lemma ReadMore(stream: bytes, got: bytes, before: bytes, data: bytes, after: bytes)
    requires before == data + after && (Lossless(stream, got, before) || (got == [] && before == stream))
    ensures Lossless(stream, got + data, after)
  {
    assert got + data + after == got + (data + after);
  }

  method NewPrefixConn(c: Conn, prefix: bytes) returns (client: Client)
    ensures client.Valid() && client.Remaining() == prefix + c.pending && client.Socket() == c
    ensures client.Direct? <==> prefix == []
    ensures client.Replaying? ==> fresh(client.p)
  {
    if prefix == [] { return Direct(c); }
    var p := new PrefixConn(c, prefix);
    return Replaying(p);
  }

  lemma SliceJoin(stream: bytes, n: nat)
    requires n <= |stream|
    ensures stream[..n] + stream[n..] == stream
  {
  }

  /** Peek and wrap, as the proxy does: a peek that succeeds leaves a client through which
      the whole stream is still to be read. */
  method PeekAndWrap(conn: Conn) returns (client: Client, err: Err)
    modifies conn
    ensures client.Valid() && client.Socket() == conn && (client.Replaying? ==> fresh(client.p))
    ensures err == NoError ==> client.Remaining() == old(conn.pending)
  {
    hide PeekFailed, Lossless, PeekSni, LooksTLS;
    ghost var stream := conn.pending;
    var sni, buffered, isTLS;
    sni, buffered, isTLS, err := PeekClientHelloSNI(conn);
    if err == NoError { SliceJoin(stream, PeekLength(stream)); }
    hide PeekLength;
    client := NewPrefixConn(conn, buffered);
  }

  /** Byte-exact replay: whatever the stream, the pattern of short reads and the buffer
      sizes, a peek that succeeds is invisible to whoever reads on. */
  method PeekAndReplay(conn: Conn, caps: seq<nat>) returns (got: bytes, peekErr: Err, err: Err, client: Client)
    modifies conn
    ensures peekErr == NoError ==> client.Valid() && got + client.Remaining() == old(conn.pending)
    ensures peekErr == NoError && err == EOF ==> got == old(conn.pending)
  {
    client, peekErr := PeekAndWrap(conn);
    if peekErr != NoError { return [], peekErr, NoError, client; }
    got, err := client.ReadAll(caps);
  }
}
