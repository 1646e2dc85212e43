/** Byte strings and the length-prefixed readers of `cryptobyte.String` that the
    ClientHello parser is written with. */
module Bytes {

  type byte = b: int | 0 <= b < 256
  type bytes = seq<byte>

  /** What one read from the front of a cursor gives: the value and the advanced cursor. */
  datatype Read<+T> = Short | Got(value: T, rest: bytes)

  function U16(n: nat): (r: bytes)
    requires n < 65536
    ensures |r| == 2 && (var hi: int, lo: int := r[0], r[1]; hi * 256 + lo == n)
  {
    [n / 256, n % 256]
  }

  function Vec8(v: bytes): (r: bytes)
    requires |v| < 256
    ensures |r| == 1 + |v|
  {
    [|v|] + v
  }

  function Vec16(v: bytes): (r: bytes)
    requires |v| < 65536
    ensures |r| == 2 + |v|
  {
    U16(|v|) + v
  }

  function Skip(s: bytes, n: nat): Read<bytes> {
    if |s| < n then Short else Got(s[..n], s[n..])
  }

  function ReadUint16(s: bytes): (r: Read<nat>)
    ensures r.Got? ==> r.value < 65536 && |s| == 2 + |r.rest|
  {
    if |s| < 2 then Short else
      var hi: int, lo: int := s[0], s[1];
      Got(hi * 256 + lo, s[2..])
  }

  function ReadVec8(s: bytes): (r: Read<bytes>)
    ensures r.Got? ==> |r.value| < 256 && |s| == 1 + |r.value| + |r.rest|
  {
    if |s| < 1 then Short else
      var n: int := s[0];
      Skip(s[1..], n)
  }

  function ReadVec16(s: bytes): (r: Read<bytes>)
    ensures r.Got? ==> |r.value| < 65536 && |s| == 2 + |r.value| + |r.rest|
  {
    match ReadUint16(s)
    case Short => Short
    case Got(n, rest) => Skip(rest, n)
  }

  lemma ReadVec8Front(s: bytes, v: bytes, rest: bytes)
    requires |v| < 256 && s == Vec8(v) + rest
    ensures ReadVec8(s) == Got(v, rest)
  {
    assert s[0] == |v|;
    assert s[1..] == v + rest;
    assert (v + rest)[..|v|] == v && (v + rest)[|v|..] == rest;
  }

  lemma ReadVec16Front(s: bytes, v: bytes, rest: bytes)
    requires |v| < 65536 && s == Vec16(v) + rest
    ensures ReadVec16(s) == Got(v, rest)
  {
    assert s == U16(|v|) + (v + rest);
    assert (v + rest)[..|v|] == v && (v + rest)[|v|..] == rest;
  }

  // What a successful read says about the bytes it was made from.

  lemma ReadVec8Back(s: bytes)
    requires ReadVec8(s).Got?
    ensures s == Vec8(ReadVec8(s).value) + ReadVec8(s).rest
  {
    assert s == [s[0]] + s[1..];
  }

  lemma ReadVec16Back(s: bytes)
    requires ReadVec16(s).Got?
    ensures s == Vec16(ReadVec16(s).value) + ReadVec16(s).rest
  {
    var rest := ReadUint16(s).rest;
    assert rest == ReadVec16(s).value + ReadVec16(s).rest;
  }
}
