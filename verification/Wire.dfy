/** The SSH wire encoding (RFC 4251, section 5): length-prefixed byte strings,
    the buffer that writes them and the cursor that reads them. */
module Wire {
  import opened Wrappers

  type byte = x: int | 0 <= x < 256
  type bytes = seq<byte>

  const U32_LIMIT := 0x1_0000_0000

  function Low(v: nat): byte {
    v % 256
  }

  /** Big-endian bytes of a uint32; a wider value is truncated. */
  function U32(v: nat): (b: bytes)
    ensures |b| == 4
  {
    [Low(v / 256 / 256 / 256), Low(v / 256 / 256), Low(v / 256), Low(v)]
  }

  function U32Value(b: bytes): (v: nat)
    requires |b| == 4
    ensures v < U32_LIMIT
  {
    ((b[0] as nat * 256 + b[1] as nat) * 256 + b[2] as nat) * 256 + b[3] as nat
  }

  lemma U32RoundTrip(v: nat)
    requires v < U32_LIMIT
    ensures U32Value(U32(v)) == v
  {
  }

  lemma Shift(q: nat, r: byte)
    ensures (q * 256 + r as nat) / 256 == q && Low(q * 256 + r as nat) == r
  {
  }

  lemma U32Inverse(b: bytes)
    requires |b| == 4
    ensures U32(U32Value(b)) == b
  {
    var v1: nat := b[0] as nat * 256 + b[1] as nat;
    var v2: nat := v1 * 256 + b[2] as nat;
    Shift(b[0] as nat, b[1]);
    Shift(v1, b[2]);
    Shift(v2, b[3]);
    assert U32Value(b) == v2 * 256 + b[3] as nat;
    assert Low(b[0] as nat) == b[0];
  }

  function String(b: bytes): bytes {
    U32(|b|) + b
  }

  // -- reading, as functions of the bytes that are left ---------------------

  function TakeU32(s: bytes): Option<(nat, bytes)> {
    if |s| < 4 then None else Some((U32Value(s[..4]), s[4..]))
  }

  function TakeString(s: bytes): Option<(bytes, bytes)> {
    match TakeU32(s)
    case None => None
    case Some((n, rest)) => if n > |rest| then None else Some((rest[..n], rest[n..]))
  }

  function TakeByte(s: bytes): Option<(byte, bytes)> {
    if s == [] then None else Some((s[0], s[1..]))
  }

  lemma TakeWrittenU32(v: nat, rest: bytes)
    requires v < U32_LIMIT
    ensures TakeU32(U32(v) + rest) == Some((v, rest))
  {
    U32RoundTrip(v);
    assert (U32(v) + rest)[..4] == U32(v);
  }

  lemma TakeWrittenString(b: bytes, rest: bytes)
    requires |b| < U32_LIMIT
    ensures TakeString(String(b) + rest) == Some((b, rest))
  {
    assert String(b) + rest == U32(|b|) + (b + rest);
    TakeWrittenU32(|b|, b + rest);
  }

  /** A read is the inverse of a write: what was taken, written back, is what
      was there. */
  lemma TakenU32(s: bytes)
    requires TakeU32(s).Some?
    ensures var (v, rest) := TakeU32(s).value; v < U32_LIMIT && s == U32(v) + rest
  {
    U32Inverse(s[..4]);
  }

  lemma TakenString(s: bytes)
    requires TakeString(s).Some?
    ensures var (b, rest) := TakeString(s).value; |b| < U32_LIMIT && s == String(b) + rest
  {
    TakenU32(s);
    var (n, rest) := TakeU32(s).value;
    assert s == U32(n) + (rest[..n] + rest[n..]);
  }

  /** Where two encodings of a string followed by anything agree, so do the
      strings and what follows. */
  lemma StringPrefixFree(a: bytes, x: bytes, b: bytes, y: bytes)
    requires |a| < U32_LIMIT && |b| < U32_LIMIT
    requires String(a) + x == String(b) + y
    ensures a == b && x == y
  {
    TakeWrittenString(a, x);
    TakeWrittenString(b, y);
  }

  // -- the buffer and the cursor --------------------------------------------

  class Writer {
    var buf: bytes

    constructor ()
      ensures buf == []
    {
      buf := [];
    }

    method WriteRaw(b: bytes)
      modifies this
      ensures buf == old(buf) + b
    {
      buf := buf + b;
    }

    method WriteUint32(v: nat)
      modifies this
      ensures buf == old(buf) + U32(v)
    {
      buf := buf + U32(v);
    }

    method WriteString(b: bytes)
      modifies this
      ensures buf == old(buf) + String(b)
    {
      WriteUint32(|b|);
      buf := buf + b;
      assert old(buf) + U32(|b|) + b == old(buf) + String(b);
    }
  }

  class Reader {
    const buf: bytes
    var off: nat

    ghost predicate Valid()
      reads this
    {
      off <= |buf|
    }

    function Left(): bytes
      requires Valid()
      reads this
    {
      buf[off..]
    }

    constructor (b: bytes)
      ensures Valid() && Left() == b
    {
      buf, off := b, 0;
    }

    method ReadUint32() returns (r: Option<nat>)
      requires Valid()
      modifies this
      ensures Valid()
      ensures match TakeU32(old(Left()))
              case Some((v, rest)) => r == Some(v) && Left() == rest
              case None => r == None && off == old(off)
    {
      if off + 4 > |buf| {
        return None;
      }
      assert Left()[..4] == buf[off..off + 4] && Left()[4..] == buf[off + 4..];
      r := Some(U32Value(buf[off..off + 4]));
      off := off + 4;
    }

    /** A length that runs past the end is refused before anything is read. */
    method ReadString() returns (r: Option<bytes>)
      requires Valid()
      modifies this
      ensures Valid()
      ensures match TakeString(old(Left()))
              case Some((b, rest)) => r == Some(b) && Left() == rest
              case None => r == None
    {
      var n := ReadUint32();
      if n.None? || n.value > |buf| - off {
        return None;
      }
      var end := off + n.value;
      assert Left()[..n.value] == buf[off..end] && Left()[n.value..] == buf[end..];
      r := Some(buf[off..end]);
      off := end;
    }

    method ReadByte() returns (r: Option<byte>)
      requires Valid()
      modifies this
      ensures Valid()
      ensures match TakeByte(old(Left()))
              case Some((b, rest)) => r == Some(b) && Left() == rest
              case None => r == None && off == old(off)
    {
      if off >= |buf| {
        return None;
      }
      assert Left()[1..] == buf[off + 1..];
      r := Some(buf[off]);
      off := off + 1;
    }

    method AtEnd() returns (done: bool)
      requires Valid()
      ensures done <==> Left() == []
    {
      done := off == |buf|;
    }
  }
}
