/** Bytes, buffers of them, and the big-endian 32-bit words of binary headers. */
module Bytes {
  type Byte = n: int | 0 <= n < 256

  /** A 32-bit word, as `setUint32` writes it. */
  function Word(n: nat): (bytes: seq<Byte>)
    ensures |bytes| == 4
  {
    var low := n / 256;
    var high := low / 256;
    [high / 256 % 256, high % 256, low % 256, n % 256]
  }

  /** The 32-bit word at an offset, as `getUint32` reads it. */
  function WordAt(bytes: seq<Byte>, at: nat): nat
    requires at + 4 <= |bytes|
  {
    var a: int, b: int, c: int := bytes[at], bytes[at + 1], bytes[at + 2];
    a * 0x100_0000 + b * 0x1_0000 + c * 0x100 + bytes[at + 3]
  }

  lemma WordRoundTrip(bytes: seq<Byte>, at: nat, n: nat)
    requires at + 4 <= |bytes| && bytes[at..at + 4] == Word(n) && n < 0x1_0000_0000
    ensures WordAt(bytes, at) == n
  {
    var slice := bytes[at..at + 4];
    assert bytes[at] == slice[0] && bytes[at + 1] == slice[1] && bytes[at + 2] == slice[2] && bytes[at + 3] == slice[3];
    var low := n / 256;
    var high := low / 256;
    assert n == 256 * low + n % 256 && low == 256 * high + low % 256 && high == 256 * (high / 256) + high % 256;
  }

  /** Fill a buffer from `at` on, as a typed array's `set` does. */
  method Fill(buffer: array<Byte>, at: nat, bytes: seq<Byte>)
    requires at + |bytes| <= buffer.Length
    modifies buffer
    ensures buffer[..] == old(buffer[..at]) + bytes + old(buffer[at + |bytes|..])
  {
    for i := 0 to |bytes|
      invariant buffer[..at] == old(buffer[..at])
      invariant buffer[at..at + i] == bytes[..i]
      invariant buffer[at + |bytes|..] == old(buffer[at + |bytes|..])
    {
      buffer[at + i] := bytes[i];
      assert buffer[at..at + i + 1] == buffer[at..at + i] + [bytes[i]];
    }
    assert buffer[..] == buffer[..at] + buffer[at..at + |bytes|] + buffer[at + |bytes|..];
  }
}
