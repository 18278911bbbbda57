/** The fixed-width integers of the source and its byte-to-character conversion. */
module Bytes {

  /** unsigned char (and the bytes of std::vector<char>). */
  newtype byte = x: int | 0 <= x < 256

  /** uint32_t. */
  newtype u32 = x: int | 0 <= x < 0x1_0000_0000

  /** Storing an int into an unsigned char keeps it modulo 256. */
  function Wrap(n: int): byte {
    (n % 256) as byte
  }

  /** A character stored into an unsigned char: its code modulo 256. */
  function ByteOf(c: char): byte {
    Wrap(c as int)
  }

  /** An unsigned char read back as a character. */
  function CharOf(b: byte): (c: char)
    ensures c as int < 256
  {
    b as int as char
  }

  lemma CharOfByteOf(c: char)
    requires c as int < 256
    ensures CharOf(ByteOf(c)) == c
  {
  }

  /**
   * std::string(bytes.begin(), bytes.end()): one character per byte, whose code is the
   * byte's value.
   */
  function Chars(bytes: seq<byte>): (s: string)
    ensures |s| == |bytes|
    ensures forall k :: 0 <= k < |bytes| ==> s[k] as int == bytes[k] as int
  {
    if bytes == [] then [] else [CharOf(bytes[0])] + Chars(bytes[1..])
  }

  /** The conversion loses nothing: different byte strings give different texts. */
  lemma CharsInjective(a: seq<byte>, b: seq<byte>)
    requires Chars(a) == Chars(b)
    ensures a == b
  {
    assert |a| == |b|;
    forall k | 0 <= k < |a| ensures a[k] == b[k] {
      assert Chars(a)[k] == Chars(b)[k];
    }
  }
}
