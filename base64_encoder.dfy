/**
 * A reference encoder for the standard alphabet of section 4 of RFC 4648, with '='
 * padding. The repository's server only decodes; this encoder is the decoder's partner,
 * and DecodeEncode shows that the decoder inverts it.
 */
module Base64Encoding {

  import opened Bytes
  import opened Base64

  /** The four sextets of the 24-bit group b0 b1 b2, most significant first. */
  function Sextets(b0: byte, b1: byte, b2: byte): (v: seq<byte>)
    ensures |v| == 4 && v[0] < 64 && v[1] < 64 && v[2] < 64 && v[3] < 64
  {
    [ (b0 as int / 4) as byte, (b0 as int % 4 * 16 + b1 as int / 16) as byte,
      (b1 as int % 16 * 4 + b2 as int / 64) as byte, (b2 as int % 64) as byte ]
  }

  /** The four characters that encode the bytes b0 b1 b2. */
  function EncodeGroup(b0: byte, b1: byte, b2: byte): (s: string)
    ensures |s| == 4
  {
    var v := Sextets(b0, b1, b2);
    [TableChar(v[0] as int), TableChar(v[1] as int), TableChar(v[2] as int), TableChar(v[3] as int)]
  }

  /**
   * The encoding of data: a group of four characters per three bytes; a last group of
   * one or two bytes is completed with zero bits and its unused characters become '='.
   */
  function Encode(data: seq<byte>): (s: string)
    ensures |s| == (|data| + 2) / 3 * 4
    decreases |data|
  {
    if |data| == 0 then ""
    else if |data| == 1 then EncodeGroup(data[0], 0, 0)[..2] + "=="
    else if |data| == 2 then EncodeGroup(data[0], data[1], 0)[..3] + "="
    else EncodeGroup(data[0], data[1], data[2]) + Encode(data[3..])
  }

  /** An encoding is made of alphabet characters followed by at most two '='. */
  lemma {:induction false} EncodeAlphabet(data: seq<byte>)
    ensures forall k :: 0 <= k < |Encode(data)| ==> Encode(data)[k] == '=' || IsBase64(Encode(data)[k])
    ensures forall k :: 0 <= k < |Encode(data)| - 2 ==> Encode(data)[k] != '='
    decreases |data|
  {
    if |data| == 0 {
    } else if |data| <= 2 {
      EncodeLastAlphabet(data);
    } else {
      var g, rest := EncodeGroup(data[0], data[1], data[2]), Encode(data[3..]);
      EncodeGroupSextets(data[0], data[1], data[2], 4);
      EncodeAlphabet(data[3..]);
      AlphabetAppend(g, rest);
      assert Encode(data) == g + rest;
    }
  }

  /** The last group of an encoding of one or two bytes. */
  lemma EncodeLastAlphabet(data: seq<byte>)
    requires 1 <= |data| <= 2
    ensures forall k :: 0 <= k < |Encode(data)| ==> Encode(data)[k] == '=' || IsBase64(Encode(data)[k])
    ensures forall k :: 0 <= k < |Encode(data)| - 2 ==> Encode(data)[k] != '='
  {
    var b1 := if |data| == 2 then data[1] else 0;
    EncodeGroupSextets(data[0], b1, 0, |data| + 1);
  }

  /** A group of alphabet characters in front of an encoding keeps its shape. */
  lemma AlphabetAppend(g: string, rest: string)
    requires |g| == 4 && forall k :: 0 <= k < 4 ==> g[k] != '=' && IsBase64(g[k])
    requires forall k :: 0 <= k < |rest| ==> rest[k] == '=' || IsBase64(rest[k])
    requires forall k :: 0 <= k < |rest| - 2 ==> rest[k] != '='
    ensures forall k :: 0 <= k < |g + rest| ==> (g + rest)[k] == '=' || IsBase64((g + rest)[k])
    ensures forall k :: 0 <= k < |g + rest| - 2 ==> (g + rest)[k] != '='
  {
    var s := g + rest;
    forall k | 4 <= k < |s| ensures s[k] == rest[k - 4] {}
  }

  /** Each byte of a group is rebuilt from the two sextets that hold its bits. */
  lemma SextetsDecode(b0: byte, b1: byte, b2: byte)
    ensures var w := Sextets(b0, b1, b2); Quartet(w[0], w[1], w[2], w[3]) == [b0, b1, b2]
  {
    var w := Sextets(b0, b1, b2);
    SextetValues(b0, b1, b2);
    QuartetRebuilds(b0, b1, b2, w[0], w[1], w[2], w[3]);
  }

  /** The four sextets of a group as numbers. */
  lemma SextetValues(b0: byte, b1: byte, b2: byte)
    ensures var w := Sextets(b0, b1, b2);
      && w[0] as int == b0 as int / 4 && w[1] as int == b0 as int % 4 * 16 + b1 as int / 16
      && w[2] as int == b1 as int % 16 * 4 + b2 as int / 64 && w[3] as int == b2 as int % 64
  {
  }

  /** The decoder's shifts and masks applied to the sextets of b0 b1 b2 give b0 b1 b2 back. */
  lemma QuartetRebuilds(b0: byte, b1: byte, b2: byte, a: byte, b: byte, c: byte, d: byte)
    requires a as int == b0 as int / 4 && b as int == b0 as int % 4 * 16 + b1 as int / 16
    requires c as int == b1 as int % 16 * 4 + b2 as int / 64 && d as int == b2 as int % 64
    ensures Quartet(a, b, c, d) == [b0, b1, b2]
  {
    RebuildFirst(b0, b1, a, b);
    RebuildSecond(b0, b1, b2, b, c);
    RebuildThird(b1, b2, c, d);
    QuartetOf(a, b, c, d, b0, b1, b2);
  }

  /** A group whose three combined bytes are x, y and z decodes to exactly [x, y, z]. */
  lemma QuartetOf(a: byte, b: byte, c: byte, d: byte, x: byte, y: byte, z: byte)
    requires Wrap(a as int * 4 + (b as int / 16) % 4) == x
    requires Wrap(b as int % 16 * 16 + (c as int / 4) % 16) == y
    requires Wrap(c as int % 4 * 64 + d as int) == z
    ensures Quartet(a, b, c, d) == [x, y, z]
  {
  }

  lemma RebuildFirst(b0: byte, b1: byte, a: byte, b: byte)
    requires a as int == b0 as int / 4 && b as int == b0 as int % 4 * 16 + b1 as int / 16
    ensures Wrap(a as int * 4 + (b as int / 16) % 4) == b0
  {
    assert (b as int / 16) % 4 == b0 as int % 4;
    WrapSmall(a as int * 4 + (b as int / 16) % 4);
  }

  lemma RebuildSecond(b0: byte, b1: byte, b2: byte, b: byte, c: byte)
    requires b as int == b0 as int % 4 * 16 + b1 as int / 16 && c as int == b1 as int % 16 * 4 + b2 as int / 64
    ensures Wrap(b as int % 16 * 16 + (c as int / 4) % 16) == b1
  {
    assert b as int % 16 == b1 as int / 16;
    assert (c as int / 4) % 16 == b1 as int % 16;
    WrapSmall(b as int % 16 * 16 + (c as int / 4) % 16);
  }

  lemma RebuildThird(b1: byte, b2: byte, c: byte, d: byte)
    requires c as int == b1 as int % 16 * 4 + b2 as int / 64 && d as int == b2 as int % 64
    ensures Wrap(c as int % 4 * 64 + d as int) == b2
  {
    assert c as int % 4 == b2 as int / 64;
    WrapSmall(c as int % 4 * 64 + d as int);
  }

  /** Looking up the characters of EncodeGroup gives back its sextets. */
  lemma EncodeGroupSextets(b0: byte, b1: byte, b2: byte, n: nat)
    requires n <= 4
    ensures var s, v := EncodeGroup(b0, b1, b2), Sextets(b0, b1, b2);
      forall k :: 0 <= k < n ==> s[k] != '=' && IsBase64(s[k]) && Sextet(s[k]) == v[k]
  {
    var v := Sextets(b0, b1, b2);
    forall k | 0 <= k < n {
      SextetOfTable(v[k] as int);
    }
  }

  /** The decoder inverts the encoder: decoding the encoding of any bytes gives them back. */
  lemma {:induction false} DecodeEncode(data: seq<byte>)
    ensures Decode(Encode(data)) == data
    decreases |data|
  {
    if |data| == 0 {
      PrefixLenUnique("", 0);
    } else if |data| <= 2 {
      DecodeEncodeLast(data);
    } else {
      DecodeEncodeFirst(data);
      DecodeEncode(data[3..]);
      assert data == data[..3] + data[3..];
    }
  }

  /** The first group of an encoding decodes to the first three bytes. */
  lemma DecodeEncodeFirst(data: seq<byte>)
    requires |data| >= 3
    ensures Decode(Encode(data)) == data[..3] + Decode(Encode(data[3..]))
  {
    var rest := Encode(data[3..]);
    assert Encode(data) == EncodeGroup(data[0], data[1], data[2]) + rest;
    DecodeGroupThen(data[0], data[1], data[2], rest);
    FirstThree(data);
  }

  lemma FirstThree(data: seq<byte>)
    requires |data| >= 3
    ensures data[..3] == [data[0], data[1], data[2]]
  {
  }

  /** A group of four encoding characters in front of r decodes to its bytes in front of r's. */
  lemma DecodeGroupThen(b0: byte, b1: byte, b2: byte, r: string)
    ensures Decode(EncodeGroup(b0, b1, b2) + r) == [b0, b1, b2] + Decode(r)
  {
    var g := EncodeGroup(b0, b1, b2);
    EncodeGroupSextets(b0, b1, b2, 4);
    DecodeCons(g, r);
    EncodeGroupDecodes(b0, b1, b2);
  }

  /** The four characters of a group decode to its three bytes. */
  lemma EncodeGroupDecodes(b0: byte, b1: byte, b2: byte)
    ensures QuartetAt(EncodeGroup(b0, b1, b2), 0) == [b0, b1, b2]
  {
    var g, w := EncodeGroup(b0, b1, b2), Sextets(b0, b1, b2);
    EncodeGroupSextets(b0, b1, b2, 4);
    assert Sextet(g[0]) == w[0] && Sextet(g[1]) == w[1] && Sextet(g[2]) == w[2] && Sextet(g[3]) == w[3];
    SextetsDecode(b0, b1, b2);
  }

  /** A last group of one or two bytes, with its '=' padding, decodes to those bytes. */
  lemma DecodeEncodeLast(data: seq<byte>)
    requires 1 <= |data| <= 2
    ensures Decode(Encode(data)) == data
  {
    if |data| == 1 {
      DecodeEncodeOne(data);
    } else {
      DecodeEncodeTwo(data);
    }
  }

  lemma DecodeEncodeOne(data: seq<byte>)
    requires |data| == 1
    ensures Decode(Encode(data)) == data
  {
    assert Encode(data) == EncodeGroup(data[0], 0, 0)[..2] + "==";
    DecodePadded(data[0], 0, 2);
    Spelled(data);
  }

  lemma DecodeEncodeTwo(data: seq<byte>)
    requires |data| == 2
    ensures Decode(Encode(data)) == data
  {
    assert Encode(data) == EncodeGroup(data[0], data[1], 0)[..3] + "=";
    DecodePadded(data[0], data[1], 3);
    Spelled(data);
  }

  lemma Spelled(data: seq<byte>)
    requires 1 <= |data| <= 2
    ensures |data| == 1 ==> data == [data[0]]
    ensures |data| == 2 ==> data == [data[0], data[1]]
  {
  }

  /**
   * The first n characters of the group of b0 b1 0, followed by '=' up to four
   * characters, decode to the first n - 1 of b0 b1.
   */
  lemma DecodePadded(b0: byte, b1: byte, n: nat)
    requires 2 <= n <= 3
    ensures n == 2 ==> Decode(EncodeGroup(b0, b1, 0)[..2] + "==") == [b0]
    ensures n == 3 ==> Decode(EncodeGroup(b0, b1, 0)[..3] + "=") == [b0, b1]
  {
    var g, v := EncodeGroup(b0, b1, 0), Sextets(b0, b1, 0);
    var s := g[..n] + (if n == 2 then "==" else "=");
    EncodeGroupSextets(b0, b1, 0, n);
    forall k | 0 <= k < n ensures s[k] == g[k] {}
    assert s[n] == '=';
    PrefixLenUnique(s, n);
    DecodeSplit(s, 0, n);
    PaddingNeverEmitted(s, 0, n, v);
    SextetsDecode(b0, b1, 0);
    PrefixOfThree(Quartet(v[0], v[1], v[2], v[3]), b0, b1, 0);
  }

  lemma PrefixOfThree(q: seq<byte>, x: byte, y: byte, z: byte)
    requires q == [x, y, z]
    ensures q[..1] == [x] && q[..2] == [x, y]
  {
  }
}
