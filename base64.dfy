/**
 * Session::base64Decode and Session::is_base64: a decoder for the standard alphabet of
 * section 4 of RFC 4648 that never reports an error. It decodes the longest prefix made of
 * alphabet characters and ignores everything from the first '=' or other character on.
 */
module Base64 {

  import opened Bytes

  /** The character that encodes the sextet v (the alphabet table of RFC 4648, section 4). */
  function TableChar(v: nat): char
    requires v < 64
  {
    if v < 26 then ('A' as int + v) as char
    else if v < 52 then ('a' as int + v - 26) as char
    else if v < 62 then ('0' as int + v - 52) as char
    else if v == 62 then '+'
    else '/'
  }

  /** The decoder's lookup table `base64_chars`: the character at index v encodes the sextet v. */
  function Alphabet(): string {
    seq(64, v requires 0 <= v < 64 => TableChar(v))
  }

  /** The table is the source's string literal, character for character. */
  lemma AlphabetSpelledOut()
    ensures Alphabet() == "ABCDEFGHIJKLM" + "NOPQRSTUVWXYZ" + "abcdefghijklm" + "nopqrstuvwxyz" + "0123456789+/"
  {
    assert Alphabet()[..13] == "ABCDEFGHIJKLM";
    assert Alphabet()[13..26] == "NOPQRSTUVWXYZ";
    assert Alphabet()[26..39] == "abcdefghijklm";
    assert Alphabet()[39..52] == "nopqrstuvwxyz";
    assert Alphabet()[52..] == "0123456789+/";
    assert Alphabet() == Alphabet()[..13] + Alphabet()[13..26] + Alphabet()[26..39] + Alphabet()[39..52] + Alphabet()[52..];
  }

  /** std::string::npos, what `find` returns on a miss (size_t is 64 bits wide). */
  const NPOS: nat := 0xFFFF_FFFF_FFFF_FFFF

  /** The character the decoder writes into the unused slots of a partial group. */
  const Pad: char := 0 as char

  /** isalnum in the "C" locale. */
  predicate IsAlnum(c: char) {
    ('A' <= c <= 'Z') || ('a' <= c <= 'z') || ('0' <= c <= '9')
  }

  /** Session::is_base64: the characters the decoding loop accepts. */
  predicate IsBase64(c: char) {
    IsAlnum(c) || c == '+' || c == '/'
  }

  /** std::string::find for a single character: the first index of c in s, or NPOS. */
  function Find(s: string, c: char): (r: nat)
    requires |s| < NPOS
    ensures r == NPOS <==> c !in s
    ensures r != NPOS ==> r < |s| && s[r] == c && c !in s[..r]
  {
    if |s| == 0 then NPOS
    else if s[0] == c then 0
    else
      var k := Find(s[1..], c);
      assert s == [s[0]] + s[1..];
      if k == NPOS then NPOS
      else
        assert s[..k + 1] == [s[0]] + s[1..][..k];
        k + 1
  }

  /** `find` returns the first position of the character. */
  lemma {:induction false} FindFirst(s: string, c: char, i: nat)
    requires |s| < NPOS && i < |s| && s[i] == c
    requires forall j :: 0 <= j < i ==> s[j] != c
    ensures Find(s, c) == i
  {
    if i > 0 {
      FindFirst(s[1..], c, i - 1);
    }
  }

  /**
   * The value the decoder holds for character c once it has looked c up: the value
   * RFC 4648 (section 4, Table 1) gives each alphabet character, and 0xFF, npos
   * narrowed to unsigned char, for any other character. FindIsSextet shows that this
   * is what `base64_chars.find(c)` stored into an unsigned char computes.
   */
  function Sextet(c: char): byte {
    if 'A' <= c <= 'Z' then (c as int - 'A' as int) as byte
    else if 'a' <= c <= 'z' then (c as int - 'a' as int + 26) as byte
    else if '0' <= c <= '9' then (c as int - '0' as int + 52) as byte
    else if c == '+' then 62
    else if c == '/' then 63
    else 0xFF
  }

  /**
   * The lookup computes Sextet: every character is_base64 accepts is found in the
   * table, at the index of the sextet it encodes, and every other character, the
   * padding '\0' included, misses and becomes 0xFF.
   */
  lemma FindIsSextet(c: char)
    ensures IsBase64(c) <==> Find(Alphabet(), c) < 64
    ensures IsBase64(c) ==> Alphabet()[Find(Alphabet(), c)] == c
    ensures Wrap(Find(Alphabet(), c)) == Sextet(c)
  {
    if IsBase64(c) {
      FindAccepted(c);
      WrapSmall(Sextet(c) as int);
    } else {
      FindRejected(c);
    }
  }

  /** The sextets of the accepted characters are exactly the values below 64. */
  lemma SextetRange(c: char)
    ensures IsBase64(c) <==> Sextet(c) < 64
  {
  }

  lemma FindAccepted(c: char)
    requires IsBase64(c)
    ensures Sextet(c) < 64 && Find(Alphabet(), c) == Sextet(c) as int
  {
    SextetRange(c);
    var table, v := Alphabet(), Sextet(c) as int;
    assert table[v] == TableChar(v) == c;
    forall j | 0 <= j < v ensures table[j] != c {
      assert table[j] == TableChar(j);
    }
    FindFirst(table, c, v);
  }

  /** A rejected character is not in the table, and npos narrows to 0xFF. */
  lemma FindRejected(c: char)
    requires !IsBase64(c)
    ensures Find(Alphabet(), c) == NPOS && Wrap(NPOS) == 0xFF && Sextet(c) == 0xFF
  {
    var table := Alphabet();
    forall j | 0 <= j < 64 ensures table[j] != c {
      assert table[j] == TableChar(j);
    }
    assert c !in table;
  }

  /** Each table entry is an accepted character that decodes back to its index. */
  lemma SextetOfTable(v: nat)
    requires v < 64
    ensures IsBase64(TableChar(v)) && TableChar(v) != '=' && Sextet(TableChar(v)) as int == v
  {
  }

  /**
   * The three bytes a group of four sextets yields, computed in int and stored into
   * unsigned char as the source does. On values below 256, `x << n` is x * 2^n,
   * `(x & 0x30) >> 4` is (x / 16) % 4, `x & 0xf` is x % 16, `(x & 0x3c) >> 2` is (x / 4) % 16
   * and `x & 0x3` is x % 4.
   */
  function Quartet(a: byte, b: byte, c: byte, d: byte): seq<byte> {
    [ Wrap(a as int * 4 + (b as int / 16) % 4),
      Wrap(b as int % 16 * 16 + (c as int / 4) % 16),
      Wrap(c as int % 4 * 64 + d as int) ]
  }

  /** The bytes of the group of four characters of s starting at index start. */
  function QuartetAt(s: string, start: nat): seq<byte>
    requires start + 4 <= |s|
  {
    Quartet(Sextet(s[start]), Sextet(s[start + 1]), Sextet(s[start + 2]), Sextet(s[start + 3]))
  }

  /** The bytes of the first g complete groups of s: three per group of four characters. */
  function DecodeGroups(s: string, g: nat): (r: seq<byte>)
    requires 4 * g <= |s|
    ensures |r| == 3 * g
  {
    if g == 0 then [] else DecodeGroups(s, g - 1) + QuartetAt(s, 4 * (g - 1))
  }

  /**
   * The value held in slot k of a last group of which only the i characters of s at
   * start were read: the decoder fills the other slots with Pad before the lookup.
   */
  function Slot(s: string, start: nat, i: nat, k: nat): byte
    requires start + i <= |s|
  {
    if k < i then Sextet(s[start + k]) else Sextet(Pad)
  }

  /**
   * The bytes of a trailing group of the i < 4 characters of s at start: the group
   * padded with Pad decodes to three bytes, of which the first i - 1 are kept.
   */
  function DecodeTail(s: string, start: nat, i: nat): (r: seq<byte>)
    requires i < 4 && start + i <= |s|
    ensures |r| == if i == 0 then 0 else i - 1
  {
    if i == 0 then []
    else Quartet(Slot(s, start, i, 0), Slot(s, start, i, 1), Slot(s, start, i, 2), Slot(s, start, i, 3))[..i - 1]
  }

  /** The length of the prefix of s that the decoding loop consumes. */
  function PrefixLen(s: string): (n: nat)
    ensures n <= |s|
  {
    if s == [] || s[0] == '=' || !IsBase64(s[0]) then 0 else 1 + PrefixLen(s[1..])
  }

  /** The loop consumes the longest prefix of accepted characters that holds no '='. */
  lemma {:induction false} PrefixLenIsLongest(s: string)
    ensures forall k :: 0 <= k < PrefixLen(s) ==> s[k] != '=' && IsBase64(s[k])
    ensures PrefixLen(s) < |s| ==> s[PrefixLen(s)] == '=' || !IsBase64(s[PrefixLen(s)])
  {
    if s != [] && s[0] != '=' && IsBase64(s[0]) {
      PrefixLenIsLongest(s[1..]);
    }
  }

  /** Any n with the two properties of PrefixLenIsLongest is PrefixLen(s). */
  lemma {:induction false} PrefixLenUnique(s: string, n: nat)
    requires n <= |s|
    requires forall k :: 0 <= k < n ==> s[k] != '=' && IsBase64(s[k])
    requires n < |s| ==> s[n] == '=' || !IsBase64(s[n])
    ensures PrefixLen(s) == n
  {
    if n > 0 {
      PrefixLenUnique(s[1..], n - 1);
    }
  }

  /** The consumed characters are all single bytes. */
  lemma PrefixNarrow(s: string, start: nat, n: nat)
    requires start + n <= PrefixLen(s)
    ensures forall k :: start <= k < start + n ==> s[k] as int < 256
  {
    PrefixLenIsLongest(s);
  }

  /** The loop may take one more character while it has not reached PrefixLen(s). */
  lemma {:induction false} PrefixLenStep(s: string, n: nat)
    requires n < PrefixLen(s)
    ensures n < |s| && s[n] != '=' && IsBase64(s[n])
  {
    PrefixLenIsLongest(s);
  }

  /** Taking an accepted character keeps the loop within PrefixLen(s). */
  lemma PrefixLenGrow(s: string, n: nat)
    requires n <= PrefixLen(s) && n < |s| && s[n] != '=' && IsBase64(s[n])
    ensures n < PrefixLen(s)
  {
    PrefixLenIsLongest(s);
  }

  /** The loop stops exactly at PrefixLen(s). */
  lemma PrefixLenStop(s: string, n: nat)
    requires n <= PrefixLen(s)
    requires n < |s| ==> s[n] == '=' || !IsBase64(s[n])
    ensures n == PrefixLen(s)
  {
    if n < PrefixLen(s) {
      PrefixLenStep(s, n);
    }
  }

  /** What base64Decode returns for s. */
  function Decode(s: string): seq<byte> {
    var n := PrefixLen(s);
    DecodeGroups(s, n / 4) + DecodeTail(s, n / 4 * 4, n % 4)
  }

  /**
   * Three bytes per complete group of the consumed prefix, and one byte fewer than the
   * characters of a trailing group: a single trailing character yields nothing.
   */
  lemma DecodeLength(s: string)
    ensures var n := PrefixLen(s); |Decode(s)| == n / 4 * 3 + (if n % 4 == 0 then 0 else n % 4 - 1)
  {
  }

  /**
   * The lookup loop of a group (Session.cpp, lines 146-147 and 164-165): each of the four bytes of
   * charArray4, the characters of s at start, is replaced by `base64_chars.find` of it,
   * narrowed to unsigned char.
   */
  method LookupGroup(charArray4: array<byte>, ghost s: string, ghost start: nat)
    requires charArray4.Length == 4 && start + 4 <= |s|
    requires forall k :: start <= k < start + 4 ==> s[k] as int < 256
    requires forall k :: 0 <= k < 4 ==> charArray4[k] == ByteOf(s[start + k])
    modifies charArray4
    ensures forall k :: 0 <= k < 4 ==> charArray4[k] == Sextet(s[start + k])
  {
    for m := 0 to 4
      invariant forall k :: 0 <= k < m ==> charArray4[k] == Sextet(s[start + k])
      invariant forall k :: m <= k < 4 ==> charArray4[k] == ByteOf(s[start + k])
    {
      CharOfByteOf(s[start + m]);
      FindIsSextet(s[start + m]);
      charArray4[m] := Wrap(Find(Alphabet(), CharOf(charArray4[m])));
    }
  }

  /** The three shifts and masks of a group (Session.cpp, lines 149-151 and 167-169). */
  method CombineGroup(charArray4: array<byte>, charArray3: array<byte>)
    requires charArray4.Length == 4 && charArray3.Length == 3 && charArray4 != charArray3
    modifies charArray3
    ensures charArray3[..] == Quartet(charArray4[0], charArray4[1], charArray4[2], charArray4[3])
  {
    charArray3[0] := Wrap(charArray4[0] as int * 4 + (charArray4[1] as int / 16) % 4);
    charArray3[1] := Wrap(charArray4[1] as int % 16 * 16 + (charArray4[2] as int / 4) % 16);
    charArray3[2] := Wrap(charArray4[2] as int % 4 * 64 + charArray4[3] as int);
  }

  /**
   * Decodes the group of four characters of s at index start, whose bytes charArray4
   * holds, into the group's three bytes in charArray3.
   */
  method DecodeGroup(charArray4: array<byte>, charArray3: array<byte>, ghost s: string, ghost start: nat)
    requires charArray4.Length == 4 && charArray3.Length == 3 && charArray4 != charArray3
    requires start + 4 <= |s|
    requires forall k :: start <= k < start + 4 ==> s[k] as int < 256
    requires forall k :: 0 <= k < 4 ==> charArray4[k] == ByteOf(s[start + k])
    modifies charArray4, charArray3
    ensures charArray3[..] == QuartetAt(s, start)
  {
    LookupGroup(charArray4, s, start);
    CombineGroup(charArray4, charArray3);
    assert charArray4[0] == Sextet(s[start]) && charArray4[1] == Sextet(s[start + 1]);
    assert charArray4[2] == Sextet(s[start + 2]) && charArray4[3] == Sextet(s[start + 3]);
  }

  /** Appends the first count bytes of charArray3 to ret. */
  method AppendBytes(charArray3: array<byte>, ret: seq<byte>, count: nat) returns (out: seq<byte>)
    requires count <= charArray3.Length
    ensures out == ret + charArray3[..count]
  {
    out := ret;
    for j := 0 to count
      invariant out == ret + charArray3[..j]
    {
      out := out + [charArray3[j]];
    }
  }

  /**
   * A complete group of base64Decode (Session.cpp, lines 144-156): the group's three bytes follow
   * those of the groups before it.
   */
  method DecodeFullGroup(charArray4: array<byte>, charArray3: array<byte>, ret: seq<byte>, ghost s: string, ghost g: nat)
    returns (out: seq<byte>)
    requires charArray4.Length == 4 && charArray3.Length == 3 && charArray4 != charArray3
    requires 4 * g + 4 <= PrefixLen(s) && ret == DecodeGroups(s, g)
    requires forall k :: 0 <= k < 4 ==> charArray4[k] == ByteOf(s[4 * g + k])
    modifies charArray4, charArray3
    ensures out == DecodeGroups(s, g + 1)
  {
    PrefixNarrow(s, 4 * g, 4);
    DecodeGroup(charArray4, charArray3, s, 4 * g);
    out := AppendBytes(charArray3, ret, 3);
  }

  /**
   * The end of base64Decode (Session.cpp, lines 159-173): when i characters of a last, incomplete
   * group were read, they are followed by zeros, the group is decoded as a complete one,
   * and its first i - 1 bytes are appended.
   */
  method DecodeLastGroup(charArray4: array<byte>, charArray3: array<byte>, ret: seq<byte>, i: nat, ghost s: string, ghost start: nat)
    returns (out: seq<byte>)
    requires charArray4.Length == 4 && charArray3.Length == 3 && charArray4 != charArray3
    requires i < 4 && start + i <= PrefixLen(s)
    requires forall k :: 0 <= k < i ==> charArray4[k] == ByteOf(s[start + k])
    modifies charArray4, charArray3
    ensures out == ret + DecodeTail(s, start, i)
  {
    out := ret;
    if i != 0 {
      for j := i to 4
        invariant forall k :: 0 <= k < i ==> charArray4[k] == ByteOf(s[start + k])
        invariant forall k :: i <= k < j ==> charArray4[k] == 0
      {
        charArray4[j] := 0;
      }
      ghost var t := s[start..start + i] + seq(4 - i, _ => Pad);
      PrefixNarrow(s, start, i);
      forall k | 0 <= k < 4
        ensures t[k] as int < 256 && charArray4[k] == ByteOf(t[k])
      {
        if k < i {
          assert t[k] == s[start + k];
        }
      }
      DecodeGroup(charArray4, charArray3, t, 0);
      out := AppendBytes(charArray3, ret, i - 1);
    }
  }

  /** `char_array_4[i++] = encoded_string[in_]` (Session.cpp, line 142). */
  method StoreChar(charArray4: array<byte>, encoded: string, i: nat, in_: nat, ghost groups: nat)
    requires charArray4.Length == 4 && i < 4 && in_ == 4 * groups + i && in_ < |encoded|
    requires forall k :: 0 <= k < i ==> charArray4[k] == ByteOf(encoded[4 * groups + k])
    modifies charArray4
    ensures forall k :: 0 <= k < i + 1 ==> charArray4[k] == ByteOf(encoded[4 * groups + k])
  {
    charArray4[i] := ByteOf(encoded[in_]);
  }

  /**
   * One iteration of the decoding loop of base64Decode (Session.cpp, lines 141-157): stores the
   * character at in_ into charArray4 and, once four are stored, decodes the group and
   * starts the next one.
   */
  method TakeChar(charArray4: array<byte>, charArray3: array<byte>, encoded: string, i: nat, in_: nat, ret: seq<byte>, ghost groups: nat)
    returns (i': nat, in': nat, ret': seq<byte>, ghost groups': nat)
    requires charArray4.Length == 4 && charArray3.Length == 3 && charArray4 != charArray3
    requires i < 4 && in_ == 4 * groups + i && in_ < PrefixLen(encoded)
    requires forall k :: 0 <= k < i ==> charArray4[k] == ByteOf(encoded[4 * groups + k])
    requires ret == DecodeGroups(encoded, groups)
    modifies charArray4, charArray3
    ensures in' == in_ + 1 && i' < 4 && in' == 4 * groups' + i'
    ensures forall k :: 0 <= k < i' ==> charArray4[k] == ByteOf(encoded[4 * groups' + k])
    ensures ret' == DecodeGroups(encoded, groups')
  {
    StoreChar(charArray4, encoded, i, in_, groups);
    i', in', ret', groups' := i + 1, in_ + 1, ret, groups;
    if i' == 4 {
      ret' := DecodeFullGroup(charArray4, charArray3, ret, encoded, groups);
      i', groups' := 0, groups + 1;
    }
  }

  /**
   * Session::base64Decode. The source's loop condition `in_len-- && ...` tests and then
   * decrements the count of unread characters; here the test is in the guard and the
   * decrement at the head of the body.
   */
  method Base64Decode(encoded: string) returns (ret: seq<byte>)
    ensures ret == Decode(encoded)
  {
    var charArray4 := new byte[4];
    var charArray3 := new byte[3];
    var inLen := |encoded|;
    var i, in_ := 0, 0;
    ghost var groups := 0;
    ret := [];
    while inLen != 0 && encoded[in_] != '=' && IsBase64(encoded[in_])
      invariant 0 <= in_ <= |encoded| && inLen == |encoded| - in_
      invariant 0 <= i < 4 && in_ == 4 * groups + i
      invariant in_ <= PrefixLen(encoded)
      invariant forall k :: 0 <= k < i ==> charArray4[k] == ByteOf(encoded[4 * groups + k])
      invariant ret == DecodeGroups(encoded, groups)
    {
      PrefixLenGrow(encoded, in_);
      inLen := inLen - 1;
      i, in_, ret, groups := TakeChar(charArray4, charArray3, encoded, i, in_, ret, groups);
    }
    PrefixLenStop(encoded, in_);
    ret := DecodeLastGroup(charArray4, charArray3, ret, i, encoded, 4 * groups);
    DecodeSplit(encoded, groups, i);
  }

  /** Decode splits the consumed prefix into its complete groups and a trailing group. */
  lemma DecodeSplit(s: string, groups: nat, i: nat)
    requires i < 4 && PrefixLen(s) == 4 * groups + i
    ensures Decode(s) == DecodeGroups(s, groups) + DecodeTail(s, 4 * groups, i)
  {
    var n := PrefixLen(s);
    assert n / 4 == groups;
  }

  /**
   * The three bytes of a group are the 24-bit big-endian number whose four 6-bit digits
   * are the group's sextets: on accepted characters the masks and the narrowing to
   * unsigned char lose nothing.
   */
  lemma QuartetIsBigEndian(a: byte, b: byte, c: byte, d: byte)
    requires a < 64 && b < 64 && c < 64 && d < 64
    ensures var q := Quartet(a, b, c, d);
      q[0] as int * 65536 + q[1] as int * 256 + q[2] as int
      == a as int * 262144 + b as int * 4096 + c as int * 64 + d as int
  {
    var bHi, bLo, cHi, cLo := b as int / 16, b as int % 16, c as int / 4, c as int % 4;
    assert b as int == 16 * bHi + bLo && bHi % 4 == bHi;
    assert c as int == 4 * cHi + cLo && cHi % 16 == cHi;
    var q := Quartet(a, b, c, d);
    WrapSmall(a as int * 4 + bHi);
    WrapSmall(bLo * 16 + cHi);
    WrapSmall(cLo * 64 + d as int);
    assert q[0] as int == a as int * 4 + bHi;
    assert q[1] as int == bLo * 16 + cHi;
    assert q[2] as int == cLo * 64 + d as int;
  }

  lemma WrapSmall(n: int)
    requires 0 <= n < 256
    ensures Wrap(n) as int == n
  {
  }

  /** Complete group k of the first g groups is decoded from characters 4k to 4k + 3. */
  lemma {:induction false} DecodeGroupsAt(s: string, g: nat, k: nat)
    requires 4 * g <= |s| && k < g
    ensures 3 * k + 3 <= |DecodeGroups(s, g)|
    ensures DecodeGroups(s, g)[3 * k..3 * k + 3] == QuartetAt(s, 4 * k)
  {
    var prev := DecodeGroups(s, g - 1);
    assert DecodeGroups(s, g) == prev + QuartetAt(s, 4 * (g - 1));
    if k < g - 1 {
      DecodeGroupsAt(s, g - 1, k);
      assert DecodeGroups(s, g)[3 * k..3 * k + 3] == prev[3 * k..3 * k + 3];
    }
  }

  /**
   * The quartet formula: byte 3k to 3k + 2 of the result are the bytes of the k-th
   * complete group of the consumed prefix.
   */
  lemma DecodeGroupAt(s: string, k: nat)
    requires 4 * k + 4 <= PrefixLen(s)
    ensures 3 * k + 3 <= |Decode(s)|
    ensures Decode(s)[3 * k..3 * k + 3] == QuartetAt(s, 4 * k)
  {
    var n := PrefixLen(s);
    var groups := DecodeGroups(s, n / 4);
    DecodeGroupsAt(s, n / 4, k);
    assert Decode(s)[3 * k..3 * k + 3] == groups[3 * k..3 * k + 3];
  }

  /**
   * No byte of a trailing group depends on the slots that were padded: decoding the
   * group with any values at all in those slots keeps the same i - 1 bytes. In particular
   * the 0xFF that the padding character turns into never reaches the result.
   */
  lemma PaddingNeverEmitted(s: string, start: nat, i: nat, v: seq<byte>)
    requires i < 4 && start + i <= |s| && |v| == 4
    requires forall k :: 0 <= k < i ==> v[k] == Sextet(s[start + k])
    ensures DecodeTail(s, start, i) == if i == 0 then [] else Quartet(v[0], v[1], v[2], v[3])[..i - 1]
  {
  }

  /** A group decodes the same wherever its four characters stand. */
  lemma QuartetAtSame(s: string, i: nat, t: string, j: nat)
    requires i + 4 <= |s| && j + 4 <= |t|
    requires s[i] == t[j] && s[i + 1] == t[j + 1] && s[i + 2] == t[j + 2] && s[i + 3] == t[j + 3]
    ensures QuartetAt(s, i) == QuartetAt(t, j)
  {
  }

  /** A group of q + r decodes as the group of q or of r that it lies in. */
  lemma QuartetAtAppend(q: string, r: string, i: nat)
    requires i + 4 <= |q| + |r| && (i + 4 <= |q| || |q| <= i)
    ensures i + 4 <= |q| ==> QuartetAt(q + r, i) == QuartetAt(q, i)
    ensures |q| <= i ==> QuartetAt(q + r, i) == QuartetAt(r, i - |q|)
  {
    if i + 4 <= |q| {
      QuartetAtSame(q + r, i, q, i);
    } else {
      QuartetAtSame(q + r, i, r, i - |q|);
    }
  }

  /** The first g complete groups depend on the first 4g characters only. */
  lemma {:induction false} DecodeGroupsLocal(s: string, t: string, g: nat)
    requires 4 * g <= |s| && 4 * g <= |t|
    requires forall k :: 0 <= k < 4 * g ==> s[k] == t[k]
    ensures DecodeGroups(s, g) == DecodeGroups(t, g)
  {
    if g > 0 {
      DecodeGroupsLocal(s, t, g - 1);
      QuartetAtSame(s, 4 * (g - 1), t, 4 * (g - 1));
    }
  }

  /**
   * The decoder reads only the consumed prefix: two strings that agree on it, and whose
   * consumed prefixes have the same length, decode to the same bytes, whatever follows.
   */
  lemma DecodeReadsOnlyPrefix(s: string, t: string)
    requires PrefixLen(s) == PrefixLen(t)
    requires forall k :: 0 <= k < PrefixLen(s) ==> s[k] == t[k]
    ensures Decode(s) == Decode(t)
  {
    var n := PrefixLen(s);
    DecodeGroupsLocal(s, t, n / 4);
    assert DecodeTail(s, n / 4 * 4, n % 4) == DecodeTail(t, n / 4 * 4, n % 4);
  }

  /**
   * Whatever follows a '=' or a character outside the alphabet is ignored: it is neither
   * decoded nor reported.
   */
  lemma DecodeIgnoresRest(p: string, rest: string)
    requires forall k :: 0 <= k < |p| ==> p[k] != '=' && IsBase64(p[k])
    requires rest == [] || rest[0] == '=' || !IsBase64(rest[0])
    ensures Decode(p + rest) == Decode(p)
  {
    PrefixLenUnique(p, |p|);
    PrefixLenUnique(p + rest, |p|);
    DecodeReadsOnlyPrefix(p + rest, p);
  }

  /** A prefix of accepted characters is consumed whole, and the rest as on its own. */
  lemma {:induction false} PrefixLenAppend(p: string, r: string)
    requires forall k :: 0 <= k < |p| ==> p[k] != '=' && IsBase64(p[k])
    ensures PrefixLen(p + r) == |p| + PrefixLen(r)
  {
    if p == [] {
      assert p + r == r;
    } else {
      var s := p + r;
      assert s[0] == p[0] && s[1..] == p[1..] + r;
      PrefixLenAppend(p[1..], r);
      assert PrefixLen(s) == 1 + PrefixLen(s[1..]);
    }
  }

  /** Prepending a group of four characters prepends its complete group. */
  lemma {:induction false} DecodeGroupsCons(q: string, r: string, g: nat)
    requires |q| == 4 && 4 * g <= |r|
    ensures DecodeGroups(q + r, g + 1) == QuartetAt(q, 0) + DecodeGroups(r, g)
  {
    QuartetAtAppend(q, r, 0);
    if g > 0 {
      DecodeGroupsCons(q, r, g - 1);
      QuartetAtAppend(q, r, 4 * g);
      ghost var first, mid, last := QuartetAt(q, 0), DecodeGroups(r, g - 1), QuartetAt(r, 4 * (g - 1));
      assert DecodeGroups(q + r, g + 1) == (first + mid) + last;
      assert DecodeGroups(r, g) == mid + last;
      Associative(first, mid, last);
    }
  }

  lemma Associative(a: seq<byte>, b: seq<byte>, c: seq<byte>)
    ensures (a + b) + c == a + (b + c)
  {
  }

  /** Decoding a string that starts with four accepted characters decodes them first. */
  lemma DecodeCons(q: string, r: string)
    requires |q| == 4 && forall k :: 0 <= k < 4 ==> q[k] != '=' && IsBase64(q[k])
    ensures Decode(q + r) == QuartetAt(q, 0) + Decode(r)
  {
    var m := PrefixLen(r);
    var g, i := m / 4, m % 4;
    PrefixLenAppend(q, r);
    DecodeSplit(r, g, i);
    DecodeSplit(q + r, g + 1, i);
    DecodeConsParts(q, r, g, i);
  }

  lemma DecodeConsParts(q: string, r: string, g: nat, i: nat)
    requires |q| == 4 && i < 4 && 4 * g + i <= |r|
    ensures DecodeGroups(q + r, g + 1) + DecodeTail(q + r, 4 * (g + 1), i)
         == QuartetAt(q, 0) + (DecodeGroups(r, g) + DecodeTail(r, 4 * g, i))
  {
    DecodeGroupsCons(q, r, g);
    DecodeTailShift(q, r, 4 * g, i);
    assert 4 * (g + 1) == |q| + 4 * g;
  }

  /** A trailing group after a prefix q decodes as it does without q. */
  lemma DecodeTailShift(q: string, r: string, start: nat, i: nat)
    requires i < 4 && start + i <= |r|
    ensures DecodeTail(q + r, |q| + start, i) == DecodeTail(r, start, i)
  {
    forall k | 0 <= k < 4
      ensures Slot(q + r, |q| + start, i, k) == Slot(r, start, i, k)
    {
      if k < i {
        assert (q + r)[|q| + start + k] == r[start + k];
      }
    }
  }
}
