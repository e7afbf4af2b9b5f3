/**
 Dragonfly's unpadded Base64 helpers (`Dragonfly::Serializer.b64_encode` and
 `b64_decode`).

 `b64_encode` takes Ruby's `Base64.encode64` (the alphabet and padding of
 section 4 of RFC 4648, broken into lines of 60 characters each ended by a
 newline) and deletes every newline and `=`. `b64_decode` appends
 `length % 4` `=` characters and hands the result to `Base64.decode64`,
 modelled here as a decoder that ignores however many `=` trail the text.
 */
module Serializer {
  import opened Options

  type Byte = x: int | 0 <= x < 256

  /** A six-bit group: the index of one Base64 character. */
  type Sextet = x: int | 0 <= x < 64

  const PadChar: char := '='

  /** The characters `b64_encode` deletes: `tr("\n=", '')`. */
  const Stripped: set<char> := {'\n', PadChar}

  /** Ruby's `encode64` ends a line after this many characters. */
  const LineLength: nat := 60

  /** The 64 characters of the alphabet of section 4 of RFC 4648. */
  predicate IsBase64Char(c: char)
  {
    ('A' <= c <= 'Z') || ('a' <= c <= 'z') || ('0' <= c <= '9') || c == '+' || c == '/'
  }

  predicate AllBase64(s: string)
  {
    forall i :: 0 <= i < |s| ==> IsBase64Char(s[i])
  }

  /** Table 1 of RFC 4648: value to character. */
  function CharOf(v: Sextet): (c: char)
    ensures IsBase64Char(c)
  {
    if v < 26 then ('A' as int + v) as char
    else if v < 52 then ('a' as int + (v - 26)) as char
    else if v < 62 then ('0' as int + (v - 52)) as char
    else if v == 62 then '+'
    else '/'
  }

  /** Table 1 of RFC 4648 read the other way: character to value. */
  function ValueOf(c: char): (v: Sextet)
    requires IsBase64Char(c)
    ensures CharOf(v) == c
  {
    if 'A' <= c <= 'Z' then c as int - 'A' as int
    else if 'a' <= c <= 'z' then c as int - 'a' as int + 26
    else if '0' <= c <= '9' then c as int - '0' as int + 52
    else if c == '+' then 62
    else 63
  }

  lemma ValueOfCharOf(v: Sextet)
    ensures ValueOf(CharOf(v)) == v
  {
  }

  // ---------------------------------------------------------------------------
  // Encoding
  // ---------------------------------------------------------------------------

  /** Three bytes, as 24 bits, become four characters of six bits each. */
  function EncodeGroup(a: Byte, b: Byte, c: Byte): (g: string)
    ensures |g| == 4 && AllBase64(g)
  {
    [CharOf(a / 4), CharOf(a % 4 * 16 + b / 16), CharOf(b % 16 * 4 + c / 64), CharOf(c % 64)]
  }

  /** One or two bytes left over become two or three characters, the
      missing low bits taken as zero. */
  function EncodeTail(bytes: seq<Byte>): (t: string)
    requires 1 <= |bytes| <= 2
    ensures |t| == |bytes| + 1 && AllBase64(t)
  {
    if |bytes| == 1 then [CharOf(bytes[0] / 4), CharOf(bytes[0] % 4 * 16)]
    else [CharOf(bytes[0] / 4), CharOf(bytes[0] % 4 * 16 + bytes[1] / 16), CharOf(bytes[1] % 16 * 4)]
  }

  /** The characters of section 4 of RFC 4648 without the padding. */
  function EncodeUnpadded(bytes: seq<Byte>): (s: string)
    ensures AllBase64(s)
    ensures |s| % 4 != 1
    ensures |s| == (4 * |bytes| + 2) / 3
    decreases |bytes|
  {
    if |bytes| == 0 then []
    else if |bytes| < 3 then EncodeTail(bytes)
    else EncodeGroup(bytes[0], bytes[1], bytes[2]) + EncodeUnpadded(bytes[3..])
  }

  /** `k` pad characters. */
  function Pads(k: nat): (p: string)
    ensures |p| == k
    ensures forall i :: 0 <= i < k ==> p[i] == PadChar
  {
    seq(k, _ => PadChar)
  }

  /** How many `=` the encoding of `n` bytes ends with: two after one
      leftover byte, one after two, none after a whole group. */
  function PadCount(n: nat): (k: nat)
    ensures k < 3
  {
    (3 - n % 3) % 3
  }

  /** The unpadded characters and the padding fill whole quanta. */
  lemma PaddedLength(n: nat)
    ensures (4 * n + 2) / 3 + PadCount(n) == 4 * ((n + 2) / 3)
    ensures 4 * ((n + 2) / 3) % 4 == 0
  {
    var q, r := n / 3, n % 3;
    assert n == 3 * q + r;
    assert 4 * n + 2 == 3 * (4 * q + r) + (r + 2);
  }

  /** The encoding of section 4 of RFC 4648: the characters, then `==` after
      one leftover byte or `=` after two, making whole four-character quanta. */
  function Encode(bytes: seq<Byte>): (s: string)
    ensures |s| == 4 * ((|bytes| + 2) / 3)
    ensures |s| % 4 == 0
    ensures s[..|EncodeUnpadded(bytes)|] == EncodeUnpadded(bytes)
    ensures forall i :: |EncodeUnpadded(bytes)| <= i < |s| ==> s[i] == PadChar
  {
    var u := EncodeUnpadded(bytes);
    var p := Pads(PadCount(|bytes|));
    PaddedLength(|bytes|);
    u + p
  }

  /** Ruby's `encode64` layout: the text cut into lines of 60 characters,
      each ended by a newline (the last one may be shorter). */
  function Wrap(s: string): (w: string)
    ensures |s| == 0 ==> w == []
    ensures |s| > 0 ==> |w| > 0 && w[|w| - 1] == '\n'
    decreases |s|
  {
    if |s| == 0 then []
    else if |s| <= LineLength then s + "\n"
    else s[..LineLength] + "\n" + Wrap(s[LineLength..])
  }

  /** `Wrap` adds one newline per line of at most 60 characters. */
  lemma {:induction false} WrapLength(s: string)
    ensures |Wrap(s)| == |s| + (|s| + LineLength - 1) / LineLength
    decreases |s|
  {
    if |s| > LineLength {
      WrapLength(s[LineLength..]);
    }
  }

  /** `Base64.encode64(string)`: the padded encoding broken into lines;
      without its newlines it is the padded encoding. */
  function Encode64(bytes: seq<Byte>): (w: string)
    ensures Delete(w, {'\n'}) == Encode(bytes)
  {
    var e := Encode(bytes);
    var u := EncodeUnpadded(bytes);
    assert forall i :: 0 <= i < |e| ==> e[i] != '\n' by {
      forall i | 0 <= i < |e|
        ensures e[i] != '\n'
      {
        if i < |u| {
          assert e[i] == e[..|u|][i] == u[i];
        }
      }
    }
    DeleteNothing(e, {'\n'});
    DeleteUnwraps(e, {'\n'});
    Wrap(e)
  }

  /** Ruby's `s.tr(chars, '')`: `s` with every character in `chars` deleted. */
  function Delete(s: string, chars: set<char>): (r: string)
    ensures forall i :: 0 <= i < |r| ==> r[i] !in chars
    ensures |r| <= |s|
    decreases |s|
  {
    if |s| == 0 then []
    else (if s[0] in chars then [] else [s[0]]) + Delete(s[1..], chars)
  }

  /** Every character not deleted is kept, as often as it occurs. */
  lemma {:induction false} DeleteKeeps(s: string, chars: set<char>, c: char)
    requires c !in chars
    ensures multiset(Delete(s, chars))[c] == multiset(s)[c]
    decreases |s|
  {
    if |s| > 0 {
      assert s == [s[0]] + s[1..];
      DeleteKeeps(s[1..], chars, c);
    }
  }

  lemma {:induction false} DeleteAppend(a: string, b: string, chars: set<char>)
    ensures Delete(a + b, chars) == Delete(a, chars) + Delete(b, chars)
    decreases |a|
  {
    if |a| > 0 {
      assert (a + b)[1..] == a[1..] + b;
      DeleteAppend(a[1..], b, chars);
    } else {
      assert a + b == b;
    }
  }

  lemma {:induction false} DeleteNothing(s: string, chars: set<char>)
    requires forall i :: 0 <= i < |s| ==> s[i] !in chars
    ensures Delete(s, chars) == s
    decreases |s|
  {
    if |s| > 0 {
      DeleteNothing(s[1..], chars);
    }
  }

  lemma {:induction false} DeleteEverything(s: string, chars: set<char>)
    requires forall i :: 0 <= i < |s| ==> s[i] in chars
    ensures Delete(s, chars) == []
    decreases |s|
  {
    if |s| > 0 {
      DeleteEverything(s[1..], chars);
    }
  }

  /** Deleting newlines undoes `Wrap`. */
  lemma {:induction false} DeleteUnwraps(s: string, chars: set<char>)
    requires '\n' in chars
    ensures Delete(Wrap(s), chars) == Delete(s, chars)
    decreases |s|
  {
    if 0 < |s| <= LineLength {
      DeleteAppend(s, "\n", chars);
      DeleteEverything("\n", chars);
    } else if |s| > LineLength {
      assert Wrap(s) == s[..LineLength] + ("\n" + Wrap(s[LineLength..]));
      DeleteAppend(s[..LineLength], "\n" + Wrap(s[LineLength..]), chars);
      DeleteAppend("\n", Wrap(s[LineLength..]), chars);
      DeleteEverything("\n", chars);
      DeleteUnwraps(s[LineLength..], chars);
      assert s == s[..LineLength] + s[LineLength..];
      DeleteAppend(s[..LineLength], s[LineLength..], chars);
    }
  }

  /** Deleting newlines and `=` from Ruby's `encode64` output leaves the
      unpadded characters. */
  lemma StripEncode64(bytes: seq<Byte>)
    ensures Delete(Encode64(bytes), Stripped) == EncodeUnpadded(bytes)
  {
    var chars := Stripped;
    var u := EncodeUnpadded(bytes);
    var padded := Encode(bytes);
    var p := Pads(PadCount(|bytes|));
    assert padded == u + p;
    DeleteUnwraps(padded, chars);
    DeleteAppend(u, p, chars);
    DeleteNothing(u, chars);
    DeleteEverything(p, chars);
  }

  /** `b64_encode(string)`: `Base64.encode64(string).tr("\n=", '')`. */
  function B64Encode(bytes: seq<Byte>): (s: string)
    ensures s == EncodeUnpadded(bytes)
    ensures forall i :: 0 <= i < |s| ==> s[i] != PadChar && s[i] != '\n'
    ensures AllBase64(s)
    ensures |s| == (4 * |bytes| + 2) / 3
    ensures |s| % 4 != 1
  {
    StripEncode64(bytes);
    Delete(Encode64(bytes), Stripped)
  }

  // ---------------------------------------------------------------------------
  // Decoding
  // ---------------------------------------------------------------------------

  /** The byte made of the six bits of `x` and the high two bits of `y`. */
  function FirstByte(x: Sextet, y: Sextet): Byte
  {
    x * 4 + y / 16
  }

  /** The byte made of the low four bits of `y` and the high four bits of `z`. */
  function SecondByte(y: Sextet, z: Sextet): Byte
  {
    y % 16 * 16 + z / 4
  }

  /** The byte made of the low two bits of `z` and the six bits of `w`. */
  function ThirdByte(z: Sextet, w: Sextet): Byte
  {
    z % 4 * 64 + w
  }

  /** Four characters become three bytes. */
  function DecodeGroup(g: string): (bytes: seq<Byte>)
    requires |g| == 4 && AllBase64(g)
    ensures |bytes| == 3
  {
    var x, y, z, w := ValueOf(g[0]), ValueOf(g[1]), ValueOf(g[2]), ValueOf(g[3]);
    [FirstByte(x, y), SecondByte(y, z), ThirdByte(z, w)]
  }

  /** A final two or three characters become one or two bytes; the low bits
      of the last character that make no whole byte are dropped. */
  function DecodeTail(t: string): (bytes: seq<Byte>)
    requires 2 <= |t| <= 3 && AllBase64(t)
    ensures |bytes| == |t| - 1
  {
    var x, y := ValueOf(t[0]), ValueOf(t[1]);
    if |t| == 2 then [FirstByte(x, y)]
    else [FirstByte(x, y), SecondByte(y, ValueOf(t[2]))]
  }

  /** Decodes alphabet characters that carry no padding. */
  function DecodeChars(s: string): (bytes: seq<Byte>)
    requires AllBase64(s) && |s| % 4 != 1
    ensures |bytes| == |s| * 3 / 4
    decreases |s|
  {
    if |s| == 0 then []
    else if |s| < 4 then DecodeTail(s)
    else DecodeGroup(s[..4]) + DecodeChars(s[4..])
  }

  /** Decoding text that starts with a whole group decodes the group, then
      the rest. */
  lemma DecodeLeadingGroup(g: string, t: string)
    requires |g| == 4 && AllBase64(g)
    requires AllBase64(t) && |t| % 4 != 1
    ensures AllBase64(g + t) && |g + t| % 4 != 1
    ensures DecodeChars(g + t) == DecodeGroup(g) + DecodeChars(t)
  {
    assert (g + t)[..4] == g && (g + t)[4..] == t;
  }

  /** Decodes unpadded text. A character outside the alphabet, or a lone
      final character (which holds no whole byte), makes it undecodable. */
  function DecodeUnpadded(s: string): (r: Option<seq<Byte>>)
  {
    if AllBase64(s) && |s| % 4 != 1 then Some(DecodeChars(s)) else None
  }

  /** `s` with all its trailing `=` removed. */
  function DropTrailingPads(s: string): (r: string)
    ensures r <= s
    ensures |r| == 0 || r[|r| - 1] != PadChar
    ensures forall i :: |r| <= i < |s| ==> s[i] == PadChar
    decreases |s|
  {
    if |s| > 0 && s[|s| - 1] == PadChar then DropTrailingPads(s[..|s| - 1]) else s
  }

  /** `Base64.decode64(string)`, lenient about padding: any number of
      trailing `=` (none, the right number, or too many) is accepted, and
      every three bytes come from four characters. */
  function Decode64(s: string): (r: Option<seq<Byte>>)
    ensures r.Some? <==> AllBase64(DropTrailingPads(s)) && |DropTrailingPads(s)| % 4 != 1
    ensures r.Some? ==> |r.value| == |DropTrailingPads(s)| * 3 / 4
  {
    DecodeUnpadded(DropTrailingPads(s))
  }

  /** `string + '=' * (string.length % 4)`. The padding makes whole quanta
      only when the length is 0 or 2 modulo 4; at 3 it adds three `=` where
      one would do, so decoding leans on the decoder ignoring surplus
      padding. */
  function Repad(s: string): (r: string)
    ensures |r| == |s| + |s| % 4
    ensures r[..|s|] == s
    ensures forall i :: |s| <= i < |r| ==> r[i] == PadChar
    ensures |r| % 4 == 0 <==> |s| % 4 == 0 || |s| % 4 == 2
  {
    s + Pads(|s| % 4)
  }

  /** Padding added at the end is removed again with the text's own. */
  lemma {:induction false} DropPadsIgnoresPadding(u: string, k: nat)
    ensures DropTrailingPads(u + Pads(k)) == DropTrailingPads(u)
    decreases k
  {
    if k > 0 {
      assert (u + Pads(k))[..|u| + k - 1] == u + Pads(k - 1);
      DropPadsIgnoresPadding(u, k - 1);
    } else {
      assert u + Pads(0) == u;
    }
  }

  /** `b64_decode(string)`. It accepts exactly the texts that, without their
      trailing `=`, are alphabet characters with no lone final character. */
  function B64Decode(s: string): (r: Option<seq<Byte>>)
    ensures r.Some? <==> AllBase64(DropTrailingPads(s)) && |DropTrailingPads(s)| % 4 != 1
    ensures r.Some? ==> r.value == DecodeChars(DropTrailingPads(s))
  {
    DropPadsIgnoresPadding(s, |s| % 4);
    Decode64(Repad(s))
  }

  // ---------------------------------------------------------------------------
  // Properties
  // ---------------------------------------------------------------------------

  /** The arithmetic behind decoding: the sextets cut from three bytes put
      back together give the bytes. */
  lemma BytesRebuilt(a: Byte, b: Byte, c: Byte)
    ensures FirstByte(a / 4, a % 4 * 16 + b / 16) == a
    ensures SecondByte(a % 4 * 16 + b / 16, b % 16 * 4 + c / 64) == b
    ensures ThirdByte(b % 16 * 4 + c / 64, c % 64) == c
  {
    assert (a % 4 * 16 + b / 16) / 16 == a % 4 && (a % 4 * 16 + b / 16) % 16 == b / 16;
    assert (b % 16 * 4 + c / 64) / 4 == b % 16 && (b % 16 * 4 + c / 64) % 4 == c / 64;
  }

  /** A group of three bytes decodes back from its four characters. */
  lemma GroupRoundTrip(a: Byte, b: Byte, c: Byte)
    ensures DecodeGroup(EncodeGroup(a, b, c)) == [a, b, c]
  {
    ValueOfCharOf(a / 4);
    ValueOfCharOf(a % 4 * 16 + b / 16);
    ValueOfCharOf(b % 16 * 4 + c / 64);
    ValueOfCharOf(c % 64);
    BytesRebuilt(a, b, c);
  }

  /** One or two final bytes decode back from their characters. */
  lemma TailRoundTrip(bytes: seq<Byte>)
    requires 1 <= |bytes| <= 2
    ensures DecodeTail(EncodeTail(bytes)) == bytes
  {
    var a := bytes[0];
    ValueOfCharOf(a / 4);
    if |bytes| == 1 {
      ValueOfCharOf(a % 4 * 16);
      BytesRebuilt(a, 0, 0);
    } else {
      var b := bytes[1];
      ValueOfCharOf(a % 4 * 16 + b / 16);
      ValueOfCharOf(b % 16 * 4);
      BytesRebuilt(a, b, 0);
    }
  }

  lemma FirstThree(s: seq<Byte>)
    requires |s| >= 3
    ensures s[..3] == [s[0], s[1], s[2]]
  {
  }

  /** The first three bytes come back from the first group of their
      encoding, ahead of whatever the rest decodes to. */
  lemma FirstGroupRoundTrip(bytes: seq<Byte>)
    requires |bytes| >= 3
    ensures DecodeChars(EncodeUnpadded(bytes)) == bytes[..3] + DecodeChars(EncodeUnpadded(bytes[3..]))
  {
    FirstThree(bytes);
    var a, b, c := bytes[0], bytes[1], bytes[2];
    var g := EncodeGroup(a, b, c);
    var t := EncodeUnpadded(bytes[3..]);
    assert EncodeUnpadded(bytes) == g + t;
    GroupRoundTrip(a, b, c);
    DecodeLeadingGroup(g, t);
    assert DecodeChars(g + t) == bytes[..3] + DecodeChars(t);
  }

  /** Decoding the unpadded characters gives the bytes back. */
  lemma {:induction false} DecodeEncodeUnpadded(bytes: seq<Byte>)
    ensures DecodeChars(EncodeUnpadded(bytes)) == bytes
    decreases |bytes|
  {
    if 1 <= |bytes| < 3 {
      TailRoundTrip(bytes);
    } else if |bytes| >= 3 {
      var rest := bytes[3..];
      FirstGroupRoundTrip(bytes);
      DecodeEncodeUnpadded(rest);
      assert bytes == bytes[..3] + rest;
    }
  }

  /** `b64_decode(b64_encode(b)) == b` for every byte string `b`; in
      particular decoding never fails on what `b64_encode` produces. */
  lemma RoundTrip(bytes: seq<Byte>)
    ensures B64Decode(B64Encode(bytes)) == Some(bytes)
  {
    var e := B64Encode(bytes);
    assert DropTrailingPads(e) == e;
    DecodeEncodeUnpadded(bytes);
  }

  /** The low bits of a final partial group that make no whole byte are
      zero: four of them after two characters, two after three. */
  predicate SpareBitsZero(s: string)
    requires AllBase64(s)
  {
    && (|s| % 4 == 2 ==> ValueOf(s[|s| - 1]) % 16 == 0)
    && (|s| % 4 == 3 ==> ValueOf(s[|s| - 1]) % 4 == 0)
  }

  /** Text `b64_encode` can produce: alphabet characters only, never a lone
      final character, and no stray bits in a final partial group. */
  predicate Canonical(s: string)
  {
    AllBase64(s) && |s| % 4 != 1 && SpareBitsZero(s)
  }

  /** The characters for one or two final bytes are canonical. */
  lemma TailIsCanonical(bytes: seq<Byte>)
    requires 1 <= |bytes| <= 2
    ensures Canonical(EncodeTail(bytes))
  {
    if |bytes| == 1 {
      ValueOfCharOf(bytes[0] % 4 * 16);
    } else {
      ValueOfCharOf(bytes[1] % 16 * 4);
    }
  }

  /** A group of four alphabet characters in front keeps text canonical. */
  lemma CanonicalAfterGroup(g: string, t: string)
    requires |g| == 4 && AllBase64(g) && Canonical(t)
    ensures Canonical(g + t)
  {
    var s := g + t;
    assert |s| % 4 == |t| % 4;
    if |t| > 0 {
      assert s[|s| - 1] == t[|t| - 1];
    }
  }

  /** What follows the first group of canonical text is canonical. */
  lemma CanonicalRest(s: string)
    requires Canonical(s) && |s| >= 4
    ensures Canonical(s[4..])
  {
    var t := s[4..];
    if |t| > 0 {
      assert t[|t| - 1] == s[|s| - 1];
    }
  }

  /** Everything `b64_encode` produces is canonical. */
  lemma {:induction false} EncodeIsCanonical(bytes: seq<Byte>)
    ensures Canonical(B64Encode(bytes))
    decreases |bytes|
  {
    if 1 <= |bytes| < 3 {
      TailIsCanonical(bytes);
    } else if |bytes| >= 3 {
      EncodeIsCanonical(bytes[3..]);
      CanonicalAfterGroup(EncodeGroup(bytes[0], bytes[1], bytes[2]), EncodeUnpadded(bytes[3..]));
    }
  }

  /** The arithmetic behind re-encoding: splitting the bytes rebuilt from
      four sextets gives the sextets back. */
  lemma SextetsRebuilt(x: Sextet, y: Sextet, z: Sextet, w: Sextet)
    ensures var a, b, c := FirstByte(x, y), SecondByte(y, z), ThirdByte(z, w);
      a / 4 == x && a % 4 * 16 + b / 16 == y && b % 16 * 4 + c / 64 == z && c % 64 == w
  {
  }

  /** Four characters decoded and encoded again. */
  lemma GroupReencodes(g: string)
    requires |g| == 4 && AllBase64(g)
    ensures var bytes := DecodeGroup(g); EncodeGroup(bytes[0], bytes[1], bytes[2]) == g
  {
    SextetsRebuilt(ValueOf(g[0]), ValueOf(g[1]), ValueOf(g[2]), ValueOf(g[3]));
  }

  /** The arithmetic behind re-encoding one final byte: two sextets whose
      spare low bits are zero come back from the byte they make. */
  lemma OneByteRebuilt(x: Sextet, y: Sextet)
    requires y % 16 == 0
    ensures FirstByte(x, y) / 4 == x && FirstByte(x, y) % 4 * 16 == y
  {
  }

  /** The arithmetic behind re-encoding two final bytes: three sextets whose
      spare low bits are zero come back from the bytes they make. */
  lemma TwoBytesRebuilt(x: Sextet, y: Sextet, z: Sextet)
    requires z % 4 == 0
    ensures var a, b := FirstByte(x, y), SecondByte(y, z);
      a / 4 == x && a % 4 * 16 + b / 16 == y && b % 16 * 4 == z
  {
  }

  /** Two or three final characters without stray bits, decoded and encoded
      again. */
  lemma TailReencodes(t: string)
    requires 2 <= |t| <= 3 && Canonical(t)
    ensures EncodeTail(DecodeTail(t)) == t
  {
    var x, y := ValueOf(t[0]), ValueOf(t[1]);
    if |t| == 2 {
      OneByteRebuilt(x, y);
      assert EncodeTail(DecodeTail(t)) == [CharOf(x), CharOf(y)];
    } else {
      var z := ValueOf(t[2]);
      TwoBytesRebuilt(x, y, z);
      assert EncodeTail(DecodeTail(t)) == [CharOf(x), CharOf(y), CharOf(z)];
    }
  }

  /** On canonical text, encoding undoes decoding. */
  lemma {:induction false} EncodeDecodeChars(s: string)
    requires Canonical(s)
    ensures EncodeUnpadded(DecodeChars(s)) == s
    decreases |s|
  {
    if 2 <= |s| <= 3 {
      TailReencodes(s);
    } else if |s| >= 4 {
      var g, t := s[..4], s[4..];
      CanonicalRest(s);
      EncodeDecodeChars(t);
      GroupReencodes(g);
      var head := DecodeGroup(g);
      var bytes := head + DecodeChars(t);
      assert bytes[3..] == DecodeChars(t);
      assert s == g + t;
    }
  }

  /** `b64_encode(b64_decode(s)) == s` for every text `b64_encode` can
      produce, so the two are inverse bijections between byte strings and
      canonical text. */
  lemma CanonicalRoundTrip(s: string)
    requires Canonical(s)
    ensures B64Decode(s).Some?
    ensures B64Encode(B64Decode(s).value) == s
  {
    assert DropTrailingPads(s) == s;
    EncodeDecodeChars(s);
  }
}
