/**
 * The browser's `btoa` and `atob`: base64 as in section 4 of RFC 4648
 * (standard alphabet, `=` padding) for encoding, and the lenient
 * "forgiving-base64 decode" of the WHATWG Infra standard for decoding.
 */
module Base64 {
  import opened Wrappers

  type byte = x: int | 0 <= x < 256
  type sextet = x: int | 0 <= x < 64

  /** The base64 alphabet: `A`-`Z`, `a`-`z`, `0`-`9`, `+`, `/`. */
  function IndexChar(i: sextet): (c: char)
    ensures IsBase64Char(c)
  {
    if i < 26 then ('A' as int + i) as char
    else if i < 52 then ('a' as int + (i - 26)) as char
    else if i < 62 then ('0' as int + (i - 52)) as char
    else if i == 62 then '+'
    else '/'
  }

  predicate IsBase64Char(c: char) {
    ('A' <= c <= 'Z') || ('a' <= c <= 'z') || ('0' <= c <= '9') || c == '+' || c == '/'
  }

  function CharIndex(c: char): (i: sextet)
    requires IsBase64Char(c)
    ensures IndexChar(i) == c
  {
    if 'A' <= c <= 'Z' then c as int - 'A' as int
    else if 'a' <= c <= 'z' then c as int - 'a' as int + 26
    else if '0' <= c <= '9' then c as int - '0' as int + 52
    else if c == '+' then 62
    else 63
  }

  lemma CharIndexOfIndexChar(i: sextet)
    ensures CharIndex(IndexChar(i)) == i
  {
  }

  // ----- encoding ---------------------------------------------------------

  /** The four characters of a whole group of three bytes. */
  function Quad(b0: byte, b1: byte, b2: byte): (s: string)
    ensures |s| == 4 && forall k :: 0 <= k < 4 ==> IsBase64Char(s[k])
  {
    [IndexChar(b0 / 4), IndexChar((b0 % 4) * 16 + b1 / 16),
     IndexChar((b1 % 16) * 4 + b2 / 64), IndexChar(b2 % 64)]
  }

  /** The three characters of a final group of two bytes. */
  function Triple(b0: byte, b1: byte): (s: string)
    ensures |s| == 3 && forall k :: 0 <= k < 3 ==> IsBase64Char(s[k])
  {
    [IndexChar(b0 / 4), IndexChar((b0 % 4) * 16 + b1 / 16), IndexChar((b1 % 16) * 4)]
  }

  /** The two characters of a final group of one byte. */
  function Pair(b0: byte): (s: string)
    ensures |s| == 2 && forall k :: 0 <= k < 2 ==> IsBase64Char(s[k])
  {
    [IndexChar(b0 / 4), IndexChar((b0 % 4) * 16)]
  }

  /** The base64 characters of `b`, without padding: four characters per
      three bytes, and two or three for a final group of one or two bytes. */
  function EncodeData(b: seq<byte>): (s: string)
    ensures forall k :: 0 <= k < |s| ==> IsBase64Char(s[k])
    ensures |s| == EncodedLength(|b|)
    decreases |b|
  {
    if |b| >= 3 then Quad(b[0], b[1], b[2]) + EncodeData(b[3..])
    else if |b| == 2 then Triple(b[0], b[1])
    else if |b| == 1 then Pair(b[0])
    else []
  }

  /** Four characters per whole group of three bytes, one more character
      than bytes in a final partial group. */
  function EncodedLength(n: nat): nat {
    if n >= 3 then 4 + EncodedLength(n - 3) else if n == 0 then 0 else n + 1
  }

  lemma {:induction false} EncodedLengthMod(n: nat)
    ensures EncodedLength(n) % 4 == (if n % 3 == 0 then 0 else n % 3 + 1)
  {
    if n >= 3 {
      var e := EncodedLength(n - 3);
      EncodedLengthMod(n - 3);
      assert (n - 3) % 3 == n % 3;
      assert (4 + e) % 4 == e % 4;
    }
  }

  function Padding(n: nat): string {
    if n % 3 == 1 then "==" else if n % 3 == 2 then "=" else ""
  }

  /** `btoa` on a string of bytes. */
  function Encode(b: seq<byte>): (s: string)
    ensures |s| % 4 == 0
  {
    var data := EncodeData(b);
    EncodedLengthMod(|b|);
    FillsGroup(|data|, |Padding(|b|)|);
    data + Padding(|b|)
  }

  lemma FillsGroup(n: nat, pad: nat)
    requires n % 4 + pad == 4 || (n % 4 == 0 && pad == 0)
    ensures (n + pad) % 4 == 0
  {
  }

  // ----- forgiving decode -------------------------------------------------

  /** ASCII white space as the Infra standard defines it: tab, line feed,
      form feed, carriage return, space. */
  predicate IsAsciiWhitespace(c: char) {
    c == '\t' || c == '\n' || c == '\U{0C}' || c == '\r' || c == ' '
  }

  function RemoveWhitespace(s: string): (r: string)
    ensures forall k :: 0 <= k < |r| ==> !IsAsciiWhitespace(r[k])
    decreases |s|
  {
    if s == [] then []
    else (if IsAsciiWhitespace(s[0]) then [] else [s[0]]) + RemoveWhitespace(s[1..])
  }

  /** Step 2: when the length is a multiple of four, one or two trailing `=`
      are dropped. */
  function StripPadding(d: string): string {
    if |d| % 4 != 0 then d
    else if |d| >= 2 && d[|d| - 2..] == "==" then d[..|d| - 2]
    else if |d| >= 1 && d[|d| - 1] == '=' then d[..|d| - 1]
    else d
  }

  predicate AllBase64(d: string) {
    forall k :: 0 <= k < |d| ==> IsBase64Char(d[k])
  }

  /** Bytes of the characters, four characters to three bytes; the bits of
      an incomplete final group that do not fill a byte are discarded. (A
      final group of one character never reaches here: `Decode` rejects it.) */
  function DecodeData(d: string): (b: seq<byte>)
    requires AllBase64(d)
    decreases |d|
  {
    if |d| >= 4 then DecodeChars(d[0], d[1], d[2], d[3]) + DecodeData(d[4..])
    else if |d| == 3 then DecodeTriple(d[0], d[1], d[2])
    else if |d| == 2 then DecodePair(d[0], d[1])
    else []
  }

  function DecodeTriple(a: char, b: char, c: char): seq<byte>
    requires IsBase64Char(a) && IsBase64Char(b) && IsBase64Char(c)
  {
    var c0, c1, c2 := CharIndex(a), CharIndex(b), CharIndex(c);
    [c0 * 4 + c1 / 16, (c1 % 16) * 16 + c2 / 4]
  }

  function DecodePair(a: char, b: char): seq<byte>
    requires IsBase64Char(a) && IsBase64Char(b)
  {
    var c0, c1 := CharIndex(a), CharIndex(b);
    [c0 * 4 + c1 / 16]
  }

  /** The three bytes of a whole group of four characters. */
  function DecodeChars(a: char, b: char, c: char, e: char): seq<byte>
    requires IsBase64Char(a) && IsBase64Char(b) && IsBase64Char(c) && IsBase64Char(e)
  {
    var c0, c1, c2, c3 := CharIndex(a), CharIndex(b), CharIndex(c), CharIndex(e);
    [c0 * 4 + c1 / 16, (c1 % 16) * 16 + c2 / 4, (c2 % 4) * 64 + c3]
  }

  /** `atob`: `None` where the browser throws. */
  function Decode(s: string): Option<seq<byte>> {
    var d := StripPadding(RemoveWhitespace(s));
    if |d| % 4 == 1 || !AllBase64(d) then None else Some(DecodeData(d))
  }

  // ----- round trip -------------------------------------------------------

  lemma Group3(b0: byte, b1: byte, b2: byte)
    ensures (b0 / 4) * 4 + ((b0 % 4) * 16 + b1 / 16) / 16 == b0
    ensures (((b0 % 4) * 16 + b1 / 16) % 16) * 16 + ((b1 % 16) * 4 + b2 / 64) / 4 == b1
    ensures (((b1 % 16) * 4 + b2 / 64) % 4) * 64 + b2 % 64 == b2
  {
  }

  lemma Group2(b0: byte, b1: byte)
    ensures (b0 / 4) * 4 + ((b0 % 4) * 16 + b1 / 16) / 16 == b0
    ensures (((b0 % 4) * 16 + b1 / 16) % 16) * 16 + ((b1 % 16) * 4) / 4 == b1
  {
  }

  lemma Group1(b0: byte)
    ensures (b0 / 4) * 4 + ((b0 % 4) * 16) / 16 == b0
  {
  }

  /** The four characters of three bytes decode to them. */
  lemma DecodeQuad(b0: byte, b1: byte, b2: byte)
    ensures var q := Quad(b0, b1, b2);
            DecodeChars(q[0], q[1], q[2], q[3]) == [b0, b1, b2]
  {
    var i0, i1, i2, i3 := b0 / 4, (b0 % 4) * 16 + b1 / 16, (b1 % 16) * 4 + b2 / 64, b2 % 64;
    CharIndexOfIndexChar(i0);
    CharIndexOfIndexChar(i1);
    CharIndexOfIndexChar(i2);
    CharIndexOfIndexChar(i3);
    Group3(b0, b1, b2);
    var q := Quad(b0, b1, b2);
    assert CharIndex(q[0]) == i0 && CharIndex(q[1]) == i1 && CharIndex(q[2]) == i2 && CharIndex(q[3]) == i3;
  }

  lemma DecodeTripleOf(b0: byte, b1: byte)
    ensures var t := Triple(b0, b1);
            DecodeTriple(t[0], t[1], t[2]) == [b0, b1]
  {
    Group2(b0, b1);
    CharIndexOfIndexChar(b0 / 4);
    CharIndexOfIndexChar((b0 % 4) * 16 + b1 / 16);
    CharIndexOfIndexChar((b1 % 16) * 4);
  }

  lemma DecodePairOf(b0: byte)
    ensures var p := Pair(b0);
            DecodePair(p[0], p[1]) == [b0]
  {
    Group1(b0);
    CharIndexOfIndexChar(b0 / 4);
    CharIndexOfIndexChar((b0 % 4) * 16);
  }

  /** One whole group: the four characters of three bytes decode to them. */
  lemma DecodeGroup(b: seq<byte>)
    requires |b| >= 3
    ensures var d := EncodeData(b);
            DecodeData(d) == [b[0], b[1], b[2]] + DecodeData(d[4..])
  {
    var d := EncodeData(b);
    var q := Quad(b[0], b[1], b[2]);
    assert d == q + EncodeData(b[3..]);
    assert d[0] == q[0] && d[1] == q[1] && d[2] == q[2] && d[3] == q[3];
    DecodeQuad(b[0], b[1], b[2]);
  }

  lemma SplitGroup(b: seq<byte>)
    requires |b| >= 3
    ensures b == [b[0], b[1], b[2]] + b[3..]
  {
  }

  lemma {:induction false} DecodeEncodeData(b: seq<byte>)
    ensures DecodeData(EncodeData(b)) == b
    decreases |b|
  {
    var d := EncodeData(b);
    if |b| >= 3 {
      DecodeGroup(b);
      assert d[4..] == EncodeData(b[3..]);
      DecodeEncodeData(b[3..]);
      SplitGroup(b);
    } else if |b| == 2 {
      DecodeTripleOf(b[0], b[1]);
      assert b == [b[0], b[1]];
    } else if |b| == 1 {
      DecodePairOf(b[0]);
      assert b == [b[0]];
    }
  }

  lemma {:induction false} RemoveWhitespaceNone(s: string)
    requires forall k :: 0 <= k < |s| ==> !IsAsciiWhitespace(s[k])
    ensures RemoveWhitespace(s) == s
    decreases |s|
  {
    if s != [] {
      RemoveWhitespaceNone(s[1..]);
    }
  }

  /** The padding `btoa` adds is exactly what step 2 of the decoder drops. */
  lemma StripPaddingOfEncode(b: seq<byte>)
    ensures StripPadding(Encode(b)) == EncodeData(b)
  {
    var data := EncodeData(b);
    var e := Encode(b);
    if |b| % 3 == 0 {
      assert e == data;
      if data != [] {
        assert IsBase64Char(data[|data| - 1]);
        assert e[|e| - 2..] != "==" by { assert e[|e| - 1] == data[|data| - 1]; }
      }
    } else if |b| % 3 == 1 {
      assert e == data + "==";
      assert e[|e| - 2..] == "==";
      assert e[..|e| - 2] == data;
    } else {
      assert e == data + "=";
      assert e[|e| - 2..] != "==" by { assert e[|e| - 2] == data[|data| - 1]; }
      assert e[..|e| - 1] == data;
    }
  }

  lemma EncodeHasNoWhitespace(b: seq<byte>)
    ensures RemoveWhitespace(Encode(b)) == Encode(b)
  {
    var e := Encode(b);
    var data := EncodeData(b);
    forall k | 0 <= k < |e| ensures !IsAsciiWhitespace(e[k]) {
      if k < |data| { assert e[k] == data[k]; } else { assert e[k] == '='; }
    }
    RemoveWhitespaceNone(e);
  }

  lemma EncodeDataLength(b: seq<byte>)
    ensures |EncodeData(b)| % 4 != 1
  {
    EncodedLengthMod(|b|);
  }

  /** `atob(btoa(b)) == b` for every string of bytes. */
  lemma DecodeEncode(b: seq<byte>)
    ensures Decode(Encode(b)) == Some(b)
  {
    EncodeHasNoWhitespace(b);
    StripPaddingOfEncode(b);
    EncodeDataLength(b);
    DecodeEncodeData(b);
  }

  /** Inputs `atob` rejects: one character too many for whole groups, or a
      character outside the alphabet. */
  lemma DecodeRejects()
    ensures Decode("A").None?
    ensures Decode("ab=c").None?
    ensures Decode("Zm9!").None?
  {
    assert RemoveWhitespace("A") == "A";
    assert RemoveWhitespace("ab=c") == "ab=c" by { RemoveWhitespaceNone("ab=c"); }
    assert !AllBase64("ab=c") by { assert "ab=c"[2] == '='; }
    RemoveWhitespaceNone("Zm9!");
    assert !AllBase64("Zm9!") by { assert "Zm9!"[3] == '!'; }
  }
}
