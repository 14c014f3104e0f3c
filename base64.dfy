/** Base 64 as section 4 of RFC 4648 defines it, its URL- and filename-safe
    variant (section 5 of RFC 4648), and the browser's `btoa`/`atob` over "binary
    strings" (strings whose every character is below U+0100, one per byte). */
module Base64 {
  import opened Wrappers
  import opened Seqs

  type Byte = b: int | 0 <= b < 256

  /** A 6-bit group value. */
  type Sextet = v: int | 0 <= v < 64

  /** The character of a 6-bit value: the standard alphabet of section 4 of RFC 4648
      (`+` and `/` for 62 and 63) or the safe alphabet of section 5 of RFC 4648 (`-` and `_`). */
  function AlphabetChar(v: Sextet, url: bool): (c: char)
    ensures c != '=' && c as int > 0x20
  {
    if v < 26 then ('A' as int + v) as char
    else if v < 52 then ('a' as int + (v - 26)) as char
    else if v < 62 then ('0' as int + (v - 52)) as char
    else if v == 62 then (if url then '-' else '+')
    else (if url then '_' else '/')
  }

  /** A character of the standard alphabet. */
  predicate IsStdChar(c: char) {
    ('A' <= c <= 'Z') || ('a' <= c <= 'z') || ('0' <= c <= '9') || c == '+' || c == '/'
  }

  /** The value a standard-alphabet character stands for. */
  function StdValue(c: char): (v: Sextet)
    requires IsStdChar(c)
    ensures AlphabetChar(v, false) == c
  {
    if 'A' <= c <= 'Z' then c as int - 'A' as int
    else if 'a' <= c <= 'z' then c as int - 'a' as int + 26
    else if '0' <= c <= '9' then c as int - '0' as int + 52
    else if c == '+' then 62
    else 63
  }

  /** Each value has its own standard character. */
  lemma StdValueOfChar(v: Sextet)
    ensures IsStdChar(AlphabetChar(v, false)) && StdValue(AlphabetChar(v, false)) == v
  {
  }

  /** The 6-bit groups of one final or full quantum of one to three bytes,
      most significant first, the last group filled with zero bits. */
  function Quantum(b: seq<Byte>): (v: seq<Sextet>)
    requires 1 <= |b| <= 3
    ensures |v| == |b| + 1
  {
    var x := b[0];
    var y := if |b| > 1 then b[1] else 0;
    var z := if |b| > 2 then b[2] else 0;
    [x / 4, (x % 4) * 16 + y / 16, (y % 16) * 4 + z / 64, z % 64][..|b| + 1]
  }

  /** The bytes two to four 6-bit groups stand for; bits left over after
      the last whole byte are dropped. */
  function Unquantum(v: seq<Sextet>): (b: seq<Byte>)
    requires 2 <= |v| <= 4
    ensures |b| == |v| - 1
  {
    var p: int := if |v| > 2 then v[2] else 0;
    var q: int := if |v| > 3 then v[3] else 0;
    [v[0] as int * 4 + v[1] as int / 16, (v[1] as int % 16) * 16 + p / 4, (p % 4) * 64 + q][..|v| - 1]
  }

  /** Decoding the groups of one quantum gives its bytes back. */
  lemma QuantumRoundTrip(b: seq<Byte>)
    requires 1 <= |b| <= 3
    ensures Unquantum(Quantum(b)) == b
  {
    var x := b[0];
    var y := if |b| > 1 then b[1] else 0;
    var z := if |b| > 2 then b[2] else 0;
    assert ((x % 4) * 16 + y / 16) / 16 == x % 4 && ((x % 4) * 16 + y / 16) % 16 == y / 16;
    assert ((y % 16) * 4 + z / 64) / 4 == y % 16 && ((y % 16) * 4 + z / 64) % 4 == z / 64;
  }

  /** The 6-bit groups of `b`: one quantum per three bytes, the last one
      possibly shorter (section 4 of RFC 4648). */
  function EncodeSextets(b: seq<Byte>): (v: seq<Sextet>)
    ensures |v| == 4 * (|b| / 3) + (if |b| % 3 == 0 then 0 else |b| % 3 + 1)
    ensures |v| % 4 == (if |b| % 3 == 0 then 0 else |b| % 3 + 1)
  {
    if |b| == 0 then []
    else if |b| <= 3 then Quantum(b)
    else
      assert (|b| - 3) / 3 == |b| / 3 - 1 && (|b| - 3) % 3 == |b| % 3;
      Quantum(b[..3]) + EncodeSextets(b[3..])
  }

  /** The bytes 6-bit groups stand for, four groups at a time. */
  function DecodeSextets(v: seq<Sextet>): (b: seq<Byte>)
    requires |v| % 4 != 1
    ensures |b| == 3 * (|v| / 4) + (if |v| % 4 == 0 then 0 else |v| % 4 - 1)
  {
    if |v| == 0 then []
    else if |v| <= 4 then Unquantum(v)
    else Unquantum(v[..4]) + DecodeSextets(v[4..])
  }

  /** Decoding the groups of `b` gives `b` back. */
  lemma {:induction false} DecodeEncodeSextets(b: seq<Byte>)
    ensures DecodeSextets(EncodeSextets(b)) == b
  {
    if 1 <= |b| <= 3 {
      QuantumRoundTrip(b);
    } else if |b| > 3 {
      var v := EncodeSextets(b);
      assert v[..4] == Quantum(b[..3]) && v[4..] == EncodeSextets(b[3..]);
      QuantumRoundTrip(b[..3]);
      DecodeEncodeSextets(b[3..]);
      assert b == b[..3] + b[3..];
    }
  }

  /** The characters of 6-bit values in one alphabet. */
  function Chars(v: seq<Sextet>, url: bool): (s: string)
    ensures |s| == |v| && forall i :: 0 <= i < |v| ==> s[i] == AlphabetChar(v[i], url)
  {
    seq(|v|, i requires 0 <= i < |v| => AlphabetChar(v[i], url))
  }

  /** The `=` padding that completes the last quantum of `n` bytes (section 3.2 of RFC 4648). */
  function Padding(n: nat): (p: string)
    ensures |p| < 3 && forall i :: 0 <= i < |p| ==> p[i] == '='
  {
    if n % 3 == 1 then "==" else if n % 3 == 2 then "=" else ""
  }

  /** Base 64 encoding with padding, section 4 of RFC 4648. */
  function Encode(b: seq<Byte>): (s: string)
    ensures |s| == 4 * (|b| / 3) + (if |b| % 3 == 0 then 0 else 4)
  {
    Chars(EncodeSextets(b), false) + Padding(|b|)
  }

  /** The URL- and filename-safe encoding of section 5 of RFC 4648, without padding. */
  function EncodeUrl(b: seq<Byte>): (s: string)
    ensures forall i :: 0 <= i < |s| ==> s[i] != '+' && s[i] != '/' && s[i] != '='
  {
    Chars(EncodeSextets(b), true)
  }

  // ---------------------------------------------------------------------
  // Binary strings, `btoa` and `atob`.
  // ---------------------------------------------------------------------

  predicate IsBinary(s: string) {
    forall i :: 0 <= i < |s| ==> s[i] as int < 256
  }

  /** `String.fromCharCode` of each byte, concatenated. */
  function BytesToBinary(b: seq<Byte>): (s: string)
    ensures |s| == |b| && IsBinary(s)
    ensures forall i :: 0 <= i < |b| ==> s[i] as int == b[i]
  {
    seq(|b|, i requires 0 <= i < |b| => b[i] as char)
  }

  /** The char codes of a binary string. */
  function BinaryToBytes(s: string): (b: seq<Byte>)
    requires IsBinary(s)
    ensures |b| == |s| && forall i :: 0 <= i < |s| ==> b[i] == s[i] as int
  {
    seq(|s|, i requires 0 <= i < |s| => s[i] as int)
  }

  lemma BinaryRoundTrip(b: seq<Byte>)
    ensures BinaryToBytes(BytesToBinary(b)) == b
  {
  }

  /** `btoa`: fails (an `InvalidCharacterError`) on a character above U+00FF,
      otherwise encodes the string's bytes with padding. */
  function Btoa(s: string): (r: Option<string>)
    ensures r.Some? <==> IsBinary(s)
    ensures r.Some? ==> r.value == Encode(BinaryToBytes(s))
  {
    if IsBinary(s) then Some(Encode(BinaryToBytes(s))) else None
  }

  /** ASCII whitespace: tab, line feed, form feed, carriage return, space. */
  predicate IsAsciiWhitespace(c: char) {
    c == '\t' || c == '\n' || c == '\U{000C}' || c == '\r' || c == ' '
  }

  /** The input with one or two final `=` removed when its length is a
      multiple of four. */
  function StripPadding(t: string): (u: string)
    ensures |u| <= |t| && u == t[..|u|]
  {
    if |t| % 4 == 0 && |t| >= 2 && t[|t| - 1] == '=' && t[|t| - 2] == '=' then t[..|t| - 2]
    else if |t| % 4 == 0 && |t| >= 1 && t[|t| - 1] == '=' then t[..|t| - 1]
    else t
  }

  /** `atob`, the forgiving base 64 decode of the HTML standard: whitespace is
      ignored, final padding is optional, a length of 1 modulo 4 or a character
      outside the standard alphabet fails, and leftover bits are dropped. */
  function Atob(s: string): (r: Option<string>)
    ensures r.Some? ==> IsBinary(r.value)
  {
    var t := Filter(s, (c: char) => !IsAsciiWhitespace(c));
    var u := StripPadding(t);
    if |u| % 4 == 1 then None
    else if exists i :: 0 <= i < |u| && !IsStdChar(u[i]) then None
    else Some(BytesToBinary(DecodeSextets(seq(|u|, i requires 0 <= i < |u| => StdValue(u[i])))))
  }

  /** Stripping removes exactly a padding of up to two `=` after characters
      that are not `=`, in a text whose length is a multiple of four. */
  lemma StripPaddingOf(body: string, pad: string)
    requires forall i :: 0 <= i < |body| ==> body[i] != '='
    requires |pad| <= 2 && forall i :: 0 <= i < |pad| ==> pad[i] == '='
    requires (|body| + |pad|) % 4 == 0
    ensures StripPadding(body + pad) == body
  {
    var t := body + pad;
    assert t[..|body|] == body;
    if |pad| == 2 {
      assert t[|t| - 1] == '=' && t[|t| - 2] == '=';
    } else if |pad| == 1 {
      assert t[|t| - 1] == '=' && t[|t| - 2] == body[|body| - 1];
    } else if |t| > 0 {
      assert t[|t| - 1] == body[|body| - 1];
    }
  }

  /** Neither the alphabet nor the padding holds whitespace. */
  lemma NoWhitespaceIn(v: seq<Sextet>, url: bool, pad: string)
    requires forall i :: 0 <= i < |pad| ==> pad[i] == '='
    ensures Filter(Chars(v, url) + pad, (c: char) => !IsAsciiWhitespace(c)) == Chars(v, url) + pad
  {
    var body := Chars(v, url);
    var s := body + pad;
    var p := (c: char) => !IsAsciiWhitespace(c);
    assert forall i :: 0 <= i < |s| ==> p(s[i]) by {
      forall i | 0 <= i < |s| ensures p(s[i]) {
        if i < |body| {
          assert s[i] as int > 0x20;
        } else {
          assert s[i] == pad[i - |body|];
        }
      }
    }
    FilterKeepsAll(s, p);
  }

  /** Reading the standard characters of 6-bit values gives the values. */
  lemma StdValuesOfChars(v: seq<Sextet>)
    ensures var body := Chars(v, false);
            (forall i :: 0 <= i < |body| ==> IsStdChar(body[i]))
            && seq(|body|, i requires 0 <= i < |body| => StdValue(body[i])) == v
  {
    var body := Chars(v, false);
    forall i | 0 <= i < |body| ensures IsStdChar(body[i]) && StdValue(body[i]) == v[i] {
      StdValueOfChar(v[i]);
    }
  }

  /** Decoding the standard characters of 6-bit values, with or without
      padding, gives the bytes those values stand for. */
  lemma AtobOfChars(v: seq<Sextet>, pad: string)
    requires |v| % 4 != 1
    requires |pad| <= 2 && forall i :: 0 <= i < |pad| ==> pad[i] == '='
    requires (|v| + |pad|) % 4 == 0
    ensures Atob(Chars(v, false) + pad) == Some(BytesToBinary(DecodeSextets(v)))
  {
    NoWhitespaceIn(v, false, pad);
    StripPaddingOf(Chars(v, false), pad);
    StdValuesOfChars(v);
  }

  /** `atob` undoes `btoa`: decoding a padded encoding gives the bytes back. */
  lemma AtobOfEncode(b: seq<Byte>)
    ensures Atob(Encode(b)) == Some(BytesToBinary(b))
  {
    var v := EncodeSextets(b);
    assert |v| % 4 == (if |b| % 3 == 0 then 0 else |b| % 3 + 1);
    AtobOfChars(v, Padding(|b|));
    DecodeEncodeSextets(b);
  }
}
