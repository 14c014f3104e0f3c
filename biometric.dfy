/** The byte helpers of the device-login service (services/biometricService.ts):
    the user-id challenge bytes, and the unpadded URL-safe base 64 text under
    which a credential id is stored and from which it is read back. */
module Biometric {
  import opened Wrappers
  import opened Base64

  /** `c.charCodeAt(0)` for a one-character string: the character itself
      below U+10000, otherwise its high surrogate. */
  function FirstCodeUnit(c: char): (u: int)
    ensures 0 <= u < 0x10000
    ensures c as int < 0x10000 ==> u == c as int
    ensures c as int >= 0x10000 ==> 0xD800 <= u < 0xDC00
  {
    if c as int < 0x10000 then c as int else 0xD800 + (c as int - 0x10000) / 0x400
  }

  /** `strToBin`: one byte per character (the string is iterated by code
      point), the character's first code unit reduced modulo 256 as a
      `Uint8Array` stores it. */
  function StrToBin(s: string): (b: seq<Byte>)
    ensures |b| == |s|
    ensures forall i :: 0 <= i < |s| ==> b[i] == FirstCodeUnit(s[i]) % 256
  {
    seq(|s|, i requires 0 <= i < |s| => FirstCodeUnit(s[i]) % 256)
  }

  /** On a binary string the challenge bytes are the char codes, so the
      bytes of a binary string come back unchanged. */
  lemma StrToBinOfBytes(b: seq<Byte>)
    ensures StrToBin(BytesToBinary(b)) == b
    ensures StrToBin(BytesToBinary(b)) == BinaryToBytes(BytesToBinary(b))
  {
  }

  /** `s.replace(/x/g, y)` for one character `x`. */
  function ReplaceChar(s: string, x: char, y: char): (r: string)
    ensures |r| == |s|
    ensures forall i :: 0 <= i < |s| ==> r[i] == if s[i] == x then y else s[i]
  {
    seq(|s|, i requires 0 <= i < |s| => if s[i] == x then y else s[i])
  }

  /** `s.replace(/c+$/, '')`: the final run of `c` removed. */
  function TrimTrailing(s: string, c: char): (r: string)
    ensures |r| <= |s| && r == s[..|r|]
    ensures r == [] || r[|r| - 1] != c
    ensures forall i :: |r| <= i < |s| ==> s[i] == c
  {
    if s != [] && s[|s| - 1] == c then TrimTrailing(s[..|s| - 1], c) else s
  }

  /** Trimming stops at the first character from the end that is not `c`. */
  lemma TrimTrailingAt(x: string, y: string, c: char)
    requires x == [] || x[|x| - 1] != c
    requires forall i :: 0 <= i < |y| ==> y[i] == c
    ensures TrimTrailing(x + y, c) == x
  {
    var s := x + y;
    assert x != [] ==> s[|x| - 1] != c;
    assert forall i :: |x| <= i < |s| ==> s[i] == y[i - |x|];
    assert s[..|x|] == x;
  }

  /** What `bufferToBase64url` makes of the padded encoding `btoa` returns. */
  function ToUrlForm(s: string): string {
    TrimTrailing(ReplaceChar(ReplaceChar(s, '+', '-'), '/', '_'), '=')
  }

  /** Replacing `+` and `/` and dropping the padding turns the encoding of
      section 4 of RFC 4648 into the unpadded encoding of section 5 of RFC 4648. */
  lemma UrlFormOfEncode(b: seq<Byte>)
    ensures ToUrlForm(Encode(b)) == EncodeUrl(b)
  {
    var v := EncodeSextets(b);
    var replaced := ReplaceChar(ReplaceChar(Encode(b), '+', '-'), '/', '_');
    var pad := Padding(|b|);
    assert replaced == Chars(v, true) + pad;
    TrimTrailingAt(Chars(v, true), pad, '=');
  }

  /** `bufferToBase64url`: the bytes become a binary string one character at a
      time, which is encoded and put in the URL-safe unpadded form. */
  method BufferToBase64url(buffer: array<Byte>) returns (r: string)
    ensures r == EncodeUrl(buffer[..])
  {
    var str := "";
    for i := 0 to buffer.Length
      invariant str == BytesToBinary(buffer[..i])
    {
      str := str + [buffer[i] as char];
    }
    assert buffer[..buffer.Length] == buffer[..];
    BinaryRoundTrip(buffer[..]);
    var encoded := Btoa(str);
    r := ToUrlForm(encoded.value);
    UrlFormOfEncode(buffer[..]);
  }

  /** `'=='.slice(0, (4 - n % 4) % 4)`: the padding count, at most two. */
  function UrlPadding(s: string): (p: string)
    ensures |p| == if (4 - |s| % 4) % 4 < 2 then (4 - |s| % 4) % 4 else 2
    ensures forall i :: 0 <= i < |p| ==> p[i] == '='
  {
    var n := (4 - |s| % 4) % 4;
    "=="[..if n < 2 then n else 2]
  }

  /** The standard padded text `base64urlToBuffer` hands to `atob`. */
  function FromUrlForm(s: string): string {
    ReplaceChar(ReplaceChar(s + UrlPadding(s), '-', '+'), '_', '/')
  }

  /** The bytes `base64urlToBuffer` returns; `None` where `atob` throws. */
  function DecodeUrl(s: string): (r: Option<seq<Byte>>)
    ensures r.None? <==> Atob(FromUrlForm(s)).None?
  {
    match Atob(FromUrlForm(s))
    case None => None
    case Some(binary) => Some(BinaryToBytes(binary))
  }

  /** A credential id stored by `bufferToBase64url` is read back by
      `base64urlToBuffer` as the same bytes. */
  lemma DecodeEncodeUrl(b: seq<Byte>)
    ensures DecodeUrl(EncodeUrl(b)) == Some(b)
  {
    var v := EncodeSextets(b);
    var s := EncodeUrl(b);
    assert UrlPadding(s) == Padding(|b|);
    assert FromUrlForm(s) == Encode(b);
    AtobOfEncode(b);
    BinaryRoundTrip(b);
  }

  /** `base64urlToBuffer`: the padded standard text is decoded and the
      binary string's char codes fill a new byte array. */
  method Base64urlToBuffer(s: string) returns (r: Option<array<Byte>>)
    ensures r.None? <==> DecodeUrl(s).None?
    ensures r.Some? ==> fresh(r.value) && r.value[..] == DecodeUrl(s).value
  {
    var binary := Atob(FromUrlForm(s));
    if binary.None? {
      return None;
    }
    var text := binary.value;
    var bytes := new Byte[|text|];
    for i := 0 to |text|
      invariant bytes[..i] == BinaryToBytes(text)[..i]
    {
      bytes[i] := text[i] as int;
    }
    assert bytes[..] == bytes[..|text|];
    r := Some(bytes);
  }
}
