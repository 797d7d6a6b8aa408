/** Hexadecimal rendering of the MAC bytes. The source runs `hex::encode`
    (lower-case digits) and then `to_uppercase`; the result is the Base16
    encoding of section 8 of RFC 4648, whose alphabet is "0123456789ABCDEF". */
module Base16 {
  import opened Types

  /** The lower-case digit for a nibble, as `hex::encode` writes it. */
  function LowerDigit(d: nat): (c: char)
    requires d < 16
    ensures '0' <= c <= '9' || 'a' <= c <= 'f'
  {
    if d < 10 then (d + '0' as int) as char else (d - 10 + 'a' as int) as char
  }

  /** The digit for a nibble in the RFC 4648 Base16 alphabet. */
  function UpperDigit(d: nat): (c: char)
    requires d < 16
    ensures IsUpperHexDigit(c)
  {
    if d < 10 then (d + '0' as int) as char else (d - 10 + 'A' as int) as char
  }

  predicate IsUpperHexDigit(c: char) {
    '0' <= c <= '9' || 'A' <= c <= 'F'
  }

  predicate IsUpperHex(s: string) {
    forall i :: 0 <= i < |s| ==> IsUpperHexDigit(s[i])
  }

  /** `hex::encode`: two lower-case digits per byte, high nibble first. */
  function EncodeLower(bytes: seq<byte>): (s: string)
    ensures |s| == 2 * |bytes|
    ensures forall i :: 0 <= i < |s| ==> '0' <= s[i] <= '9' || 'a' <= s[i] <= 'f'
  {
    if bytes == [] then []
    else [LowerDigit(bytes[0] / 16), LowerDigit(bytes[0] % 16)] + EncodeLower(bytes[1..])
  }

  /** `char::to_uppercase` on ASCII: a letter 'a'..'z' becomes its capital,
      every other character is kept. */
  function UpperAscii(c: char): (u: char)
    ensures !('a' <= u <= 'z')
    ensures u != c <==> 'a' <= c <= 'z'
  {
    if 'a' <= c <= 'z' then (c as int - 32) as char else c
  }

  /** `str::to_uppercase`, character by character. */
  function ToUpperAscii(s: string): (r: string)
    ensures |r| == |s|
    ensures forall i :: 0 <= i < |s| ==> r[i] == UpperAscii(s[i])
  {
    if s == [] then [] else [UpperAscii(s[0])] + ToUpperAscii(s[1..])
  }

  /** Base16 encoding (section 8 of RFC 4648): byte i becomes the characters at
      2i (high nibble) and 2i+1 (low nibble), each from the upper-case alphabet. */
  function Encode(bytes: seq<byte>): (s: string)
    ensures |s| == 2 * |bytes|
    ensures IsUpperHex(s)
    ensures forall i :: 0 <= i < |bytes| ==>
      s[2 * i] == UpperDigit(bytes[i] / 16) && s[2 * i + 1] == UpperDigit(bytes[i] % 16)
  {
    if bytes == [] then []
    else [UpperDigit(bytes[0] / 16), UpperDigit(bytes[0] % 16)] + Encode(bytes[1..])
  }

  /** The nibble an upper-case hex digit stands for; None outside the alphabet. */
  function NibbleValue(c: char): (r: Option<nat>)
    ensures r.Some? <==> IsUpperHexDigit(c)
    ensures r.Some? ==> r.value < 16 && UpperDigit(r.value) == c
  {
    if '0' <= c <= '9' then Some(c as int - '0' as int)
    else if 'A' <= c <= 'F' then Some(c as int - 'A' as int + 10)
    else None
  }

  /** Base16 decoding: pairs of upper-case digits back to bytes; None for an
      odd length or a character outside the alphabet. */
  function Decode(s: string): (r: Option<seq<byte>>)
    ensures r.Some? ==> |s| == 2 * |r.value|
  {
    if s == [] then Some([])
    else if |s| == 1 then None
    else
      var hi := NibbleValue(s[0]);
      var lo := NibbleValue(s[1]);
      var rest := Decode(s[2..]);
      if hi.Some? && lo.Some? && rest.Some? then Some([hi.value * 16 + lo.value] + rest.value)
      else None
  }

  lemma NibbleOfDigit(d: nat)
    requires d < 16
    ensures NibbleValue(UpperDigit(d)) == Some(d)
  {
  }

  /** Decoding an encoding gives the bytes back. */
  lemma {:induction false} DecodeEncode(bytes: seq<byte>)
    ensures Decode(Encode(bytes)) == Some(bytes)
  {
    if bytes != [] {
      var s := Encode(bytes);
      assert s[2..] == Encode(bytes[1..]);
      DecodeEncode(bytes[1..]);
      NibbleOfDigit(bytes[0] / 16);
      NibbleOfDigit(bytes[0] % 16);
      assert [bytes[0]] + bytes[1..] == bytes;
    }
  }

  /** The decoder accepts nothing but encodings. */
  lemma {:induction false} EncodeDecode(s: string)
    requires Decode(s).Some?
    ensures Encode(Decode(s).value) == s
  {
    if s != [] {
      var hi := NibbleValue(s[0]).value;
      var lo := NibbleValue(s[1]).value;
      var rest := Decode(s[2..]).value;
      var b := hi * 16 + lo;
      assert Decode(s).value == [b] + rest;
      assert b / 16 == hi && b % 16 == lo;
      EncodeDecode(s[2..]);
      assert ([b] + rest)[1..] == rest;
      assert Encode([b] + rest) == [s[0], s[1]] + s[2..];
      assert s == [s[0], s[1]] + s[2..];
    }
  }

  /** Different byte strings have different encodings. */
  lemma EncodeInjective(a: seq<byte>, b: seq<byte>)
    ensures Encode(a) == Encode(b) <==> a == b
  {
    if Encode(a) == Encode(b) {
      DecodeEncode(a);
      DecodeEncode(b);
    }
  }

  /** Upper-casing `hex::encode`'s output gives the RFC 4648 Base16 encoding. */
  lemma {:induction false} UpperOfEncodeLower(bytes: seq<byte>)
    ensures ToUpperAscii(EncodeLower(bytes)) == Encode(bytes)
  {
    if bytes != [] {
      UpperOfEncodeLower(bytes[1..]);
      var l := EncodeLower(bytes);
      var u := ToUpperAscii(l);
      var e := Encode(bytes);
      forall i | 0 <= i < |e|
        ensures u[i] == e[i]
      {
        if i >= 2 {
          assert l[i] == EncodeLower(bytes[1..])[i - 2];
          assert e[i] == Encode(bytes[1..])[i - 2];
        }
      }
    }
  }
}
