/** UTF-8 encoding of Unicode scalar values; MOBI offsets are measured in
    its bytes (`len(s.encode('utf-8'))`). A
    Dafny `char` is a Unicode scalar value, exactly the domain on which
    Python's UTF-8 encoder succeeds. */
module Utf8 {
  import Text

  newtype byte = x: int | 0 <= x < 256

  /** Number of bytes UTF-8 uses for one code point, by code-point range. */
  function CodePointLen(c: char): (k: nat)
    ensures 1 <= k <= 4
    ensures k == 1 <==> (c as int) < 0x80
  {
    if (c as int) < 0x80 then 1
    else if (c as int) < 0x800 then 2
    else if (c as int) < 0x1_0000 then 3
    else 4
  }

  /** The UTF-8 byte sequence of one code point. */
  function EncodeChar(c: char): (bs: seq<byte>)
    ensures |bs| == CodePointLen(c)
  {
    var n := c as int;
    if n < 0x80 then [n as byte]
    else if n < 0x800 then [(0xC0 + n / 64) as byte, (0x80 + n % 64) as byte]
    else if n < 0x1_0000 then
      [(0xE0 + n / 4096) as byte, (0x80 + (n / 64) % 64) as byte, (0x80 + n % 64) as byte]
    else
      [(0xF0 + n / 262144) as byte, (0x80 + (n / 4096) % 64) as byte,
       (0x80 + (n / 64) % 64) as byte, (0x80 + n % 64) as byte]
  }

  /** `s.encode('utf-8')`. */
  function Utf8Encode(s: string): seq<byte> {
    if s == [] then [] else EncodeChar(s[0]) + Utf8Encode(s[1..])
  }

  /** The length of a string's encoding by code-point range: the sum of the
      code-point lengths. */
  function Utf8Len(s: string): nat {
    if s == [] then 0 else CodePointLen(s[0]) + Utf8Len(s[1..])
  }

  /** `len(s.encode('utf-8'))` is the sum of the code-point lengths. */
  lemma {:induction false} EncodeLength(s: string)
    ensures |Utf8Encode(s)| == Utf8Len(s)
  {
    if s != [] {
      EncodeLength(s[1..]);
    }
  }

  /** A string never has fewer bytes than characters nor more than four per
      character, and has exactly one per character when it is all ASCII. */
  lemma {:induction false} EncodeLengthBounds(s: string)
    ensures |s| <= |Utf8Encode(s)| <= 4 * |s|
    ensures |Utf8Encode(s)| == |s| <==> forall i :: 0 <= i < |s| ==> (s[i] as int) < 0x80
  {
    if s != [] {
      EncodeLengthBounds(s[1..]);
      assert forall i :: 1 <= i < |s| ==> s[i] == s[1..][i - 1];
    }
  }

  /** Encoding is a homomorphism over concatenation, so byte lengths add up
      and an offset computed from a prefix plus the length of what follows
      lands where it should. */
  lemma {:induction false} EncodeConcat(a: string, b: string)
    ensures Utf8Encode(a + b) == Utf8Encode(a) + Utf8Encode(b)
    ensures |Utf8Encode(a + b)| == |Utf8Encode(a)| + |Utf8Encode(b)|
  {
    if a == [] {
      assert a + b == b;
    } else {
      assert (a + b)[0] == a[0] && (a + b)[1..] == a[1..] + b;
      EncodeConcat(a[1..], b);
    }
  }

  /** ASCII characters encode to themselves and every byte of a non-ASCII
      character has its high bit set, so an ASCII delimiter byte in encoded
      text is always a delimiter character. */
  lemma EncodeCharAscii(c: char)
    ensures (c as int) < 0x80 ==> EncodeChar(c) == [(c as int) as byte]
    ensures (c as int) >= 0x80 ==> forall k :: 0 <= k < |EncodeChar(c)| ==> EncodeChar(c)[k] >= 0x80
  {
  }

  /** The bytes of `s[i..j]` sit in the encoding of `s` at the byte offsets
      given by the lengths of the surrounding text. */
  lemma SliceEncoding(s: string, i: nat, j: nat)
    requires i <= j <= |s|
    ensures |Utf8Encode(s[..i])| + |Utf8Encode(s[i..j])| <= |Utf8Encode(s)|
    ensures Utf8Encode(s)[|Utf8Encode(s[..i])|..|Utf8Encode(s[..i])| + |Utf8Encode(s[i..j])|] == Utf8Encode(s[i..j])
  {
    assert s == s[..i] + s[i..j] + s[j..];
    EncodeConcat(s[..i] + s[i..j], s[j..]);
    EncodeConcat(s[..i], s[i..j]);
  }

  /** Where a string's encoding sits in a byte buffer at `start`, the bytes
      of its piece `s[i..j]` sit at `start` plus the byte length of `s[..i]`. */
  lemma EncodedSliceAt(buf: seq<byte>, start: nat, s: string, i: nat, j: nat)
    requires i <= j <= |s|
    requires start + |Utf8Encode(s)| <= |buf| && buf[start..start + |Utf8Encode(s)|] == Utf8Encode(s)
    ensures start + |Utf8Encode(s[..i])| + |Utf8Encode(s[i..j])| <= |buf|
    ensures buf[start + |Utf8Encode(s[..i])|..start + |Utf8Encode(s[..i])| + |Utf8Encode(s[i..j])|] == Utf8Encode(s[i..j])
  {
    SliceEncoding(s, i, j);
    EncodedSliceTransfer(buf, start, s, i, j);
  }

  lemma EncodedSliceTransfer(buf: seq<byte>, start: nat, s: string, i: nat, j: nat)
    requires i <= j <= |s|
    requires start + |Utf8Encode(s)| <= |buf| && buf[start..start + |Utf8Encode(s)|] == Utf8Encode(s)
    requires |Utf8Encode(s[..i])| + |Utf8Encode(s[i..j])| <= |Utf8Encode(s)|
    requires Utf8Encode(s)[|Utf8Encode(s[..i])|..|Utf8Encode(s[..i])| + |Utf8Encode(s[i..j])|] == Utf8Encode(s[i..j])
    ensures start + |Utf8Encode(s[..i])| + |Utf8Encode(s[i..j])| <= |buf|
    ensures buf[start + |Utf8Encode(s[..i])|..start + |Utf8Encode(s[..i])| + |Utf8Encode(s[i..j])|] == Utf8Encode(s[i..j])
  {
    Text.SliceTransfer(buf, start, Utf8Encode(s), |Utf8Encode(s)|, |Utf8Encode(s[..i])|, |Utf8Encode(s[i..j])|, Utf8Encode(s[i..j]));
  }
}
