/** UTF-8, as defined in section 3 of RFC 3629, for texts whose characters are
    Unicode scalar values (Dafny's `char`). This is what Python's
    `str.encode("utf-8")` computes for a string without lone surrogates. */
module Utf8 {

  type byte = x: int | 0 <= x < 0x100

  /** The number of bytes of the encoding of code point `cp`, from the table in
      section 3 of RFC 3629. */
  function ScalarWidth(cp: int): nat {
    if cp <= 0x7F then 1
    else if cp <= 0x7FF then 2
    else if cp <= 0xFFFF then 3
    else 4
  }

  /** The length of the sequence that lead byte `lead` announces, or 0 when
      `lead` cannot start a sequence (a continuation byte, or 0xF8 and above). */
  function LeadWidth(lead: byte): nat {
    if lead < 0x80 then 1
    else if lead < 0xC0 then 0
    else if lead < 0xE0 then 2
    else if lead < 0xF0 then 3
    else if lead < 0xF8 then 4
    else 0
  }

  /** A byte of the form 10xxxxxx. */
  predicate IsContinuation(b: byte) {
    0x80 <= b < 0xC0
  }

  /** A well-formed sequence: its lead byte announces its length and the other
      bytes are continuation bytes. */
  predicate IsWellFormedSequence(bs: seq<byte>) {
    && |bs| >= 1
    && |bs| == LeadWidth(bs[0])
    && forall i :: 1 <= i < |bs| ==> IsContinuation(bs[i])
  }

  /** The UTF-8 encoding of one scalar value: the bits of the code point are
      distributed over a lead byte and continuation bytes. */
  function EncodeChar(ch: char): (bs: seq<byte>)
    ensures |bs| == ScalarWidth(ch as int)
    ensures IsWellFormedSequence(bs)
  {
    var cp := ch as int;
    if cp < 0x80 then
      [cp]
    else if cp < 0x800 then
      [0xC0 + cp / 0x40, 0x80 + cp % 0x40]
    else if cp < 0x10000 then
      [0xE0 + cp / 0x1000, 0x80 + (cp / 0x40) % 0x40, 0x80 + cp % 0x40]
    else
      [0xF0 + cp / 0x40000, 0x80 + (cp / 0x1000) % 0x40, 0x80 + (cp / 0x40) % 0x40, 0x80 + cp % 0x40]
  }

  /** The code point a well-formed sequence stands for: the payload bits of its
      bytes, most significant first. */
  function DecodeSequence(bs: seq<byte>): int
    requires IsWellFormedSequence(bs)
  {
    if |bs| == 1 then
      bs[0] as int
    else if |bs| == 2 then
      (bs[0] as int - 0xC0) * 0x40 + (bs[1] as int - 0x80)
    else if |bs| == 3 then
      (bs[0] as int - 0xE0) * 0x1000 + (bs[1] as int - 0x80) * 0x40 + (bs[2] as int - 0x80)
    else
      (bs[0] as int - 0xF0) * 0x40000 + (bs[1] as int - 0x80) * 0x1000
        + (bs[2] as int - 0x80) * 0x40 + (bs[3] as int - 0x80)
  }

  /** Splitting off six low bits, the way every continuation byte does. */
  lemma SixBits(x: int)
    requires x >= 0
    ensures x == (x / 0x40) * 0x40 + x % 0x40 && 0 <= x % 0x40 < 0x40
  {
  }

  /** Dividing by 0x40 twice or three times is dividing by 0x1000 or 0x40000. */
  lemma NestedSixBits(x: int)
    requires x >= 0
    ensures x / 0x1000 == (x / 0x40) / 0x40
    ensures x / 0x40000 == (x / 0x1000) / 0x40
  {
    var q1 := x / 0x40;
    var q2 := q1 / 0x40;
    var q3 := q2 / 0x40;
    SixBits(x);
    SixBits(q1);
    SixBits(q2);
    assert x / 0x1000 == q2 by {
      assert x == q2 * 0x1000 + (q1 % 0x40) * 0x40 + x % 0x40;
    }
    assert x / 0x40000 == q3 by {
      assert x == q3 * 0x40000 + (q2 % 0x40) * 0x1000 + (q1 % 0x40) * 0x40 + x % 0x40;
    }
  }

  /** Decoding undoes encoding: the encoding of a scalar value loses nothing. */
  lemma DecodeEncodeChar(ch: char)
    ensures DecodeSequence(EncodeChar(ch)) == ch as int
  {
    var cp := ch as int;
    var bs := EncodeChar(ch);
    var q1 := cp / 0x40;
    var q2 := q1 / 0x40;
    SixBits(cp);
    SixBits(q1);
    SixBits(q2);
    NestedSixBits(cp);
    if cp < 0x80 {
    } else if cp < 0x800 {
      assert DecodeSequence(bs) == q1 * 0x40 + cp % 0x40;
    } else if cp < 0x10000 {
      assert DecodeSequence(bs) == q2 * 0x1000 + (q1 % 0x40) * 0x40 + cp % 0x40;
    } else {
      assert DecodeSequence(bs) == (q2 / 0x40) * 0x40000 + (q2 % 0x40) * 0x1000 + (q1 % 0x40) * 0x40 + cp % 0x40;
    }
  }

  /** Two scalar values with the same encoding are equal. */
  lemma EncodeCharInjective(a: char, b: char)
    requires EncodeChar(a) == EncodeChar(b)
    ensures a == b
  {
    DecodeEncodeChar(a);
    DecodeEncodeChar(b);
  }

  /** The UTF-8 encoding of a text: the encodings of its characters, in order. */
  function Encode(s: string): (bs: seq<byte>)
    ensures |s| <= |bs| <= 4 * |s|
  {
    if |s| == 0 then [] else Encode(s[..|s| - 1]) + EncodeChar(s[|s| - 1])
  }

  /** Encoding distributes over concatenation. */
  lemma {:induction false} EncodeAppend(s: string, t: string)
    ensures Encode(s + t) == Encode(s) + Encode(t)
    decreases |t|
  {
    if |t| == 0 {
      assert s + t == s;
    } else {
      var t' := t[..|t| - 1];
      assert (s + t)[..|s + t| - 1] == s + t';
      assert (s + t)[|s + t| - 1] == t[|t| - 1];
      EncodeAppend(s, t');
    }
  }

  /** The number of bytes the first `c` characters of `text` take in UTF-8. */
  function PrefixBytes(text: string, c: int): nat
    requires 0 <= c <= |text|
  {
    |Encode(text[..c])|
  }

  /** One more character adds its own width. */
  lemma PrefixBytesStep(text: string, c: int)
    requires 0 <= c < |text|
    ensures PrefixBytes(text, c + 1) == PrefixBytes(text, c) + |EncodeChar(text[c])|
  {
    assert text[..c + 1][..c] == text[..c];
  }

  /** Prefix byte lengths grow by at least one and at most four bytes per character. */
  lemma {:induction false} PrefixBytesGrowth(text: string, i: int, j: int)
    requires 0 <= i <= j <= |text|
    ensures PrefixBytes(text, i) + (j - i) <= PrefixBytes(text, j) <= PrefixBytes(text, i) + 4 * (j - i)
    decreases j - i
  {
    if i < j {
      PrefixBytesGrowth(text, i, j - 1);
      PrefixBytesStep(text, j - 1);
    }
  }

  /** The byte offset of character `c` falls on a character boundary of the
      encoding of the whole text: the bytes before it encode `text[..c]`. */
  lemma PrefixOfEncoding(text: string, c: int)
    requires 0 <= c <= |text|
    ensures PrefixBytes(text, c) <= |Encode(text)|
    ensures Encode(text)[..PrefixBytes(text, c)] == Encode(text[..c])
  {
    assert text == text[..c] + text[c..];
    EncodeAppend(text[..c], text[c..]);
  }

  /** Every character of `s` is ASCII (code point at most 127). */
  predicate IsAscii(s: string) {
    forall i :: 0 <= i < |s| ==> s[i] as int <= 0x7F
  }

  /** A text is ASCII exactly when its encoding has one byte per character. */
  lemma {:induction false} AsciiIffOneBytePerChar(s: string)
    ensures IsAscii(s) <==> |Encode(s)| == |s|
    decreases |s|
  {
    if |s| > 0 {
      var s' := s[..|s| - 1];
      AsciiIffOneBytePerChar(s');
      assert IsAscii(s) <==> IsAscii(s') && s[|s| - 1] as int <= 0x7F by {
        assert forall i :: 0 <= i < |s'| ==> s'[i] == s[i];
      }
    }
  }
}
