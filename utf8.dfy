/**
 * UTF-8, as `bytes(text, 'utf-8')` produces it. A Dafny `char` is a Unicode
 * scalar value, so every string can be encoded and lone surrogates, which
 * the Python codec rejects, cannot arise.
 */
module Utf8 {
  import opened Basics

  /** The bytes of one scalar value: 1 to 4 bytes by the size of the code point. */
  function EncodeChar(c: char): (r: seq<byte>)
    ensures 1 <= |r| <= 4
    ensures |r| == 1 <==> c as int < 0x80
    ensures |r| == 1 ==> r[0] as int == c as int
    ensures |r| > 1 ==> forall k :: 0 <= k < |r| ==> r[k] >= 0x80
  {
    var cp := c as int;
    if cp < 0x80 then
      [cp as byte]
    else if cp < 0x800 then
      [(0xC0 + cp / 0x40) as byte, (0x80 + cp % 0x40) as byte]
    else if cp < 0x10000 then
      [(0xE0 + cp / 0x1000) as byte, (0x80 + cp / 0x40 % 0x40) as byte, (0x80 + cp % 0x40) as byte]
    else
      [(0xF0 + cp / 0x40000) as byte, (0x80 + cp / 0x1000 % 0x40) as byte,
       (0x80 + cp / 0x40 % 0x40) as byte, (0x80 + cp % 0x40) as byte]
  }

  /** The bytes of a string: the bytes of its characters, in order. */
  function Encode(s: string): (r: seq<byte>)
    ensures |r| >= |s|
  {
    if |s| == 0 then [] else EncodeChar(s[0]) + Encode(s[1..])
  }

  /**
   * How many bytes a sequence starting with this byte takes, or 0 for a byte
   * that cannot start one: a continuation byte, a lead byte of an overlong
   * two-byte form (0xC0, 0xC1), or one above 0xF4.
   */
  function LeadLength(b: byte): nat {
    if b < 0x80 then 1
    else if b < 0xC2 then 0
    else if b < 0xE0 then 2
    else if b < 0xF0 then 3
    else if b < 0xF5 then 4
    else 0
  }

  /** A byte of the form `10xxxxxx`. */
  predicate IsContinuation(b: byte) {
    0x80 <= b < 0xC0
  }

  /** The least code point that needs this many bytes; a smaller one would be an overlong form. */
  function MinCode(n: nat): int {
    if n <= 1 then 0 else if n == 2 then 0x80 else if n == 3 then 0x800 else 0x10000
  }

  /** The code point that a lead byte and its continuation bytes carry. */
  function DecodeScalar(bs: seq<byte>): int
    requires 1 <= |bs| <= 4
  {
    if |bs| == 1 then bs[0] as int
    else if |bs| == 2 then (bs[0] as int - 0xC0) * 0x40 + (bs[1] as int - 0x80)
    else if |bs| == 3 then
      (bs[0] as int - 0xE0) * 0x1000 + (bs[1] as int - 0x80) * 0x40 + (bs[2] as int - 0x80)
    else
      (bs[0] as int - 0xF0) * 0x40000 + (bs[1] as int - 0x80) * 0x1000
      + (bs[2] as int - 0x80) * 0x40 + (bs[3] as int - 0x80)
  }

  /** A code point that is a Unicode scalar value. */
  predicate IsScalar(cp: int) {
    0 <= cp < 0xD800 || 0xE000 <= cp < 0x11_0000
  }

  /**
   * The bytes after a valid lead byte are continuation bytes, and they
   * carry a scalar value that is not written in more bytes than it needs.
   */
  predicate WellFormed(bs: seq<byte>)
    requires 1 <= |bs| <= 4
  {
    (forall k :: 1 <= k < |bs| ==> IsContinuation(bs[k]))
    && MinCode(|bs|) <= DecodeScalar(bs)
    && IsScalar(DecodeScalar(bs))
  }

  /** Strict UTF-8 decoding: characters back from bytes, or `None` at the first ill-formed sequence. */
  function Decode(bs: seq<byte>): Option<string>
    decreases |bs|
  {
    if |bs| == 0 then Some([])
    else
      var n := LeadLength(bs[0]);
      if n == 0 || n > |bs| then None
      else if !WellFormed(bs[..n]) then None
      else
        match Decode(bs[n..])
        case None => None
        case Some(rest) => Some([DecodeScalar(bs[..n]) as char] + rest)
  }

  /**
   * The bytes of a character are one well-formed sequence: its lead byte
   * announces their number, and they carry its code point.
   */
  lemma DecodeEncodeChar(c: char)
    ensures LeadLength(EncodeChar(c)[0]) == |EncodeChar(c)|
    ensures WellFormed(EncodeChar(c))
    ensures DecodeScalar(EncodeChar(c)) == c as int
  {
    var cp := c as int;
    if 0x80 <= cp {
      Digits(cp);
    }
  }

  /** A well-formed sequence is the encoding of the character it carries. */
  lemma EncodeDecodeChar(bs: seq<byte>)
    requires 1 <= |bs| <= 4 && LeadLength(bs[0]) == |bs| && WellFormed(bs)
    ensures EncodeChar(DecodeScalar(bs) as char) == bs
  {
    var cp := DecodeScalar(bs);
    if |bs| == 2 {
      DigitOf(bs[0] as int - 0xC0, bs[1] as int - 0x80);
    } else if |bs| == 3 {
      var hi := (bs[0] as int - 0xE0) * 0x40 + (bs[1] as int - 0x80);
      assert cp == hi * 0x40 + (bs[2] as int - 0x80);
      DigitOf(hi, bs[2] as int - 0x80);
      DigitOf(bs[0] as int - 0xE0, bs[1] as int - 0x80);
    } else if |bs| == 4 {
      var top := (bs[0] as int - 0xF0) * 0x40 + (bs[1] as int - 0x80);
      var hi := top * 0x40 + (bs[2] as int - 0x80);
      assert cp == hi * 0x40 + (bs[3] as int - 0x80);
      DigitOf(hi, bs[3] as int - 0x80);
      DigitOf(top, bs[2] as int - 0x80);
      DigitOf(bs[0] as int - 0xF0, bs[1] as int - 0x80);
    }
  }

  /** The last base 64 digit of a number and the number before it. */
  lemma DigitOf(q: int, r: int)
    requires 0 <= q && 0 <= r < 0x40
    ensures (q * 0x40 + r) / 0x40 == q && (q * 0x40 + r) % 0x40 == r
  {
  }

  /** Decoding accepts only what `Encode` writes: encoding a decoded text gives the bytes back. */
  lemma {:induction false} EncodeDecode(bs: seq<byte>)
    requires Decode(bs).Some?
    ensures Encode(Decode(bs).value) == bs
    decreases |bs|
  {
    if |bs| > 0 {
      var n, c, rest := DecodeFirst(bs);
      EncodeDecode(bs[n..]);
      EncodeFront(c, rest);
      assert bs == bs[..n] + bs[n..];
    }
  }

  /**
   * A decoded text starts with a character whose bytes are the first
   * sequence, followed by the decoding of the rest.
   */
  lemma DecodeFirst(bs: seq<byte>) returns (n: nat, c: char, rest: string)
    requires |bs| > 0 && Decode(bs).Some?
    ensures 1 <= n <= |bs| && EncodeChar(c) == bs[..n]
    ensures Decode(bs[n..]) == Some(rest) && Decode(bs) == Some([c] + rest)
  {
    n := LeadLength(bs[0]);
    c := DecodeScalar(bs[..n]) as char;
    rest := Decode(bs[n..]).value;
    EncodeDecodeChar(bs[..n]);
  }

  /** The bytes of a text with one character in front. */
  lemma EncodeFront(c: char, s: string)
    ensures Encode([c] + s) == EncodeChar(c) + Encode(s)
  {
    assert ([c] + s)[0] == c && ([c] + s)[1..] == s;
  }

  /** An overlong form, a stray continuation byte and an encoded surrogate are rejected. */
  lemma DecodeRejects()
    ensures Decode([0xC1, 0x80]) == None
    ensures Decode([0xC2, 0x00]) == None
    ensures Decode([0x80]) == None
    ensures Decode([0xED, 0xA0, 0x80]) == None
  {
    var surrogate: seq<byte> := [0xED, 0xA0, 0x80];
    assert surrogate[..3] == surrogate;
    assert DecodeScalar(surrogate) == 0xD800;
  }

  /** A code point written in base 64 digits. */
  lemma Digits(cp: int)
    requires 0 <= cp
    ensures cp == cp / 0x40 * 0x40 + cp % 0x40
    ensures cp == cp / 0x1000 * 0x1000 + cp / 0x40 % 0x40 * 0x40 + cp % 0x40
    ensures cp == cp / 0x40000 * 0x40000 + cp / 0x1000 % 0x40 * 0x1000 + cp / 0x40 % 0x40 * 0x40 + cp % 0x40
  {
    var q := cp / 0x40;
    assert q / 0x40 == cp / 0x1000;
    assert q / 0x40 / 0x40 == cp / 0x40000;
  }

  /** Encoding distributes over concatenation. */
  lemma {:induction false} EncodeAppend(a: string, b: string)
    ensures Encode(a + b) == Encode(a) + Encode(b)
    decreases |a|
  {
    if |a| > 0 {
      assert (a + b)[0] == a[0];
      assert (a + b)[1..] == a[1..] + b;
      EncodeAppend(a[1..], b);
    } else {
      assert a + b == b;
    }
  }

  /** Decoding the bytes of a string gives the string back. */
  lemma {:induction false} DecodeEncode(s: string)
    ensures Decode(Encode(s)) == Some(s)
    decreases |s|
  {
    if |s| > 0 {
      var head := EncodeChar(s[0]);
      var bs := Encode(s);
      DecodeEncodeChar(s[0]);
      assert bs == head + Encode(s[1..]);
      assert bs[0] == head[0];
      assert bs[..|head|] == head;
      assert bs[|head|..] == Encode(s[1..]);
      DecodeEncode(s[1..]);
      assert [s[0]] + s[1..] == s;
    }
  }

  /** An ASCII character is one byte, its code; no other character yields an ASCII byte. */
  lemma {:induction false} EncodeAscii(s: string, x: char)
    requires x as int < 0x80
    ensures x !in s <==> x as int as byte !in Encode(s)
    decreases |s|
  {
    if |s| > 0 {
      EncodeAscii(s[1..], x);
      var head := EncodeChar(s[0]);
      assert Encode(s) == head + Encode(s[1..]);
      assert s == [s[0]] + s[1..];
      if s[0] == x {
        assert Encode(s)[0] == x as int as byte;
      } else {
        assert x as int as byte !in head;
      }
    }
  }

  /** Every character of an ASCII string is one byte with the same code. */
  lemma {:induction false} EncodeAsciiString(s: string)
    requires forall k :: 0 <= k < |s| ==> s[k] as int < 0x80
    ensures |Encode(s)| == |s|
    ensures forall k :: 0 <= k < |s| ==> Encode(s)[k] as int == s[k] as int
    decreases |s|
  {
    if |s| > 0 {
      EncodeAsciiString(s[1..]);
      assert Encode(s) == EncodeChar(s[0]) + Encode(s[1..]);
      forall k | 1 <= k < |s|
        ensures Encode(s)[k] as int == s[k] as int
      {
        assert Encode(s)[k] == Encode(s[1..])[k - 1];
        assert s[k] == s[1..][k - 1];
      }
    }
  }
}
