/** The check `std::str::from_utf8` makes: a byte string is accepted exactly
    when it is a sequence of well-formed UTF-8 encodings of Unicode scalar
    values (Table 3-7 of the Unicode Standard, as RFC 3629 restates it). On
    success the `&str` it returns is the same bytes, so this module only
    decides validity. */
module Utf8 {
  import opened Bytes

  predicate InRange(b: Byte, lo: int, hi: int) {
    lo <= b <= hi
  }

  predicate IsContinuation(b: Byte) {
    InRange(b, 0x80, 0xBF)
  }

  /** The length of the well-formed sequence that starts `s`, or 0 when `s`
      does not start with one. */
  function LeadWidth(s: seq<Byte>): (w: nat)
    requires |s| > 0
    ensures w <= 4 && w <= |s|
  {
    var b0 := s[0];
    if b0 <= 0x7F then 1
    else if InRange(b0, 0xC2, 0xDF) then
      if |s| >= 2 && IsContinuation(s[1]) then 2 else 0
    else if InRange(b0, 0xE0, 0xEF) then
      var lo := if b0 == 0xE0 then 0xA0 else 0x80;
      var hi := if b0 == 0xED then 0x9F else 0xBF;
      if |s| >= 3 && InRange(s[1], lo, hi) && IsContinuation(s[2]) then 3 else 0
    else if InRange(b0, 0xF0, 0xF4) then
      var lo := if b0 == 0xF0 then 0x90 else 0x80;
      var hi := if b0 == 0xF4 then 0x8F else 0xBF;
      if |s| >= 4 && InRange(s[1], lo, hi) && IsContinuation(s[2]) && IsContinuation(s[3]) then 4 else 0
    else 0
  }

  /** `s` is valid UTF-8. */
  predicate Valid(s: seq<Byte>)
    decreases |s|
  {
    |s| == 0 || (LeadWidth(s) > 0 && Valid(s[LeadWidth(s)..]))
  }

  /** The UTF-8 encoding of one Unicode scalar value. */
  function EncodeChar(c: char): (r: seq<Byte>)
    ensures 1 <= |r| <= 4
  {
    var cp := c as int;
    if cp < 0x80 then [cp]
    else if cp < 0x800 then [0xC0 + cp / 0x40, 0x80 + cp % 0x40]
    else if cp < 0x1_0000 then [0xE0 + cp / 0x1000, 0x80 + (cp / 0x40) % 0x40, 0x80 + cp % 0x40]
    else [0xF0 + cp / 0x4_0000, 0x80 + (cp / 0x1000) % 0x40, 0x80 + (cp / 0x40) % 0x40, 0x80 + cp % 0x40]
  }

  /** The UTF-8 encoding of a string, which is what a Rust `&str` holds. */
  function Encode(s: string): seq<Byte> {
    if |s| == 0 then [] else EncodeChar(s[0]) + Encode(s[1..])
  }

  /** The width of a leading well-formed sequence does not depend on what
      follows it. */
  lemma LeadWidthPrefix(a: seq<Byte>, b: seq<Byte>)
    requires |a| > 0 && LeadWidth(a) > 0
    ensures LeadWidth(a + b) == LeadWidth(a)
  {
  }

  /** Every encoded character is exactly one well-formed sequence. */
  lemma EncodeCharWellFormed(c: char, rest: seq<Byte>)
    ensures LeadWidth(EncodeChar(c) + rest) == |EncodeChar(c)|
  {
    var e, cp := EncodeChar(c), c as int;
    if cp < 0x80 {
    } else if cp < 0x800 {
      assert InRange(e[0], 0xC2, 0xDF) && IsContinuation(e[1]);
    } else if cp < 0x1_0000 {
      // no surrogate is a char, so a lead byte 0xED is followed by at most 0x9F
      var mid := (cp / 0x40) % 0x40;
      assert e[0] == 0xE0 ==> mid >= 0x20;
      assert e[0] == 0xED ==> mid < 0x20;
      assert InRange(e[0], 0xE0, 0xEF) && IsContinuation(e[1]) && IsContinuation(e[2]);
    } else {
      var mid := (cp / 0x1000) % 0x40;
      assert e[0] == 0xF0 ==> mid >= 0x10;
      assert e[0] == 0xF4 ==> mid < 0x10;
      assert InRange(e[0], 0xF0, 0xF4) && IsContinuation(e[1]) && IsContinuation(e[2]) && IsContinuation(e[3]);
    }
    assert LeadWidth(e) == |e|;
    LeadWidthPrefix(e, rest);
  }

  /** Concatenating two valid strings gives a valid string. */
  lemma {:induction false} ValidAppend(a: seq<Byte>, b: seq<Byte>)
    requires Valid(a) && Valid(b)
    ensures Valid(a + b)
    decreases |a|
  {
    if |a| > 0 {
      var w := LeadWidth(a);
      LeadWidthPrefix(a, b);
      assert (a + b)[w..] == a[w..] + b;
      ValidAppend(a[w..], b);
    } else {
      assert a + b == b;
    }
  }

  /** Whatever a string holds, its encoding passes the check. */
  lemma {:induction false} EncodeValid(s: string)
    ensures Valid(Encode(s))
  {
    if |s| > 0 {
      var e, rest := EncodeChar(s[0]), Encode(s[1..]);
      EncodeValid(s[1..]);
      EncodeCharWellFormed(s[0], rest);
      assert (e + rest)[|e|..] == rest;
    }
  }

  /** The byte strings `from_utf8` turns away: a stray continuation byte, an
      overlong encoding, an encoded surrogate, a code point above U+10FFFF
      and a truncated sequence; the euro sign's three bytes pass. */
  lemma MalformedExamples()
    ensures !Valid([0x80])
    ensures !Valid([0xC0, 0x80])
    ensures !Valid([0xED, 0xA0, 0x80])
    ensures !Valid([0xF4, 0x90, 0x80, 0x80])
    ensures !Valid([0xE2, 0x82])
    ensures Valid([0xE2, 0x82, 0xAC])
  {
  }
}
