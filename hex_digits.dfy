/**
 The digit encoders of the hex formatter: a nibble becomes one hexadecimal
 digit, a byte becomes two zero-padded digits, and a byte sequence becomes
 the concatenation of its bytes' two-digit renderings. `Case` selects the
 letters used for the digits ten to fifteen.
 */
module HexDigits {

  /** An unsigned 8-bit value (`u8`). */
  type byte = x: int | 0 <= x < 256

  /** Upper case renders `0-9A-F`, lower case renders `0-9a-f`. */
  datatype Case = Upper | Lower

  /** A hexadecimal digit of either case. */
  predicate IsHexChar(ch: char) {
    '0' <= ch <= '9' || 'a' <= ch <= 'f' || 'A' <= ch <= 'F'
  }

  /** A hexadecimal digit as written in the given case. */
  predicate IsHexDigit(ch: char, cs: Case) {
    '0' <= ch <= '9' || (cs == Lower && 'a' <= ch <= 'f') || (cs == Upper && 'A' <= ch <= 'F')
  }

  /** The value a hexadecimal digit stands for (the reading direction). */
  function DigitValue(ch: char): (v: nat)
    requires IsHexChar(ch)
    ensures v < 16
  {
    if '0' <= ch <= '9' then ch as int - '0' as int
    else if 'a' <= ch <= 'f' then ch as int - 'a' as int + 10
    else ch as int - 'A' as int + 10
  }

  /** `fmt_digit`: one hexadecimal digit for a value below sixteen. */
  function DigitChar(d: nat, cs: Case): (c: char)
    requires d < 16
  {
    if d < 10 then ('0' as int + d) as char
    else if cs == Upper then ('A' as int + d - 10) as char
    else ('a' as int + d - 10) as char
  }

  /** The digit written for `d` is a hex digit of the requested case and
      reads back as `d`. */
  lemma DigitCharSpec(d: nat, cs: Case)
    requires d < 16
    ensures IsHexDigit(DigitChar(d, cs), cs) && IsHexChar(DigitChar(d, cs))
    ensures DigitValue(DigitChar(d, cs)) == d
  {
  }

  /** The value of a pair of hex digits, high digit first. */
  function PairValue(hi: char, lo: char): (v: nat)
    requires IsHexChar(hi) && IsHexChar(lo)
    ensures v < 256
  {
    DigitValue(hi) * 16 + DigitValue(lo)
  }

  /** `fmt_byte`: a byte as two zero-padded hexadecimal digits, high digit first. */
  function ByteChars(b: byte, cs: Case): (r: string)
    ensures |r| == 2
  {
    [DigitChar(HighNibble(b), cs), DigitChar(LowNibble(b), cs)]
  }

  /** A byte is written as two hex digits of the requested case, which read
      back (high digit times sixteen plus low digit) as the byte. */
  lemma ByteCharsSpec(b: byte, cs: Case)
    ensures var r := ByteChars(b, cs);
      && IsHexDigit(r[0], cs) && IsHexDigit(r[1], cs)
      && IsHexChar(r[0]) && IsHexChar(r[1]) && PairValue(r[0], r[1]) == b
  {
    DigitCharSpec(HighNibble(b), cs);
    DigitCharSpec(LowNibble(b), cs);
  }

  /** The high nibble of a byte, the digit its rendering starts with. */
  function HighNibble(b: byte): (d: nat)
    ensures d < 16 && d * 16 <= b < d * 16 + 16
  {
    b / 16
  }

  /** The low nibble of a byte, the digit its rendering ends with. */
  function LowNibble(b: byte): (d: nat)
    ensures d < 16 && d == b - HighNibble(b) * 16
  {
    b % 16
  }

  /** The nibbles are what the bit operations `byte >> 4` and `byte & 0x0f`
      compute on the 8-bit value. */
  lemma NibbleBits(x: bv8)
    ensures HighNibble(x as int) == (x >> 4) as int
    ensures LowNibble(x as int) == (x & 0x0f) as int
  {
  }

  /** The unshortened rendering: every byte as two digits, in order. */
  function Full(bytes: seq<byte>, cs: Case): (r: string)
    ensures |r| == 2 * |bytes|
  {
    if bytes == [] then [] else ByteChars(bytes[0], cs) + Full(bytes[1..], cs)
  }

  /** The rendering of a concatenation is the concatenation of the renderings. */
  lemma {:induction false} FullConcat(a: seq<byte>, b: seq<byte>, cs: Case)
    ensures Full(a + b, cs) == Full(a, cs) + Full(b, cs)
  {
    if a == [] {
      assert a + b == b;
    } else {
      assert (a + b)[1..] == a[1..] + b;
      FullConcat(a[1..], b, cs);
      AppendAssoc(ByteChars(a[0], cs), Full(a[1..], cs), Full(b, cs));
    }
  }

  /** The rendering of a byte range is the matching character range of the full rendering. */
  lemma FullSlice(bytes: seq<byte>, i: nat, j: nat, cs: Case)
    requires i <= j <= |bytes|
    ensures Full(bytes[i..j], cs) == Full(bytes, cs)[2 * i..2 * j]
  {
    assert bytes == bytes[..i] + bytes[i..j] + bytes[j..];
    FullConcat(bytes[..i] + bytes[i..j], bytes[j..], cs);
    FullConcat(bytes[..i], bytes[i..j], cs);
    SliceMiddle(Full(bytes[..i], cs), Full(bytes[i..j], cs), Full(bytes[j..], cs));
  }

  /** The middle part of a three-part string, recovered by slicing. */
  lemma SliceMiddle(a: string, b: string, c: string)
    ensures (a + b + c)[|a|..|a| + |b|] == b
  {
  }

  /** Byte `i` occupies exactly characters `2*i` and `2*i+1` of the full rendering. */
  lemma FullAt(bytes: seq<byte>, i: nat, cs: Case)
    requires i < |bytes|
    ensures Full(bytes, cs)[2 * i..2 * i + 2] == ByteChars(bytes[i], cs)
  {
    FullSlice(bytes, i, i + 1, cs);
    assert bytes[i..i + 1] == [bytes[i]];
  }

  /** Every character of `s` is a hex digit of case `cs`. */
  predicate AllHexDigits(s: string, cs: Case) {
    forall k :: 0 <= k < |s| ==> IsHexDigit(s[k], cs)
  }

  /** The full rendering consists of hex digits of the chosen case only. */
  lemma FullIsHex(bytes: seq<byte>, cs: Case)
    ensures AllHexDigits(Full(bytes, cs), cs)
  {
    var r := Full(bytes, cs);
    forall k | 0 <= k < |r| ensures IsHexDigit(r[k], cs) {
      var i := k / 2;
      FullAt(bytes, i, cs);
      ByteCharsSpec(bytes[i], cs);
      assert r[k] == r[2 * i..2 * i + 2][k - 2 * i];
    }
  }

  /** Each pair of digits of the full rendering reads back as the byte it came from. */
  lemma FullDecodes(bytes: seq<byte>, cs: Case)
    ensures forall i :: 0 <= i < |bytes| ==>
      var full := Full(bytes, cs);
      IsHexChar(full[2 * i]) && IsHexChar(full[2 * i + 1]) && PairValue(full[2 * i], full[2 * i + 1]) == bytes[i]
  {
    var full := Full(bytes, cs);
    forall i | 0 <= i < |bytes|
      ensures IsHexChar(full[2 * i]) && IsHexChar(full[2 * i + 1]) && PairValue(full[2 * i], full[2 * i + 1]) == bytes[i]
    {
      FullAt(bytes, i, cs);
      ByteCharsSpec(bytes[i], cs);
      assert full[2 * i] == ByteChars(bytes[i], cs)[0];
      assert full[2 * i + 1] == ByteChars(bytes[i], cs)[1];
    }
  }

  /** Appending one byte appends its two digits: the step of a rendering loop. */
  lemma FullStep(bytes: seq<byte>, j: nat, i: nat, cs: Case)
    requires j <= i < |bytes|
    ensures Full(bytes[j..i + 1], cs) == Full(bytes[j..i], cs) + ByteChars(bytes[i], cs)
  {
    assert bytes[j..i + 1] == bytes[j..i] + [bytes[i]];
    FullConcat(bytes[j..i], [bytes[i]], cs);
    assert Full([bytes[i]], cs) == ByteChars(bytes[i], cs) + Full([], cs);
  }

  /** Regrouping of a concatenation; stated over plain strings so that it
      is cheap to use where the parts are large rendering terms. */
  lemma AppendAssoc(a: string, b: string, c: string)
    ensures a + (b + c) == a + b + c
  {
  }

  /** Upper-casing of ASCII letters; every other character is left alone. */
  function UpperAscii(ch: char): (u: char) {
    if 'a' <= ch <= 'z' then (ch as int - 32) as char else ch
  }

  /** Upper-cases the letters of a string, character by character. */
  function ToUpper(s: string): (r: string) {
    seq(|s|, i requires 0 <= i < |s| => UpperAscii(s[i]))
  }

  lemma ToUpperConcat(s: string, t: string)
    ensures ToUpper(s + t) == ToUpper(s) + ToUpper(t)
  {
  }

  /** An upper-case digit is the lower-case digit with its letter upper-cased. */
  lemma DigitCharCase(d: nat)
    requires d < 16
    ensures DigitChar(d, Upper) == UpperAscii(DigitChar(d, Lower))
  {
  }

  /** The two case renderings of a byte differ only in the case of `a`-`f`. */
  lemma ByteCharsCase(b: byte)
    ensures ByteChars(b, Upper) == ToUpper(ByteChars(b, Lower))
  {
    DigitCharCase(HighNibble(b));
    DigitCharCase(LowNibble(b));
    assert ToUpper(ByteChars(b, Lower))[0] == UpperAscii(DigitChar(HighNibble(b), Lower));
  }

  /** The two case renderings of a byte sequence differ only in the case of `a`-`f`. */
  lemma {:induction false} FullCase(bytes: seq<byte>)
    ensures Full(bytes, Upper) == ToUpper(Full(bytes, Lower))
  {
    if bytes != [] {
      FullCase(bytes[1..]);
      ByteCharsCase(bytes[0]);
      ToUpperConcat(ByteChars(bytes[0], Lower), Full(bytes[1..], Lower));
    }
  }
}
