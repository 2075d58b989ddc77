/**
 The shortened hex renderer (`fmt`): a byte sequence is written as hex
 digits, and when the full rendering does not fit in the precision, a
 middle run of digits is replaced by the ellipsis `..` so that exactly
 `precision` characters are written.
 */
module HexFmt {
  import opened HexDigits

  datatype Option<T> = None | Some(value: T)

  /** The precision used when the formatter does not carry one. */
  const DEFAULT_PRECISION: nat := 10

  /** The marker that stands for the elided digits. */
  const ELLIPSIS: string := ".."

  /** `f.precision().unwrap_or(DEFAULT_PRECISION)`. */
  function PrecisionOrDefault(precision: Option<nat>): (p: nat) {
    match precision
    case Some(p) => p
    case None => DEFAULT_PRECISION
  }

  /** `usize::saturating_sub`: subtraction that stops at zero. */
  function SaturatingSub(a: nat, b: nat): (r: nat)
    ensures a <= r + b && (r == 0 || r + b == a)
  {
    if a >= b then a - b else 0
  }

  /** The number of hex digits shown left and right of the ellipsis:
      together they fill what the ellipsis leaves of the precision, and
      the left side gets the extra digit when that number is odd. */
  function Split(p: nat): (lr: (nat, nat))
    ensures lr.0 + lr.1 == SaturatingSub(p, |ELLIPSIS|)
    ensures lr.1 <= lr.0 <= lr.1 + 1
  {
    var numHexDigits := SaturatingSub(p, |ELLIPSIS|);
    var right := numHexDigits / 2;
    (numHexDigits - right, right)
  }

  /** The digits written left of the ellipsis: `left / 2` whole bytes from
      the start, then, when `left` is odd, the high nibble of the next byte. */
  function LeftDigits(bytes: seq<byte>, left: nat, cs: Case): (r: string)
    requires left / 2 < |bytes|
  {
    var m := left / 2;
    if left % 2 == 1 then Full(bytes[..m], cs) + [DigitChar(HighNibble(bytes[m]), cs)]
    else Full(bytes[..m], cs)
  }

  /** The digits written right of the ellipsis: when `right` is odd, the low
      nibble of the byte before the final run, then the last `right / 2`
      whole bytes. */
  function RightDigits(bytes: seq<byte>, right: nat, cs: Case): (r: string)
    requires right / 2 < |bytes|
  {
    var m := |bytes| - right / 2;
    if right % 2 == 1 then [DigitChar(LowNibble(bytes[m - 1]), cs)] + Full(bytes[m..], cs)
    else Full(bytes[m..], cs)
  }

  /** The middle of `s` replaced by the ellipsis: its first `left` and its
      last `right` characters around `..`. */
  function Elide(s: string, left: nat, right: nat): (r: string)
    requires left + right <= |s|
  {
    s[..left] + ELLIPSIS + s[|s| - right..]
  }

  /** What `fmt` writes for `bytes` at precision `p`, branch by branch:
      the full rendering when it fits (ties included), a prefix of the
      ellipsis when nothing else fits, and otherwise the first `left` and
      the last `right` digits of the full rendering around the ellipsis. */
  function Render(bytes: seq<byte>, p: nat, cs: Case): (r: string) {
    if 2 * |bytes| <= p then Full(bytes, cs)
    else if p <= |ELLIPSIS| then ELLIPSIS[..p]
    else Elide(Full(bytes, cs), Split(p).0, Split(p).1)
  }

  /** Every index and slice bound of the shortening branch is in range:
      the left run and its nibble byte, the right nibble byte and the right
      run, and the bytes the two sides touch never meet, so at least one
      byte is elided entirely. */
  lemma ShortenBounds(n: nat, p: nat)
    requires |ELLIPSIS| < p < 2 * n
    ensures var left, right := Split(p).0, Split(p).1;
      && left / 2 < n
      && right / 2 < n
      && (left + 1) / 2 + (right + 1) / 2 < n
  {
  }

  /** The shortening branch is what the code assembles: the left digits
      (whole bytes and a high nibble), the ellipsis, and the right digits
      (a low nibble and whole bytes). */
  lemma ShortenedPieces(bytes: seq<byte>, p: nat, cs: Case)
    requires |ELLIPSIS| < p < 2 * |bytes|
    ensures var (left, right) := Split(p);
      Render(bytes, p, cs) == LeftDigits(bytes, left, cs) + ELLIPSIS + RightDigits(bytes, right, cs)
  {
    ShortenBounds(|bytes|, p);
    ElidePieces(bytes, Split(p).0, Split(p).1, cs);
  }

  /** Eliding all but `left` leading and `right` trailing digits of the full
      rendering leaves the left digits, the ellipsis and the right digits. */
  lemma ElidePieces(bytes: seq<byte>, left: nat, right: nat, cs: Case)
    requires left / 2 < |bytes| && right / 2 < |bytes| && left + right <= 2 * |bytes|
    ensures Elide(Full(bytes, cs), left, right) == LeftDigits(bytes, left, cs) + ELLIPSIS + RightDigits(bytes, right, cs)
  {
    LeftDigitsSpec(bytes, left, cs);
    RightDigitsSpec(bytes, right, cs);
  }

  /** The left digits are the first `left` characters of the full rendering. */
  lemma LeftDigitsSpec(bytes: seq<byte>, left: nat, cs: Case)
    requires left / 2 < |bytes|
    ensures LeftDigits(bytes, left, cs) == Full(bytes, cs)[..left]
  {
    var m := left / 2;
    PrefixDigits(bytes, m, cs);
    if left % 2 == 1 {
      assert left == 2 * m + 1;
      NibbleAfterPrefix(bytes, m, cs);
    } else {
      assert left == 2 * m;
    }
  }

  /** The first `m` bytes render as the first `2 * m` characters of the full rendering. */
  lemma PrefixDigits(bytes: seq<byte>, m: nat, cs: Case)
    requires m <= |bytes|
    ensures Full(bytes[..m], cs) == Full(bytes, cs)[..2 * m]
  {
    FullSlice(bytes, 0, m, cs);
    assert bytes[..m] == bytes[0..m];
  }

  /** The high nibble of byte `m` is the character at position `2 * m`. */
  lemma NibbleAfterPrefix(bytes: seq<byte>, m: nat, cs: Case)
    requires m < |bytes|
    ensures Full(bytes, cs)[..2 * m] + [DigitChar(HighNibble(bytes[m]), cs)] == Full(bytes, cs)[..2 * m + 1]
  {
    var full := Full(bytes, cs);
    FullAt(bytes, m, cs);
    assert full[2 * m] == ByteChars(bytes[m], cs)[0];
  }

  /** The right digits are the last `right` characters of the full rendering. */
  lemma RightDigitsSpec(bytes: seq<byte>, right: nat, cs: Case)
    requires right / 2 < |bytes|
    ensures RightDigits(bytes, right, cs) == Full(bytes, cs)[2 * |bytes| - right..]
  {
    var m := |bytes| - right / 2;
    var tail := Full(bytes[m..], cs);
    SuffixDigits(bytes, m, cs);
    if right % 2 == 1 {
      var c := DigitChar(LowNibble(bytes[m - 1]), cs);
      assert RightDigits(bytes, right, cs) == [c] + tail;
      NibbleBeforeSuffix(bytes, m, cs);
      assert 2 * |bytes| - right == 2 * m - 1;
    } else {
      assert RightDigits(bytes, right, cs) == tail;
      assert 2 * |bytes| - right == 2 * m;
    }
  }

  /** The bytes from `m` on render as the full rendering from character `2 * m` on. */
  lemma SuffixDigits(bytes: seq<byte>, m: nat, cs: Case)
    requires m <= |bytes|
    ensures Full(bytes[m..], cs) == Full(bytes, cs)[2 * m..]
  {
    FullSlice(bytes, m, |bytes|, cs);
    assert bytes[m..] == bytes[m..|bytes|];
  }

  /** The low nibble of byte `m - 1` is the character just before position `2 * m`. */
  lemma NibbleBeforeSuffix(bytes: seq<byte>, m: nat, cs: Case)
    requires 0 < m <= |bytes|
    ensures [DigitChar(LowNibble(bytes[m - 1]), cs)] + Full(bytes, cs)[2 * m..] == Full(bytes, cs)[2 * m - 1..]
  {
    var full := Full(bytes, cs);
    FullAt(bytes, m - 1, cs);
    assert full[2 * m - 1] == ByteChars(bytes[m - 1], cs)[1];
    assert full[2 * m - 1..] == [full[2 * m - 1]] + full[2 * m..];
  }

  /** The rendering is exactly `min(p, 2 * |bytes|)` characters long: never
      longer than the precision, never longer than the full rendering. */
  lemma RenderLength(bytes: seq<byte>, p: nat, cs: Case)
    ensures |Render(bytes, p, cs)| == if p < 2 * |bytes| then p else 2 * |bytes|
  {
  }

  /** In the shortening branch the output has length `p`, holds the
      ellipsis exactly once (its two dots at positions `left` and
      `left + 1`) and hex digits of the chosen case everywhere else. */
  lemma RenderShape(bytes: seq<byte>, p: nat, cs: Case)
    requires |ELLIPSIS| < p < 2 * |bytes|
    ensures var r := Render(bytes, p, cs); var (left, _) := Split(p);
      && |r| == p
      && r[left..left + |ELLIPSIS|] == ELLIPSIS
      && forall k :: 0 <= k < |r| && k != left && k != left + 1 ==> IsHexDigit(r[k], cs)
  {
    var (left, right) := Split(p);
    var full := Full(bytes, cs);
    FullIsHex(bytes, cs);
    var a, b := full[..left], full[2 * |bytes| - right..];
    assert AllHexDigits(a, cs) by {
      forall k | 0 <= k < |a| ensures IsHexDigit(a[k], cs) { assert a[k] == full[k]; }
    }
    assert AllHexDigits(b, cs) by {
      forall k | 0 <= k < |b| ensures IsHexDigit(b[k], cs) { assert b[k] == full[2 * |bytes| - right + k]; }
    }
    ConcatShape(a, b, cs);
  }

  /** Digits, ellipsis, digits: the dots are exactly the two ellipsis positions. */
  lemma ConcatShape(a: string, b: string, cs: Case)
    requires AllHexDigits(a, cs) && AllHexDigits(b, cs)
    ensures var r := a + ELLIPSIS + b;
      && r[|a|..|a| + |ELLIPSIS|] == ELLIPSIS
      && forall k :: 0 <= k < |r| && k != |a| && k != |a| + 1 ==> IsHexDigit(r[k], cs)
  {
    var r := a + ELLIPSIS + b;
    forall k | 0 <= k < |r| && k != |a| && k != |a| + 1 ensures IsHexDigit(r[k], cs) {
      if k < |a| {
        assert r[k] == a[k];
      } else {
        assert r[k] == b[k - |a| - 2];
      }
    }
  }

  /** Upper-case and lower-case renderings differ only in the case of the
      letters `a`-`f`; digits and the ellipsis are the same. */
  lemma RenderCase(bytes: seq<byte>, p: nat)
    ensures Render(bytes, p, Upper) == ToUpper(Render(bytes, p, Lower))
  {
    FullCase(bytes);
    if 2 * |bytes| > p > |ELLIPSIS| {
      ElideCase(Full(bytes, Lower), Split(p).0, Split(p).1);
    } else if 2 * |bytes| > p {
      assert ToUpper(ELLIPSIS[..p]) == ELLIPSIS[..p];
    }
  }

  /** Eliding the middle of a string commutes with upper-casing it. */
  lemma ElideCase(s: string, left: nat, right: nat)
    requires left + right <= |s|
    ensures Elide(ToUpper(s), left, right) == ToUpper(Elide(s, left, right))
  {
    var from := |s| - right;
    ToUpperConcat(s[..left] + ELLIPSIS, s[from..]);
    ToUpperConcat(s[..left], ELLIPSIS);
    assert ToUpper(s)[..left] == ToUpper(s[..left]);
    assert ToUpper(s)[from..] == ToUpper(s[from..]);
    assert ToUpper(ELLIPSIS) == ELLIPSIS;
  }

  /** The ellipsis-only branch does not look at the bytes: it writes the
      first `p` characters of the ellipsis whatever they are. */
  lemma EllipsisIgnoresBytes(a: seq<byte>, b: seq<byte>, p: nat, cs: Case)
    requires p <= |ELLIPSIS| && p < 2 * |a| && p < 2 * |b|
    ensures Render(a, p, cs) == Render(b, p, cs) == ELLIPSIS[..p]
  {
  }

  /** `for byte in &bytes[lo..hi] { fmt_byte(f, *byte, case)? }`: appends
      two digits per byte of the range. */
  method WriteBytes(bytes: seq<byte>, lo: nat, hi: nat, cs: Case, buf: string) returns (out: string)
    requires lo <= hi <= |bytes|
    ensures out == buf + Full(bytes[lo..hi], cs)
  {
    out := buf;
    for i := lo to hi
      invariant out == buf + Full(bytes[lo..i], cs)
    {
      FullStep(bytes, lo, i, cs);
      AppendAssoc(buf, Full(bytes[lo..i], cs), ByteChars(bytes[i], cs));
      out := out + ByteChars(bytes[i], cs);
    }
  }

  /** The digits left of the ellipsis: the leading whole bytes, then the
      high nibble of the next byte when `left` is odd. */
  method WriteLeft(bytes: seq<byte>, left: nat, cs: Case, buf: string) returns (out: string)
    requires left / 2 < |bytes|
    ensures out == buf + LeftDigits(bytes, left, cs)
  {
    out := WriteBytes(bytes, 0, left / 2, cs, buf);
    assert bytes[0..left / 2] == bytes[..left / 2];
    if left % 2 == 1 {
      out := out + [DigitChar(HighNibble(bytes[left / 2]), cs)];
    }
  }

  /** The digits right of the ellipsis: the low nibble of the byte before
      the trailing run when `right` is odd, then the trailing whole bytes. */
  method WriteRight(bytes: seq<byte>, right: nat, cs: Case, buf: string) returns (out: string)
    requires right / 2 < |bytes|
    ensures out == buf + RightDigits(bytes, right, cs)
  {
    out := buf;
    if right % 2 == 1 {
      out := out + [DigitChar(LowNibble(bytes[|bytes| - right / 2 - 1]), cs)];
    }
    out := WriteBytes(bytes, |bytes| - right / 2, |bytes|, cs, out);
    assert bytes[|bytes| - right / 2..|bytes|] == bytes[|bytes| - right / 2..];
  }

  /** `fmt`: streams the rendering into the buffer `buf`. */
  method Fmt(bytes: seq<byte>, precision: Option<nat>, cs: Case, buf: string) returns (out: string)
    ensures out == buf + Render(bytes, PrecisionOrDefault(precision), cs)
  {
    var p := PrecisionOrDefault(precision);

    if 2 * |bytes| <= p {
      out := WriteBytes(bytes, 0, |bytes|, cs, buf);
      assert bytes[0..|bytes|] == bytes;
      return;
    }

    if p <= |ELLIPSIS| {
      out := buf + ELLIPSIS[..p];
      return;
    }

    var numHexDigits := SaturatingSub(p, |ELLIPSIS|);
    var right := numHexDigits / 2;
    var left := numHexDigits - right;
    assert left == Split(p).0 && right == Split(p).1;
    ShortenBounds(|bytes|, p);
    ShortenedPieces(bytes, p, cs);

    ghost var leftDigits := LeftDigits(bytes, left, cs);
    out := WriteLeft(bytes, left, cs, buf);
    out := out + ELLIPSIS;
    out := WriteRight(bytes, right, cs, out);
    AppendAssoc(buf, leftDigits + ELLIPSIS, RightDigits(bytes, right, cs));
    AppendAssoc(buf, leftDigits, ELLIPSIS);
  }

  /** The crate documentation's examples: `[9, 10, 11]` fits the default precision. */
  lemma DocExampleFits()
    ensures Render([9, 10, 11], DEFAULT_PRECISION, Lower) == "090a0b"
  {
    assert ByteChars(9, Lower) == "09" && ByteChars(10, Lower) == "0a" && ByteChars(11, Lower) == "0b";
    assert Full([11], Lower) == "0b";
    assert Full([10, 11], Lower) == "0a0b";
  }

  /** `9..15` at precision 7: three digits left, two right. */
  lemma DocExampleSeven(nineToF: seq<byte>)
    // The bytes are a parameter: a literal argument would let Dafny unfold `Full` without limit.
    requires nineToF == [9, 10, 11, 12, 13, 14, 15]
    ensures Render(nineToF, 7, Lower) == "090..0f"
  {
    ShortenedPieces(nineToF, 7, Lower);
    assert Split(7) == (3, 2);
    assert nineToF[..1] == [9] && nineToF[6..] == [15];
    assert ByteChars(9, Lower) == "09" && ByteChars(15, Lower) == "0f";
    assert Full([9], Lower) == "09" && Full([15], Lower) == "0f";
    assert LeftDigits(nineToF, 3, Lower) == "090";
    assert RightDigits(nineToF, 2, Lower) == "0f";
  }

  /** `9..15` at precision 8 in upper case: three digits on each side. */
  lemma DocExampleEightUpper(nineToF: seq<byte>)
    // The bytes are a parameter: a literal argument would let Dafny unfold `Full` without limit.
    requires nineToF == [9, 10, 11, 12, 13, 14, 15]
    ensures Render(nineToF, 8, Upper) == "090..E0F"
  {
    ShortenedPieces(nineToF, 8, Upper);
    assert Split(8) == (3, 3);
    assert nineToF[..1] == [9] && nineToF[6..] == [15];
    assert ByteChars(9, Upper) == "09" && ByteChars(15, Upper) == "0F";
    assert Full([9], Upper) == "09" && Full([15], Upper) == "0F";
    assert LeftDigits(nineToF, 3, Upper) == "090";
    assert RightDigits(nineToF, 3, Upper) == "E0F";
  }

  /** `9..15` at the default precision: four digits on each side. */
  lemma DocExampleDefault(nineToF: seq<byte>)
    // The bytes are a parameter: a literal argument would let Dafny unfold `Full` without limit.
    requires nineToF == [9, 10, 11, 12, 13, 14, 15]
    ensures Render(nineToF, DEFAULT_PRECISION, Lower) == "090a..0e0f"
  {
    ShortenedPieces(nineToF, DEFAULT_PRECISION, Lower);
    assert Split(10) == (4, 4);
    assert LeftDigits(nineToF, 4, Lower) == "090a" by {
      assert nineToF[..2] == [9, 10];
      assert ByteChars(9, Lower) == "09" && ByteChars(10, Lower) == "0a";
      assert Full([10], Lower) == "0a" && Full([9, 10], Lower) == "090a";
    }
    assert RightDigits(nineToF, 4, Lower) == "0e0f" by {
      assert nineToF[5..] == [14, 15];
      assert ByteChars(14, Lower) == "0e" && ByteChars(15, Lower) == "0f";
      assert Full([15], Lower) == "0f" && Full([14, 15], Lower) == "0e0f";
    }
  }

  /** The crate's unit tests: tiny precisions. */
  lemma TestExamples()
    ensures Render([0x01], 0, Lower) == ""
    ensures Render([0x01], 1, Lower) == "."
    ensures Render([0x01], 2, Lower) == "01"
    ensures Render([0x01, 0x23], 2, Lower) == ".."
  {
    assert ByteChars(1, Lower) == "01";
    assert Full([1], Lower) == "01";
  }
}
