/**
 The list renderer (`HexList`): a list of byte sequences is written as
 `[e0, e1, ...]`, each element by the shortened renderer with the same
 precision and case as the whole list. The lower-case view goes through
 the standard library's `debug_list` builder, the upper-case view through
 a hand-written loop; both produce the same bracket-join.
 */
module HexList {
  import opened HexDigits
  import opened HexFmt

  /** The separator written between two list entries. */
  const SEPARATOR: string := ", "

  /** Every element rendered by the shortened renderer at one precision and case. */
  function RenderEach(items: seq<seq<byte>>, p: nat, cs: Case): (r: seq<string>)
    ensures |r| == |items|
  {
    seq(|items|, i requires 0 <= i < |items| => Render(items[i], p, cs))
  }

  /** The parts with `sep` between neighbours, none before the first or after the last. */
  function Join(parts: seq<string>, sep: string): (r: string) {
    if |parts| == 0 then ""
    else if |parts| == 1 then parts[0]
    else parts[0] + sep + Join(parts[1..], sep)
  }

  /** The declarative list rendering: `"[" + e0 + ", " + e1 + ... + "]"`. */
  function BracketJoin(parts: seq<string>): (r: string) {
    "[" + Join(parts, SEPARATOR) + "]"
  }

  /** Appending a part to a non-empty list appends the separator and the part. */
  lemma {:induction false} JoinSnoc(parts: seq<string>, x: string, sep: string)
    ensures Join(parts + [x], sep) == if parts == [] then x else Join(parts, sep) + sep + x
  {
    if |parts| == 1 {
      assert parts + [x] == [parts[0], x];
      assert [parts[0], x][1..] == [x];
    } else if |parts| > 1 {
      assert (parts + [x])[1..] == parts[1..] + [x];
      JoinSnoc(parts[1..], x, sep);
    } else {
      assert parts + [x] == [x];
    }
  }

  /** `DebugList::entry` as the standard library writes it in the plain
      (non-alternate) form: a separator before every entry but the first. */
  function DebugEntries(hasFields: bool, entries: seq<string>): (r: string)
    ensures hasFields && entries != [] ==> SEPARATOR <= r
    ensures !hasFields && entries != [] ==> entries[0] <= r
    decreases entries
  {
    if entries == [] then ""
    else (if hasFields then SEPARATOR else "") + entries[0] + DebugEntries(true, entries[1..])
  }

  /** Once one entry is written, each further entry is preceded by the separator. */
  lemma {:induction false} DebugEntriesAfterFirst(entries: seq<string>)
    ensures DebugEntries(true, entries) == if entries == [] then "" else SEPARATOR + Join(entries, SEPARATOR)
  {
    if entries != [] {
      DebugEntriesAfterFirst(entries[1..]);
    }
  }

  /** Starting with no entry written, the entries come out joined by the separator. */
  lemma DebugEntriesJoin(entries: seq<string>)
    ensures DebugEntries(false, entries) == Join(entries, SEPARATOR)
  {
    if entries != [] {
      DebugEntriesAfterFirst(entries[1..]);
    }
  }

  /** `f.debug_list().entries(entries).finish()`: the `debug_list` route
      yields exactly the bracket-join of its entries. */
  function DebugList(entries: seq<string>): (r: string)
    ensures r == BracketJoin(entries)
  {
    DebugEntriesJoin(entries);
    "[" + DebugEntries(false, entries) + "]"
  }

  /** `LowerHex` for `HexList` (also its `Debug` and `Display`): the
      elements' lower-case renderings, through `debug_list`. */
  function FmtListLower(items: seq<seq<byte>>, precision: Option<nat>): (r: string)
    ensures r == BracketJoin(RenderEach(items, PrecisionOrDefault(precision), Lower))
  {
    DebugList(RenderEach(items, PrecisionOrDefault(precision), Lower))
  }

  /** One more part of a non-empty prefix: the separator, then the part. */
  lemma JoinPrefixStep(parts: seq<string>, i: nat, sep: string)
    requires 1 <= i < |parts|
    ensures Join(parts[..i + 1], sep) == Join(parts[..i], sep) + sep + parts[i]
  {
    assert parts[..i + 1] == parts[..i] + [parts[i]];
    JoinSnoc(parts[..i], parts[i], sep);
  }

  /** One step of the list loop: after the entries before `i` have been
      written, the separator and entry `i` extend the join by one part. */
  lemma ListStep(written: string, parts: seq<string>, i: nat, out: string)
    requires 1 <= i < |parts|
    requires out == written + Join(parts[..i], SEPARATOR)
    ensures out + SEPARATOR + parts[i] == written + Join(parts[..i + 1], SEPARATOR)
  {
    JoinPrefixStep(parts, i, SEPARATOR);
  }

  /** `for item in iter { write!(f, ", ")?; ... }`: after the first element
      has been written behind `written`, writes `, ` and each further
      element, completing the join of all the elements. */
  method WriteRest(items: seq<seq<byte>>, precision: Option<nat>, written: string, first: string) returns (out: string)
    requires |items| > 0
    requires first == written + Render(items[0], PrecisionOrDefault(precision), Upper)
    ensures out == written + Join(RenderEach(items, PrecisionOrDefault(precision), Upper), SEPARATOR)
  {
    ghost var parts := RenderEach(items, PrecisionOrDefault(precision), Upper);
    assert parts[..1] == [parts[0]];
    out := first;
    var i := 1;
    while i < |items|
      invariant 1 <= i <= |items|
      invariant out == written + Join(parts[..i], SEPARATOR)
    {
      ListStep(written, parts, i, out);
      out := Fmt(items[i], precision, Upper, out + SEPARATOR);
      i := i + 1;
    }
    assert parts[..i] == parts;
  }

  /** `UpperHex` for `HexList`: writes `[`, the first element, then `, `
      and the element for each further one, then `]`. */
  method FmtListUpper(items: seq<seq<byte>>, precision: Option<nat>, buf: string) returns (out: string)
    ensures out == buf + BracketJoin(RenderEach(items, PrecisionOrDefault(precision), Upper))
  {
    out := buf + "[";
    if |items| > 0 {
      out := Fmt(items[0], precision, Upper, out);
      out := WriteRest(items, precision, buf + "[", out);
    }
    out := out + "]";
  }

  /** Upper-casing a join is joining the upper-cased parts. */
  lemma {:induction false} JoinUpper(upper: seq<string>, lower: seq<string>)
    requires |upper| == |lower|
    requires forall i :: 0 <= i < |lower| ==> upper[i] == ToUpper(lower[i])
    ensures Join(upper, SEPARATOR) == ToUpper(Join(lower, SEPARATOR))
  {
    if |lower| > 1 {
      JoinUpper(upper[1..], lower[1..]);
      var rest := Join(lower[1..], SEPARATOR);
      ToUpperConcat(lower[0] + SEPARATOR, rest);
      ToUpperConcat(lower[0], SEPARATOR);
      assert ToUpper(SEPARATOR) == SEPARATOR;
    }
  }

  /** The upper-case and lower-case list views differ only in the case of
      the letters `a`-`f`; brackets, separators, digits and ellipses agree. */
  lemma ListCase(items: seq<seq<byte>>, p: nat)
    ensures BracketJoin(RenderEach(items, p, Upper)) == ToUpper(BracketJoin(RenderEach(items, p, Lower)))
  {
    var upper, lower := RenderEach(items, p, Upper), RenderEach(items, p, Lower);
    forall i | 0 <= i < |items| ensures upper[i] == ToUpper(lower[i]) {
      RenderCase(items[i], p);
    }
    JoinUpper(upper, lower);
    var inner := Join(lower, SEPARATOR);
    ToUpperConcat("[" + inner, "]");
    ToUpperConcat("[", inner);
    assert ToUpper("[") == "[" && ToUpper("]") == "]";
  }

  /** The empty list is `[]`; a one-element list is that element in brackets. */
  lemma ListSmall(item: seq<byte>, p: nat, cs: Case)
    ensures BracketJoin(RenderEach([], p, cs)) == "[]"
    ensures BracketJoin(RenderEach([item], p, cs)) == "[" + Render(item, p, cs) + "]"
  {
    assert RenderEach([item], p, cs) == [Render(item, p, cs)];
  }

  /** The crate documentation's lower-case list example, `b"AB"` and `b"BA"`. */
  lemma ListExampleLower(items: seq<seq<byte>>)
    // The items are a parameter: a literal argument would let Dafny unfold `Full` without limit.
    requires items == [[0x41, 0x42], [0x42, 0x41]]
    ensures FmtListLower(items, None) == "[4142, 4241]"
  {
    assert ByteChars(0x41, Lower) == "41" && ByteChars(0x42, Lower) == "42";
    assert Full([0x42], Lower) == "42" && Full([0x41], Lower) == "41";
    assert Render(items[0], DEFAULT_PRECISION, Lower) == "4142";
    assert Render(items[1], DEFAULT_PRECISION, Lower) == "4241";
    assert RenderEach(items, DEFAULT_PRECISION, Lower) == ["4142", "4241"];
    assert ["4142", "4241"][1..] == ["4241"];
  }

  /** The crate documentation's upper-case list example, `b"JK"` and `b"KJ"`. */
  lemma ListExampleUpper(items: seq<seq<byte>>)
    // The items are a parameter: a literal argument would let Dafny unfold `Full` without limit.
    requires items == [[0x4A, 0x4B], [0x4B, 0x4A]]
    ensures BracketJoin(RenderEach(items, DEFAULT_PRECISION, Upper)) == "[4A4B, 4B4A]"
  {
    assert ByteChars(0x4A, Upper) == "4A" && ByteChars(0x4B, Upper) == "4B";
    assert Full([0x4B], Upper) == "4B" && Full([0x4A], Upper) == "4A";
    assert Render(items[0], DEFAULT_PRECISION, Upper) == "4A4B";
    assert Render(items[1], DEFAULT_PRECISION, Upper) == "4B4A";
    assert RenderEach(items, DEFAULT_PRECISION, Upper) == ["4A4B", "4B4A"];
    assert ["4A4B", "4B4A"][1..] == ["4B4A"];
  }
}
