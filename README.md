# hex_fmt in Dafny

A model of the Rust crate `hex_fmt`. The crate writes byte slices, and lists of
byte slices, as hexadecimal strings. When the full rendering (two digits per
byte) is longer than the formatter's precision, it replaces a middle run of
digits with the ellipsis `..`, so that exactly `precision` characters are
written. The precision defaults to 10.

The project has three modules:

- `HexDigits` (`hex_digits.dfy`) holds the digit encoders:
  - `fmt_digit` is `DigitChar`.
  - `fmt_byte` is `ByteChars`.
  - `Case` selects the letter case.
  - `Full` is the unshortened rendering of a byte sequence.
  - `ToUpper` maps lower-case letters to upper case.
- `HexFmt` (`hex_fmt.dfy`) holds the shortened renderer `fmt`:
  - `Render` is the specification function, with the source's three branches.
  - `Fmt` is the imperative routine. It mirrors the source's loops and nibble writes and is proved equal to `Render`.
- `HexList` (`hex_list.dfy`) holds the list views:
  - `LowerHex` goes through the standard library's `debug_list` builder (`FmtListLower`).
  - `UpperHex` is the hand-written loop (`FmtListUpper`).
  - Both are proved equal to one declarative bracket-join.

The Rust `Formatter` is modelled as a plain output string:
- Each writing method takes the text written so far (`buf`) and returns it extended.
- The precision is an `Option<nat>`, resolved as `f.precision().unwrap_or(DEFAULT_PRECISION)` resolves it.
- A byte is the subset type `byte` (0 to 255).
- `byte >> 4` and `byte & 0x0f` are the functions `HighNibble` and `LowNibble`; `NibbleBits` shows that they agree with the 8-bit operations.
- `left & 1 == 1` is written `left % 2 == 1`.

List elements are rendered at the same precision as the whole list. The source passes its own formatter `f` to every element:
- `UpperHex` passes it directly.
- `LowerHex` passes it through `debug_list`, whose non-alternate entries are written with the same formatter.

## Model

| member | source | states |
|---|---|---|
| HexDigits.DigitChar | src/lib.rs:154-159 | `fmt_digit`: the one digit `{:1x}` / `{:1X}` writes for a value below 16 (no contract of its own; `DigitCharSpec` states its properties) |
| HexDigits.DigitCharSpec | src/lib.rs:154-159 | the digit written for a nibble is a hex digit of the requested case and reads back as that nibble |
| HexDigits.ByteChars | src/lib.rs:147-152 | `fmt_byte`: a byte is written as exactly two characters, the `{:02x}` / `{:02X}` zero-padded form |
| HexDigits.ByteCharsSpec | src/lib.rs:147-152 | a byte is written as exactly two zero-padded digits of the requested case, high digit first, and they read back as the byte |
| HexDigits.HighNibble | src/lib.rs:130 | the value `bytes[left / 2] >> 4` passed to `fmt_digit`: the digit below 16 with `16 * d <= b < 16 * d + 16` |
| HexDigits.LowNibble | src/lib.rs:138 | the value `byte & 0x0f` passed to `fmt_digit`: the digit below 16 that remains after taking out sixteen times the high nibble |
| HexDigits.NibbleBits | src/lib.rs:128-138 | the high and low nibble are what `byte >> 4` and `byte & 0x0f` compute on the 8-bit value |
| HexDigits.Full | src/lib.rs:107-110 | the unshortened rendering has exactly two characters per byte |
| HexDigits.FullConcat | src/lib.rs:107-110 | rendering a concatenation is concatenating the renderings |
| HexDigits.FullSlice | src/lib.rs:124-143 | rendering a byte range gives the matching character range of the full rendering |
| HexDigits.FullAt | src/lib.rs:107-110 | byte `i` occupies exactly characters `2i` and `2i+1` of the full rendering |
| HexDigits.FullStep | src/lib.rs:108-110 | one more byte appends exactly its two digits (the step of every byte loop) |
| HexDigits.FullIsHex | src/lib.rs:107-110 | the full rendering consists only of hex digits of the chosen case |
| HexDigits.FullDecodes | src/lib.rs:107-110 | each digit pair of the full rendering reads back as the byte it came from |
| HexDigits.ByteCharsCase | src/lib.rs:147-152 | the upper-case and lower-case renderings of a byte differ only in the case of `a`-`f` |
| HexDigits.FullCase | src/lib.rs:147-152 | the upper-case and lower-case full renderings differ only in the case of `a`-`f` |
| HexFmt.PrecisionOrDefault | src/lib.rs:104 | `f.precision().unwrap_or(DEFAULT_PRECISION)`: the given precision when there is one, 10 otherwise (no contract of its own; `Fmt` and the default-precision examples use it) |
| HexFmt.SaturatingSub | src/lib.rs:120 | `saturating_sub`: the difference when it is not negative, zero otherwise |
| HexFmt.Split | src/lib.rs:120-122 | left and right digit counts together fill what the ellipsis leaves of the precision, and left gets the extra digit when that number is odd |
| HexFmt.LeftDigits | src/lib.rs:124-131 | the digits written left of the ellipsis: `left / 2` whole bytes, then the high nibble of the next byte when `left` is odd (no contract of its own; `LeftDigitsSpec` states what they are) |
| HexFmt.RightDigits | src/lib.rs:136-143 | the digits written right of the ellipsis: the low nibble of the byte before the trailing run when `right` is odd, then the last `right / 2` whole bytes (no contract of its own; `RightDigitsSpec` states what they are) |
| HexFmt.Render | src/lib.rs:102-145 | the specification of `fmt`, branch by branch: the full rendering when `2 * len <= p`, the first `p` characters of the ellipsis when `p <= 2`, otherwise the first `left` and last `right` digits of the full rendering around the ellipsis (no contract of its own; `Fmt`, `ShortenedPieces`, `RenderLength`, `RenderShape` and `RenderCase` state its properties) |
| HexFmt.ShortenBounds | src/lib.rs:119-143 | in the shortening branch every index and slice bound is in range, and the bytes touched on the two sides do not meet, so at least one whole byte is elided |
| HexFmt.LeftDigitsSpec | src/lib.rs:124-131 | the whole bytes plus the optional high nibble written left of the ellipsis are the first `left` characters of the full rendering |
| HexFmt.RightDigitsSpec | src/lib.rs:136-143 | the optional low nibble plus the trailing whole bytes written right of the ellipsis are the last `right` characters of the full rendering |
| HexFmt.ElidePieces | src/lib.rs:124-143 | left digits, ellipsis and right digits together are the full rendering with its middle replaced by the ellipsis |
| HexFmt.ShortenedPieces | src/lib.rs:119-143 | the shortening branch of the specification equals what the code assembles from whole bytes, nibbles and the ellipsis |
| HexFmt.RenderLength | src/lib.rs:102-145 | the output is exactly `min(precision, 2 * len)` characters long |
| HexFmt.RenderShape | src/lib.rs:119-145 | in the shortening branch the output has length `p`, holds the ellipsis once (at positions `left` and `left+1`) and hex digits of the chosen case everywhere else |
| HexFmt.RenderCase | src/lib.rs:102-159 | the upper-case and lower-case renderings differ only in the case of `a`-`f` |
| HexFmt.ElideCase | src/lib.rs:119-143 | eliding the middle of a string commutes with upper-casing it |
| HexFmt.EllipsisIgnoresBytes | src/lib.rs:114-117 | when the precision is at most the ellipsis length and the bytes do not fit, the output is the first `p` characters of the ellipsis, whatever the bytes |
| HexFmt.WriteBytes | src/lib.rs:108-110 | the byte loop appends the full rendering of the byte range |
| HexFmt.WriteLeft | src/lib.rs:124-131 | appends `left / 2` leading bytes and, when `left` is odd, the high nibble of the next byte |
| HexFmt.WriteRight | src/lib.rs:136-143 | appends, when `right` is odd, the low nibble of the byte before the trailing run, then the last `right / 2` bytes |
| HexFmt.Fmt | src/lib.rs:102-145 | appends exactly the specified rendering: everything when `2 * len <= precision` (ties included), a prefix of the ellipsis when the precision is at most 2, otherwise left digits, ellipsis, right digits |
| HexFmt.DocExampleFits | src/lib.rs:10 | `[9, 10, 11]` at the default precision is `090a0b` |
| HexFmt.DocExampleSeven | src/lib.rs:11-12 | `9..15` at precision 7 is `090..0f` |
| HexFmt.DocExampleEightUpper | src/lib.rs:11-13 | `9..15` at precision 8 in upper case is `090..E0F` |
| HexFmt.DocExampleDefault | src/lib.rs:11-14 | `9..15` at the default precision is `090a..0e0f` |
| HexFmt.TestExamples | src/lib.rs:172-177 | `[1]` at precisions 0, 1, 2 is empty, `.`, `01`; `[1, 0x23]` at precision 2 is `..` |
| HexList.JoinSnoc | src/lib.rs:94-97 | appending a part to a non-empty join appends the separator and the part |
| HexList.DebugEntriesAfterFirst | src/lib.rs:78-81 | after the first entry, `debug_list` writes `, ` before every further entry |
| HexList.DebugEntries | src/lib.rs:80 | `DebugList::entry` in the plain form: once an entry has been written the next one starts with `, `, and the first entry is written with no separator before it |
| HexList.DebugEntriesJoin | src/lib.rs:80 | starting with no entry written, `debug_list` writes the entries joined by `, ` |
| HexList.DebugList | src/lib.rs:80 | `f.debug_list().entries(entries).finish()` writes exactly `[`, the entries joined by `, `, then `]` |
| HexList.RenderEach | src/lib.rs:79 | the `.map(HexFmt)` of the list: the contract gives one rendering per element; that element `i` is `Render` of item `i` at the list's precision and case is the definition itself |
| HexList.FmtListLower | src/lib.rs:74-82 | the lower-case list view is `[`, the elements' lower-case renderings joined by `, `, then `]` |
| HexList.JoinPrefixStep | src/lib.rs:94-97 | one more element of a non-empty prefix adds the separator and that element |
| HexList.ListStep | src/lib.rs:94-97 | one iteration of the list loop extends the written join by one element |
| HexList.WriteRest | src/lib.rs:94-97 | after the first element, the loop writes `, ` and each further element, so that everything written is the join of all the elements' upper-case renderings |
| HexList.FmtListUpper | src/lib.rs:84-100 | the upper-case loop writes `[`, the first element, `, ` and the element for each further one, then `]`: the bracket-join of the upper-case renderings |
| HexList.JoinUpper | src/lib.rs:94-97 | joining upper-cased parts is upper-casing the join |
| HexList.ListCase | src/lib.rs:74-100 | the upper-case and lower-case list views differ only in the case of `a`-`f` |
| HexList.ListSmall | src/lib.rs:88-99 | the empty list is `[]`; a one-element list is that element in brackets |
| HexList.ListExampleLower | src/lib.rs:15 | `[b"AB", b"BA"]` is `[4142, 4241]` |
| HexList.ListExampleUpper | src/lib.rs:16 | `[b"JK", b"KJ"]` in upper case is `[4A4B, 4B4A]` |

## Left out

- The `Formatter` is modelled as an output string. `Result`, and write errors propagated with `?`, are not modelled: every write succeeds.
- Width, alignment and fill are not modelled. The source ignores them too (its TODO at src/lib.rs:103).
- The `Debug` and `Display` impls (src/lib.rs:28-38, 56-72) only delegate to `LowerHex`. They have no members of their own; `Render` with `Lower` and `FmtListLower` stand for all three.
- The generic bounds (`AsRef<[u8]>`, `Clone + IntoIterator`) and the cloning of the iterator are not modelled. The model takes a `seq<byte>`, or a `seq<seq<byte>>` for a list.
- `debug_list` is modelled in its plain form only. The alternate `{:#?}` layout, with one entry per line, is not modelled.
- `write!(f, "{:.*}", precision, ELLIPSIS)` is modelled as the prefix `ELLIPSIS[..p]`, which is what string precision does to an ASCII string.
- `HexDigits.DigitChar`: requires a value below 16. `fmt_digit` would print two digits for a larger `u8`, but both of its callers pass a nibble.
- `usize` arithmetic is modelled unbounded. `2 * bytes.len()` cannot overflow, because a slice is at most `isize::MAX` bytes long; `saturating_sub` is written out as `SaturatingSub`.
