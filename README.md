# sequence-analyzer: column extraction, encoders and ingestion, in Dafny

This project models the deterministic core of *sequence-analyzer*, a tool that
reads a table of byte rows from a text file and studies it column by column.

- **Column analysis** (`analyzer.dfy`, specified by `column_spec.dfy`):
  - A `Column` object is built from a ragged table and a column index. Its
    constructor fills the fields in the order the analyzer does:
    - the gapped column, one cell per row, with `None` where a row is too short;
    - the entry list, which keeps only the present bytes;
    - the frequency dictionary, in which gaps are counted under `None`;
    - the entry count;
    - the longest gap-free slice, where on a tie the earliest run wins.
  - Each field is computed by a method with a loop, as in the source. Each
    method is proved against a value-level specification.
  - The source assigns all seven fields exactly once, in `__init__`. The first
    four are `const`. The last three are `var` only because Dafny requires it:
    they are assigned after `new;`, by methods that read `this`.
- **Encoders** (`encoders.dfy`):
  - The ASCII-hex and binary encoders and decoders are modelled as loops, each
    proved against a function. This covers:
    - the length checks;
    - decoding chunk by chunk through `int(chunk, base)` and `bytes((v,))`;
    - the `EncoderException` messages, and the bare `ValueError` the binary
      decoder lets escape.
  - `decode_list` is the same kind of loop over the lines, and stops at the
    first failure.
- **Python text semantics** (`pytext.dfy`): `str.strip()` with Python's
  whitespace set, and `int(text, base)` for bases 2 and 16. The model of `int()`
  covers:
  - surrounding whitespace. This is the set `strip()` uses, except the four
    ASCII separators U+001C..U+001F, which `int()` does not skip;
  - a sign;
  - a `0x`/`0b` prefix, optionally followed by one underscore;
  - single underscores between digits.
- **Ingestion** (`ingestion.dfy`): `get_sequence` strips the lines and drops
  blank ones. It then picks the scheme by its exact lower-case name, with no
  name meaning plain text, and decodes the lines.

The Base64, URL and plain decoders call the standard library. They are passed
in as functions (`Encoders.LibraryCodecs`). The file's lines are passed in as a
sequence of strings.

Points where the code's behaviour may surprise:
- A binary string with a bad octet raises a bare `ValueError`, not a
  bad-characters error.
- The library decoders' failures propagate unchanged.
- The frequency dictionary also counts gaps under `None`. The byte keys' counts
  sum to the entry count, and all counts sum to the row count.
- `decode(encode(b)) == b` does not hold for ASCII hex when a byte is below
  `0x10` (see Findings).
- The ASCII-hex decoder accepts every pair that `int(pair, 16)` parses to a
  value in 0..255, not only pairs of hex digits. For example, `" 5"` decodes to
  byte 5.
- `int()` does not skip the separators U+001C..U+001F, although `strip()`
  treats them as whitespace. So `"ab\x1c5"` is rejected with `BAD_CHARS_MSG`.

## Model

| member | source | states |
|---|---|---|
| `Analyzer.Column.constructor` | analyzer.py:15-22 | The fields are set in source order. `byteList` is the gapped column of the table and `entryList` its present bytes in row order. `frequencies` is the histogram of `byteList` and `entryCount` its number of present bytes. `longestSlice` is the longest, earliest gap-free slice. `len(entryList) == entryCount <= rowCount`. |
| `Analyzer.Column.GetByteList` | analyzer.py:32-42 | The loop's result is the column as collected: with `fill`, one cell per row (`None` for a row too short); without `fill`, only the rows that reach `index`, in row order. |
| `Analyzer.Column.GetLongestEntrySlice` | analyzer.py:47-68 | The nested-loop scan returns a slice that has no gap and is bounded by a gap or the column's end on both sides. No gap-free range is longer, and no range as long starts earlier. |
| `Analyzer.Column.GetFrequencies` | analyzer.py:72-80 | The dictionary built with `frequencies.get(b)` maps exactly the values occurring in the column, `None` included, to their number of occurrences. |
| `Analyzer.Column.GetEntryCount` | analyzer.py:86-92 | The count of non-`None` cells is the column length minus the number of `None`s. |
| `ColumnSpec.GappedColumn` | analyzer.py:32-42 | The gapped column has exactly one entry per row. |
| `ColumnSpec.GappedColumnAt` | analyzer.py:34-41 | Entry `i` of the gapped column is row `i`'s byte at `index`, or `None` when row `i` is shorter. |
| `ColumnSpec.GappedColumnConcat` | analyzer.py:34-41 | Collecting the rows of `a + b` gives `a`'s column followed by `b`'s: the row order is kept. |
| `ColumnSpec.ColumnCellsStep` | analyzer.py:35-41 | One more row appends its cell, or appends nothing when the row is too short and `fill` is false. |
| `ColumnSpec.Present` | analyzer.py:19 | The entry list has one element per present cell, and none of them is `None`. |
| `ColumnSpec.PresentConcat` | analyzer.py:19 | Dropping gaps commutes with concatenation, so the entries stay in row order. |
| `ColumnSpec.PresentMultiset` | analyzer.py:19 | The entry list holds every byte of the column exactly as often as the column does, and no `None`. |
| `ColumnSpec.CountPresent` | analyzer.py:86-92 | The entry count is the column length minus the number of gaps. |
| `ColumnSpec.HistogramAppend` | analyzer.py:75-79 | One more value raises its count by one, and a new key starts at 1; no other key changes. |
| `ColumnSpec.HistogramTotals` | analyzer.py:72-92 | The counts of the 256 byte keys sum to the entry count. `None` is a key exactly when some row is too short, and its count is `row_count - entry_count`. So the counts of all keys, `None` included, sum to `row_count`. |
| `ColumnSpec.MultisetByteSumCountsPresent` | analyzer.py:86-92 | The multiplicities of the 256 byte values in the column sum to the entry count. |
| `ColumnSpec.GappedColumnPermutation` | analyzer.py:32-42 | Reordering the rows reorders the gapped column: the same cells, each as often. |
| `ColumnSpec.ColumnPermutationInvariant` | analyzer.py:72-92 | Reordering the rows leaves the frequency dictionary and the entry count unchanged. |
| `ColumnSpec.ExtendBest` | analyzer.py:53-67 | When the scan closes a gap-free run, keeping the strictly longer run preserves "best so far, earliest on ties" up to the next position. |
| `ColumnSpec.LongestSliceUnique` | analyzer.py:47-68 | At most one slice meets the specification of `get_longest_entry_slice`, so the result is determined. |
| `ColumnSpec.LongestSliceEmpty` | analyzer.py:47-68 | The slice is empty exactly when the column has no byte, and is then `slice(0, 0)`. |
| `ColumnSpec.RunWithinEntries` | analyzer.py:47-68 | No gap-free range is longer than the entry count. |
| `ColumnSpec.TieBreakExample` | analyzer.py:55-57 | For the column `[6, None, 6]`, the slice is `slice(0, 1)`: the earlier of two equal runs, because only a strictly longer run replaces the best. |
| `PyText.Strip` | main.py:17 | `l.strip()` is never longer than `l`. The lemmas below state what it removes. |
| `PyText.StripIsMiddle` | main.py:17 | `strip()`, and the whitespace skipping inside `int()`, keep a middle part of the text and remove only whitespace on either side. |
| `PyText.StripEnds` | main.py:17 | `strip()` gives `""` exactly on an all-whitespace line; otherwise the result starts and ends with non-whitespace. The same holds for the whitespace `int()` skips. |
| `PyText.StripUnchanged` | main.py:17 | A line whose ends are not whitespace is left unchanged by `strip()`, and by the skipping inside `int()`. |
| `PyText.ParseInt` | encoders.py:143 | `int(text, base)` never succeeds on text that is all whitespace. `ParseIntOfDigits`, `HexPairValue` and the decoding examples below state its value. |
| `PyText.SeparatorNotSkippedByInt` | encoders.py:143 | `strip()` removes a leading U+001C from `"\x1c5"`, but `int("\x1c5", 16)` raises `ValueError`. |
| `PyText.ParseIntOfDigits` | encoders.py:143 | On a plain digit string, `int(s, base)` is the positional value of the digits. |
| `PyText.HexPairValue` | encoders.py:143 | `int(pair, 16)` on two hex digits, in either case, is `16 * first + second`. |
| `Encoders.HexOfByte` | encoders.py:129 | `hex(b)[2:]` is one lower-case digit for `b < 0x10` and two digits otherwise: no padding. |
| `Encoders.PaddedBinDigits` | encoders.py:155-156 | Left-padding `bin(v)[2:]` with `"0" * (w - len)` gives the `w`-bit big-endian form of `v`. |
| `Encoders.ByteBits` | encoders.py:155-156 | For a byte, the padded `bin()` digits are exactly its eight bits, most significant first. |
| `Encoders.BitsOfValue` | encoders.py:173 | Read back in base 2, the `w` bits of `v` give `v`. |
| `Encoders.BinaryEncoding` | encoders.py:152-158 | The binary encoding has exactly 8 characters per byte. |
| `Encoders.AsciiHexEncoding` | encoders.py:126-131 | The encoding has between one and two digits per byte. |
| `Encoders.AsciiHexEncode` | encoders.py:126-131 | The loop appends each byte's `hex()` digits in order. The result equals the ASCII-hex encoding function. |
| `Encoders.BinaryEncode` | encoders.py:152-158 | The loop appends each byte's 8 padded bits. The result equals the binary encoding function, whose properties are proved below. |
| `Encoders.ChunkByte` | encoders.py:143 | `bytes((int(chunk, base),))` either gives a byte or fails with `ValueError` and nothing else. |
| `Encoders.ChunkCount` | encoders.py:141-142 | `range(0, len(s), w)` with `len(s)` a multiple of `w` gives `len(s) / w` chunks. |
| `Encoders.HexPairsAt` | encoders.py:141-142 | Pair `k` of an even-length string is `s[2k]` followed by `s[2k+1]`. |
| `Encoders.ChunksFrom` | encoders.py:141-142 | The chunks from position `i` are the whole chunk `s[i:i+w]` followed by the chunks from `i + w`. |
| `Encoders.AsciiHexDecoding` | encoders.py:135-148 | A decoded string gives one byte per two characters. Every failure is an `EncoderException`: the `ValueError` of a bad pair is always translated. |
| `Encoders.BinaryDecoding` | encoders.py:164-176 | A decoded string gives one byte per eight characters. |
| `Encoders.AsciiHexDecode` | encoders.py:135-148 | An odd length gives the bad-length error. Otherwise the pair loop gives the result of the ASCII-hex decoding function, and a failing pair gives the bad-characters error. |
| `Encoders.BinaryDecode` | encoders.py:164-176 | A length that is not a multiple of 8 gives the bad-length error. Otherwise the octet loop gives the result of the binary decoding function, and a bad octet gives a bare `ValueError`. |
| `Encoders.AsciiHexDecodingSpec` | encoders.py:135-148 | An odd length gives `BAD_LENGTH_MSG`. Decoding succeeds exactly when the length is even and every pair passes `int` and `bytes`, giving one byte per pair in order. Any other failure gives `BAD_CHARS_MSG`. |
| `Encoders.BinaryDecodingSpec` | encoders.py:164-176 | A length that is not a multiple of 8 gives `BAD_LENGTH_MSG`. Decoding succeeds exactly when every octet passes `int(bits, 2)` and `bytes`, giving one byte per octet in order. Any other failure is a bare `ValueError`. |
| `Encoders.HexPairByte` | encoders.py:143 | Two hex digits always give a byte: `16 * first + second`. |
| `Encoders.StrictHexDecoding` | encoders.py:141-145 | An even-length string of hex digits decodes, and byte `k` is `16 * digit(2k) + digit(2k+1)`. |
| `Encoders.DecodingIgnoresCase` | encoders.py:143 | Lower-casing a hex string does not change the decoded bytes. |
| `Encoders.BitsByte` | encoders.py:173 | The eight bits of a byte decode back to that byte. |
| `Encoders.BinaryChunks` | encoders.py:152-158 | Octet `k` of the binary encoding is the eight-bit form of byte `k`. |
| `Encoders.BinaryRoundTrip` | encoders.py:152-176 | `binary_decode(binary_encode(b)) == b` for every byte string, including the empty one, `0x00` and `0xff`. |
| `Encoders.WideHexByte` | encoders.py:129 | A byte of at least `0x10` gets two digits, which decode back to it. |
| `Encoders.WideHexChunks` | encoders.py:126-131 | When every byte is at least `0x10`, the encoding has two digits per byte and pair `k` is byte `k`'s digits. |
| `Encoders.AsciiHexEncodingLength` | encoders.py:126-131 | The encoding has at most two digits per byte, and strictly fewer as soon as one byte is below `0x10`. |
| `Encoders.AsciiHexRoundTrip` | encoders.py:126-148 | `ascii_hex_decode(ascii_hex_encode(b)) == b` holds if and only if every byte is at least `0x10`. |
| `Encoders.AsciiHexRoundTripCounterexample` | encoders.py:129 | `[5]` encodes to `"5"`, and decoding `"5"` fails with `BAD_LENGTH_MSG`. |
| `Encoders.PaddedHexByte` | encoders.py:129 | Every byte's two-digit form decodes back to the byte. |
| `Encoders.PaddedHexChunks` | encoders.py:126-131 | Pair `k` of the two-digits-per-byte encoding is byte `k`'s two-digit form. |
| `Encoders.PaddedAsciiHexRoundTrip` | encoders.py:126-148 | With every byte written as two digits, decoding the encoding gives back every byte string. |
| `Encoders.HexDecodingSkipsSpace` | encoders.py:143 | `int()` skips surrounding whitespace: `" 5"` decodes to `[5]`. |
| `Encoders.HexDecodingRejectsNegative` | encoders.py:143-148 | `"-1"` parses as −1, `bytes()` then refuses it, and the failure is reported as `BAD_CHARS_MSG`. |
| `Encoders.BinaryDecodingAcceptsPrefix` | encoders.py:162-173 | Despite the "no prefix" comment, `"0b000101"` decodes to `[5]`. |
| `Encoders.HexDecodingRejectsSeparator` | encoders.py:141-148 | `"ab\x1c5"` fails with `BAD_CHARS_MSG`, because its second pair holds a separator `int()` does not skip. |
| `Encoders.BinaryDecodingRejectsSeparator` | encoders.py:171-173 | `"\x1c0000101"` fails with the bare `ValueError` of `int(bits, 2)`. |
| `Encoders.MapOrFail` | encoders.py:202-207 | A list of items decoded in order has one value per item. |
| `Encoders.MapOrFailStep` | encoders.py:204-206 | One iteration of a decoding loop: a failure ends the loop with that failure, and a success appends its value. |
| `Encoders.MapOrFailOk` | encoders.py:202-207 | Decoding a list of items succeeds exactly when every item decodes. |
| `Encoders.MapOrFailValues` | encoders.py:202-207 | A success holds one value per item, and value `k` is item `k` decoded. |
| `Encoders.MapOrFailFirstError` | encoders.py:202-207 | A failure is the failure of the first item that fails, and every earlier item succeeded. |
| `Encoders.MapOrFailAllOk` | encoders.py:202-207 | When every item decodes to the corresponding value, the result is exactly those values. |
| `Encoders.Decode` | encoders.py:39-115 | Under the ASCII-hex scheme, a line gives a row of half its length, and every failure is an `EncoderException`. Under the binary scheme, a line gives a row of an eighth of its length. |
| `Encoders.DecodeFailureKinds` | encoders.py:39-115 | With library decoders that raise only `ValueError`, a line that fails to decode fails with `ValueError`, `BAD_LENGTH_MSG` or `BAD_CHARS_MSG`, never with `BAD_ENCODER_MSG`. |
| `Encoders.DecodeLine` | encoders.py:39-115 | `scheme.decode(line)` runs the ASCII-hex or binary decoder above, or the library codec of the Base64, URL or plain scheme. |
| `Encoders.DecodeAll` | encoders.py:202-207 | A built table has one row per line. `DecodeAllOk` and `DecodeAllFirstFailure` state its rows and its failure. |
| `Encoders.DecodeList` | encoders.py:202-207 | The loop over the lines returns the table of decoded lines, or the first failure. |
| `Encoders.DecodeAllOk` | encoders.py:202-207 | The table is built exactly when every line decodes. It then has one row per line, and row `k` is line `k` decoded. |
| `Encoders.DecodeAllFirstFailure` | encoders.py:202-207 | A failure is the first failing line's failure, and every earlier line decoded. |
| `Ingestion.NonBlankLines` | main.py:17 | The comprehension keeps at most as many lines as the file has. |
| `Ingestion.NonBlankLinesConcat` | main.py:17 | Filtering the lines of `a + b` gives `a`'s kept lines followed by `b`'s: file order is kept. |
| `Ingestion.NonBlankLine` | main.py:17 | A single line is kept, stripped, exactly when it is not all whitespace. |
| `Ingestion.NonBlankLinesStripped` | main.py:17 | Every kept line is non-empty and already stripped, and there are never more kept lines than file lines. |
| `Ingestion.SchemeFor` | main.py:18-27 | A selected scheme is the one whose name was given. |
| `Ingestion.SchemeForNames` | main.py:18-30 | A name selects a scheme exactly when it is that scheme's lower-case name, and no name selects plain text. `"Base64"` selects nothing. |
| `Ingestion.UnknownEncoderRejected` | main.py:28-30 | Any other name fails with `BAD_ENCODER_MSG`, whatever the file holds, even with no lines. |
| `Ingestion.GetSequence` | main.py:16-31 | A name that selects no scheme gives `BAD_ENCODER_MSG`, and a built table never has more rows than the file has lines. |
| `Ingestion.BadEncoderOnlyFromName` | main.py:16-31 | With library decoders that raise only `ValueError`, `get_sequence` fails with `BAD_ENCODER_MSG` exactly when the name selects no scheme. |
| `Ingestion.GetSequenceDecodesLines` | main.py:16-31 | With a known name, the result is the table of the non-blank stripped lines, decoded in file order. It is built exactly when every such line decodes; otherwise the result is the first failing line's failure. |

## Findings

| source | as written | input that shows it | evidently intended | confidence | as-written member | corrected member |
|---|---|---|---|---|---|---|
| encoders.py:129 | `hex(v)[2:]` writes a byte below `0x10` as one digit, so the decoder's pairs fall out of step. | the byte string `[5]` encodes to `"5"`, and `ascii_hex_decode("5")` raises `BAD_LENGTH_MSG` | two digits per byte (`'%02x' % v`), so that `ascii_hex_decode(ascii_hex_encode(b)) == b` for every `b` | high; not executed | `Encoders.AsciiHexRoundTripCounterexample` | `Encoders.PaddedAsciiHexRoundTrip` |

`Encoders.AsciiHexRoundTrip` states the exact extent of the as-written
behaviour: the round trip holds if and only if every byte is at least `0x10`.
`Encoders.PaddedAsciiHexEncoding` is the corrected encoder.

## Left out

- `Column.__call__`, `get_scaled_residual` and `get_uniformity_score` (analyzer.py:24-27, 98-129) are left out. They are floating-point computations. `get_uniformity_score` runs its own online-variance loop over the 256 byte frequencies. `get_scaled_residual` calls `get_best_fit_degree` and `get_residual` (analyzer.py:105-106). Neither the standard `statistics` module nor analyzer.py, encoders.py or main.py defines them, so they are left out.
- `Analyzer.Column.constructor`: `maximumDegree` is stored as `MAX_DEGREE`, but nothing in the model reads it; only the residual computation does.
- The encoders of the Base64, URL and plain schemes, and their decoders' internals (`base64.b64decode`, `urllib.parse.unquote_to_bytes`, `bytes(s, 'utf-8')`), are left out. The decoders are passed in as functions in `Encoders.LibraryCodecs`. Their failures (`binascii.Error`, `UnicodeEncodeError`) are kinds of `ValueError`, and `Encoders.RaisesValueErrorOnly` states this of the functions passed in. Only `Encoders.DecodeFailureKinds` and `Ingestion.BadEncoderOnlyFromName` require it; every other lemma holds for any functions.
- The `nr_chars` and `re_chars` class attributes are left out, because no modelled operation reads them.
- `EncoderException.errors` is always `[]` in the source. `Encoders.Failure` keeps only the message.
- `analyze`, `visualize`, `main` and the command-line handling in main.py are left out. They do plotting, argument parsing and process exit.
- `invert_residual_data` is left out. main.py:43 calls it, but none of analyzer.py, encoders.py and main.py defines it.
- Opening and iterating the input file are left out. `Ingestion.GetSequence` receives the file's lines as a sequence of strings.
- `Encoders.AsciiHexEncode`: takes the bytes as a sequence of byte values and converts each one as if `int.from_bytes` received a one-byte object. In Python 3, iterating a `bytes` object yields integers, and `int.from_bytes(int, 'big')` would raise `TypeError`. The model covers the per-byte behaviour the code evidently intends.
- `Encoders.BinaryEncode`: takes the bytes as byte values, for the same reason as `Encoders.AsciiHexEncode`.
- `PyText.ParseInt`: accepts only ASCII digits. CPython's `int()` also accepts the decimal digits of other Unicode scripts, so a pair such as two Arabic-Indic digits is rejected here but accepted by Python.
- Python exceptions are values here: `Encoders.Result` carries an `EncoderException` with its message or a `ValueError`. Tracebacks and exception chaining are left out.
