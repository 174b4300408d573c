# TinyCsvParser row sources and two type converters, in Dafny

This project models two small, side-effect-free pieces of TinyCsvParser:

1. **The row sources** of `CsvParserExtensions`:
   - `ReadFromStringAsync` cuts an in-memory CSV text into lines on the `NewLine` tokens of the reader options. It uses `String.Split` with `StringSplitOptions.None`, so empty pieces are kept. It then tags each piece with its zero-based position as a `Row(index, line)`.
   - `ReadFromFileAsync` and `ReadFromStreamAsync` tag the lines of a file or a stream the same way. Each first refuses a null argument with an `ArgumentNullException`.

   The model ends at the sequence of rows handed to `csvParser.ParseAsync`.
2. **Two type converters**, as their tests fix them. `TryConvert` gives back a value and a success flag, and a null text is `None`:
   - `StringConverter` passes every input through unchanged and never fails.
   - `NullableByteConverter` turns a missing or blank text into "no value". It turns the decimal text of a byte into that byte, after trimming the number white space around it. It rejects the tested failures "a", "-1" and "256". For other text, see "## Left out".

Files:

- `wrappers.dfy` defines `Option`, which stands for a nullable reference, and `Result`, which stands for a call that may throw.
- `split.dfy` (module `Split`) models .NET's `String.Split(string[], StringSplitOptions.None)`:
  - The text is scanned from left to right.
  - At each position, the first token in array order that the text continues with is the delimiter. Scanning resumes after it.
  - Empty tokens never match.
  - An empty token array splits on every `Char.IsWhiteSpace` character.
  - Proved for any tokens:
    - Splitting loses nothing: the pieces and the delimiters used rebuild the text.
    - The split is the only cutting that rebuilds the text with leftmost cuts. At every cut, the delimiter is the first token in array order that the text continues with, and no token starts earlier, inside a piece. `SplitCharacterized` states this as an if-and-only-if.
    - No piece contains a delimiter.
  - Proved for a single token:
    - The piece count.
    - Split-then-join always gives the text back.
    - Join-then-split gives the lines back if the token does not start inside any line, not even running on into the delimiter after it (`NoEarlyMatch`). This round trip is proved in that one direction only. Without the condition it can fail: with the token "aa", the lines ["a", "b"] join to "aaab", which splits into ["", "ab"].
- `csv_parser_extensions.dfy` (module `CsvParserExtensions`) holds `Row`, the indexing step and the three row sources with their error cases. It also proves the properties of the rows they produce.
- `type_converters.dfy` (module `TypeConverters`) holds the two converters, a decimal-text round trip and the tested tables.

`NewLine` is an ordered array of tokens. The leftmost match always comes first. When several tokens match at the same position, the one earliest in the array is the delimiter. For example, with ["\r", "\r\n"] the text "a\r\nb" is cut at "\r", leaving a piece "\nb".

`NullableByteConverterTest.cs:40-56` runs the same success and failure table with `CultureInfo.InvariantCulture`, and again with `CultureInfo.InvariantCulture` and `NumberStyles.Integer` together. The converter model therefore has no culture or number-style parameter, and its table lemmas cover all three fixtures.

## Model

| member | source | states |
|---|---|---|
| `CsvParserExtensions.IndexFrom` | TinyCsvParser/TinyCsvParser/CsvParserExtensions.cs:37 | one row per line; the i-th row carries the i-th line and index first + i |
| `CsvParserExtensions.IndexFromKeepsLines` | TinyCsvParser/TinyCsvParser/CsvParserExtensions.cs:37 | reading the lines back off the tagged rows gives exactly the input lines, in order |
| `CsvParserExtensions.ReadFromString` | TinyCsvParser/TinyCsvParser/CsvParserExtensions.cs:32-41 | fails (NullReferenceException) exactly when the options or the text are null; otherwise at least one row, and row i has index i |
| `CsvParserExtensions.WithIndex` | TinyCsvParser/TinyCsvParser/CsvParserExtensions.cs:37 | one row per line, and row i is exactly Row(i, line i) |
| `CsvParserExtensions.ReadFromFile` | TinyCsvParser/TinyCsvParser/CsvParserExtensions.cs:16-30 | a null file name gives ArgumentNullException("fileName"), whatever the file reader would do; an exception thrown by File.ReadLines (empty path, missing file) reaches the caller unchanged and no rows are produced; otherwise the rows carry the file's lines in order, and row i has index i |
| `CsvParserExtensions.ReadFromStream` | TinyCsvParser/TinyCsvParser/CsvParserExtensions.cs:52-64 | a null stream gives ArgumentNullException("stream"); otherwise the rows carry the lines read from the stream in order, and row i has index i |
| `CsvParserExtensions.ReadFromStringRows` | TinyCsvParser/TinyCsvParser/CsvParserExtensions.cs:35-37 | each piece of the split text becomes exactly one row, in input order: row i is Row(i, piece i) |
| `CsvParserExtensions.ReadFromStringRebuilds` | TinyCsvParser/TinyCsvParser/CsvParserExtensions.cs:35-37 | the row lines, interleaved with the delimiters the split cut at, give back csvData; there is one row more than delimiters |
| `CsvParserExtensions.ReadFromStringSingleToken` | TinyCsvParser/TinyCsvParser/CsvParserExtensions.cs:36 | with one token: row count = occurrences of the token + 1, joining the lines with the token gives csvData, and no line contains the token |
| `CsvParserExtensions.ReadFromStringKeepsEmptyLines` | TinyCsvParser/TinyCsvParser/CsvParserExtensions.cs:36 | lines, empty ones included, joined with a token that does not start inside any of them, come back as exactly those lines, indexed 0..n-1 |
| `CsvParserExtensions.ReadFromStringEmpty` | TinyCsvParser/TinyCsvParser/CsvParserExtensions.cs:36 | empty text gives exactly one row, Row(0, ""), for any tokens |
| `CsvParserExtensions.SourcesShareIndexing` | TinyCsvParser/TinyCsvParser/CsvParserExtensions.cs:24-61 | file, stream and string sources give the same rows for the same lines, and the i-th line gets index i |
| `Split.Delimiters` | TinyCsvParser/TinyCsvParser/CsvParserExtensions.cs:36 | a non-empty token array is used as given, in order; an empty one stands for exactly the single white-space characters, each as its own token |
| `Split.SplitLines` | TinyCsvParser/TinyCsvParser/CsvParserExtensions.cs:36 | at least one piece, and exactly one more piece than delimiters cut at |
| `Split.FirstMatch` | TinyCsvParser/TinyCsvParser/CsvParserExtensions.cs:36 | the delimiter chosen at a position is the first token in array order that the text continues with; none is chosen only if no non-empty token matches |
| `Split.SplitRebuilds` | TinyCsvParser/TinyCsvParser/CsvParserExtensions.cs:36 | the pieces interleaved with the delimiters cut at give back the text; each delimiter is a token in force |
| `Split.SplitCutsLeftmost` | TinyCsvParser/TinyCsvParser/CsvParserExtensions.cs:36 | no token starts inside any piece, and each delimiter cut at is the first token in array order that the text after the piece starts with |
| `Split.LeftmostCutsUnique` | TinyCsvParser/TinyCsvParser/CsvParserExtensions.cs:36 | two cuttings that both rebuild the text and both cut leftmost-first are the same pieces and delimiters |
| `Split.SplitCharacterized` | TinyCsvParser/TinyCsvParser/CsvParserExtensions.cs:36 | pieces and delimiters are the split of the text if and only if they rebuild it and every cut is leftmost, using the first token in array order |
| `Split.SplitCrLfExample` | TinyCsvParser/TinyCsvParser/CsvParserExtensions.cs:36 | with tokens ["\n", "\r\n"], "a\r\nb" splits into ["a", "b"] at "\r\n": the leftmost match wins over array order |
| `Split.SplitThenJoin` | TinyCsvParser/TinyCsvParser/CsvParserExtensions.cs:36 | with one token, joining the pieces with it reproduces the text |
| `Split.SplitCount` | TinyCsvParser/TinyCsvParser/CsvParserExtensions.cs:36 | with one token, the piece count is the number of its non-overlapping left-to-right occurrences plus one |
| `Split.SplitCountChar` | TinyCsvParser/TinyCsvParser/CsvParserExtensions.cs:36 | with a one-character token, the piece count is the number of times that character occurs plus one |
| `Split.SplitNoDelimiterInside` | TinyCsvParser/TinyCsvParser/CsvParserExtensions.cs:36 | no piece contains an occurrence of any non-empty token in force (where the cuts fall is fixed by `Split.SplitCharacterized`) |
| `Split.SplitLinesAvoidSeparator` | TinyCsvParser/TinyCsvParser/CsvParserExtensions.cs:36 | with one non-empty token, no piece contains it |
| `Split.SplitOnWhiteSpace` | TinyCsvParser/TinyCsvParser/CsvParserExtensions.cs:36 | with an empty token array, no piece contains a white-space character |
| `Split.JoinThenSplit` | TinyCsvParser/TinyCsvParser/CsvParserExtensions.cs:36 | splitting the join of lines in which the token does not start gives back exactly those lines, empty ones kept |
| `Split.JoinThenSplitOnChar` | TinyCsvParser/TinyCsvParser/CsvParserExtensions.cs:36 | with a one-character token such as "\n", lines without that character survive join-then-split unchanged, including empty and trailing empty lines |
| `Split.SplitEmpty` | TinyCsvParser/TinyCsvParser/CsvParserExtensions.cs:36 | the empty text splits into one empty piece |
| `TypeConverters.StringConverter` | TinyCsvParser/TinyCsvParser.Test/TypeConverter/StringConverterTest.cs:21-32 | conversion never fails |
| `TypeConverters.StringConverterPassesThrough` | TinyCsvParser/TinyCsvParser.Test/TypeConverter/StringConverterTest.cs:32 | every input, null included, is returned unchanged, and conversion never fails |
| `TypeConverters.StringConverterTable` | TinyCsvParser/TinyCsvParser.Test/TypeConverter/StringConverterTest.cs:22-25 | "" to "", " " to " " (not trimmed), "Abc" to "Abc", null to null, all successful |
| `TypeConverters.NullableByteConverter` | TinyCsvParser/TinyCsvParser.Test/TypeConverter/NullableByteConverterTest.cs:22-36 | a failed conversion carries no value (the default of byte?) |
| `TypeConverters.DecimalText` | TinyCsvParser/TinyCsvParser.Test/TypeConverter/NullableByteConverterTest.cs:23-24 | the text of a number is a non-empty run of decimal digits, with no leading zero except for 0 itself, and is one digit long exactly for numbers below 10 |
| `TypeConverters.DecimalTextRoundTrip` | TinyCsvParser/TinyCsvParser.Test/TypeConverter/NullableByteConverterTest.cs:23-24 | reading the decimal text of any natural number gives that number |
| `TypeConverters.ByteTextRoundTrip` | TinyCsvParser/TinyCsvParser.Test/TypeConverter/NullableByteConverterTest.cs:23-24 | the decimal text of any byte converts successfully back to that byte |
| `TypeConverters.NullableByteBlankIsNoValue` | TinyCsvParser/TinyCsvParser.Test/TypeConverter/NullableByteConverterTest.cs:27-29 | a missing, empty or white-space-only text converts successfully to no value |
| `TypeConverters.NullableByteOutOfRange` | TinyCsvParser/TinyCsvParser.Test/TypeConverter/NullableByteConverterTest.cs:36 | decimal digits denoting more than 255 fail |
| `TypeConverters.NullableByteConverterValues` | TinyCsvParser/TinyCsvParser.Test/TypeConverter/NullableByteConverterTest.cs:23-26 | Byte.MinValue.ToString() and "0" give 0; Byte.MaxValue.ToString() and "255" give 255 |
| `TypeConverters.NullableByteConverterNoValues` | TinyCsvParser/TinyCsvParser.Test/TypeConverter/NullableByteConverterTest.cs:27-29 | " ", null and "" convert successfully to no value |
| `TypeConverters.NullableByteConverterFailures` | TinyCsvParser/TinyCsvParser.Test/TypeConverter/NullableByteConverterTest.cs:36 | "a", "-1" and "256" fail, with no value |

## Left out

- `csvParser.ParseAsync` and the tokenizer, mapping and parallel machinery behind it are not part of this model. The model stops at the rows handed to it.
- CsvParserExtensions.ReadFromFile: `File.ReadLines(fileName, encoding)` is I/O and becomes the parameter `readLines`. That parameter returns either the lines or the exception `File.ReadLines` throws, such as `ArgumentException` for an empty path, `FileNotFoundException` or `ArgumentNullException("encoding")`. The model passes that exception through unchanged. Which exception .NET raises first, and how encodings decode bytes, are not modelled.
- CsvParserExtensions.IndexFrom: row indices are unbounded naturals. In .NET the index of the indexed `Select` (CsvParserExtensions.cs:26, :37, :61) is an `int`, incremented in a checked context, so a source with more than `int.MaxValue` lines throws `OverflowException` part-way through. `ReadFromFile` and `ReadFromStream` do not model this. A string source cannot reach the limit, because a .NET string has fewer than 2^31 characters and so fewer pieces.
- `ReadLinesFromStreamAsync` is left out: the `StreamReader` loop, byte-order-mark detection, buffer size and `leaveOpen` are I/O and resource handling. A stream is modelled by the lines its reader returns.
- `IAsyncEnumerable`, `ToAsyncEnumerable` and `await` are not modelled. Results are finite sequences.
- A null `csvParser` receiver is not modelled.
- CsvParserExtensions.ReadFromString: the token array is never null and holds no null entries. .NET treats a null array like an empty one and skips null entries like empty ones.
- .NET strings are UTF-16 code units and Dafny characters are Unicode scalar values. Surrogate pairs are not modelled.
- TypeConverters.NullableByteConverter: the model has no culture or number-style parameter. Beyond blank text, digits-only text and the tested cases, its answers are not claims about .NET. For example, it rejects a leading sign ("+5", "-0") that `NumberStyles.Integer` accepts. The converter bodies and the culture rules of `Byte.TryParse` are not part of this model.
- The converter test base class and the NUnit fixtures are test harness, not behaviour.
