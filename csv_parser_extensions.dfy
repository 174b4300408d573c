/**
 * The row sources of `CsvParserExtensions`: each turns some input into the
 * ordered sequence of `Row(index, line)` values that is handed to the
 * parser (`csvParser.ParseAsync(lines)`). What the parser then does with the
 * rows is not part of this model.
 *
 * - `ReadFromString` cuts an in-memory text at the configured `NewLine` tokens.
 * - `ReadFromFile` tags the lines of a file, after checking the file name.
 * - `ReadFromStream` tags the lines read from a stream, after checking the stream.
 *
 * Reading a file or a stream is I/O: the file is modelled by the function that
 * gives its lines (`File.ReadLines`), the stream by the lines its reader yields.
 */
module CsvParserExtensions {
  import opened Wrappers
  import opened Split

  /** One raw line of input and its zero-based position. */
  datatype Row = Row(index: nat, line: string)

  /** The exceptions thrown before any row is produced. */
  datatype Error =
    | ArgumentNull(paramName: string)  // `ArgumentNullException(nameof(paramName))`
    | NullReference                    // dereferencing a null argument
    | Argument(paramName: string)      // `ArgumentException`, e.g. an empty path given to `File.ReadLines`
    | FileNotFound(path: string)       // `FileNotFoundException` from `File.ReadLines`

  /** The part of `CsvReaderOptions` the row source uses: the line tokens. */
  datatype CsvReaderOptions = CsvReaderOptions(newLine: seq<string>)

  /** A stream, seen through the lines a `StreamReader` over it returns. */
  datatype Stream = Stream(lines: seq<string>)

  /**
   * `lines.Select((line, index) => new Row(first + index, line))`: the
   * lines, in order, each tagged with its position counted from `first`.
   */
  function IndexFrom(lines: seq<string>, first: nat): (rows: seq<Row>)
    ensures |rows| == |lines|
    ensures forall i :: 0 <= i < |rows| ==> rows[i].index == first + i && rows[i].line == lines[i]
    decreases |lines|
  {
    if lines == [] then []
    else [Row(first, lines[0])] + IndexFrom(lines[1..], first + 1)
  }

  /** `lines.Select((line, index) => new Row(index, line))`: row i is line i, tagged i. */
  function WithIndex(lines: seq<string>): (rows: seq<Row>)
    ensures |rows| == |lines|
    ensures forall i :: 0 <= i < |rows| ==> rows[i] == Row(i, lines[i])
  {
    IndexFrom(lines, 0)
  }

  /** The raw lines carried by some rows, in order. */
  function LinesOf(rows: seq<Row>): (lines: seq<string>)
    ensures |lines| == |rows|
  {
    seq(|rows|, i requires 0 <= i < |rows| => rows[i].line)
  }

  /**
   * `ReadFromStringAsync`: `csvData.Split(options.NewLine, StringSplitOptions.None)`
   * tagged with indices. A null text or null options throw at once, because
   * the split is not deferred.
   */
  function ReadFromString(options: Option<CsvReaderOptions>, csvData: Option<string>)
    : (r: Result<seq<Row>, Error>)
    ensures r.Err? <==> options.None? || csvData.None?
    ensures r.Err? ==> r.error == NullReference
    ensures r.Ok? ==> |r.value| >= 1
    ensures r.Ok? ==> forall i :: 0 <= i < |r.value| ==> r.value[i].index == i
  {
    match (options, csvData)
    case (Some(opts), Some(data)) => Ok(WithIndex(SplitLines(data, opts.newLine)))
    case _ => Err(NullReference)
  }

  /**
   * `ReadFromFileAsync`: a null file name is refused before the file is
   * touched. Otherwise the file is opened with `readLines`, which stands for
   * `File.ReadLines(fileName, encoding)`. An exception it throws (empty path,
   * missing file, null encoding) is passed on unchanged. If it succeeds, its
   * lines are tagged with indices.
   */
  function ReadFromFile(fileName: Option<string>, readLines: string -> Result<seq<string>, Error>)
    : (r: Result<seq<Row>, Error>)
    ensures fileName.None? ==> r == Err(ArgumentNull("fileName"))
    ensures fileName.Some? && readLines(fileName.value).Err? ==> r == Err(readLines(fileName.value).error)
    ensures fileName.Some? && readLines(fileName.value).Ok? ==>
              r.Ok? && LinesOf(r.value) == readLines(fileName.value).value
    ensures r.Ok? ==> forall i :: 0 <= i < |r.value| ==> r.value[i].index == i
  {
    match fileName
    case None => Err(ArgumentNull("fileName"))
    case Some(name) =>
      match readLines(name)
      case Err(e) => Err(e)
      case Ok(lines) => Ok(WithIndex(lines))
  }

  /**
   * `ReadFromStreamAsync`: a null stream is refused before anything is read;
   * otherwise the lines read from the stream are tagged with indices.
   */
  function ReadFromStream(stream: Option<Stream>): (r: Result<seq<Row>, Error>)
    ensures stream.None? ==> r == Err(ArgumentNull("stream"))
    ensures stream.Some? ==> r.Ok? && LinesOf(r.value) == stream.value.lines
    ensures stream.Some? ==> forall i :: 0 <= i < |r.value| ==> r.value[i].index == i
  {
    match stream
    case None => Err(ArgumentNull("stream"))
    case Some(s) => Ok(WithIndex(s.lines))
  }

  // ---------------------------------------------------------------------
  // Properties

  /** Tagging keeps the lines: reading the lines back off the rows gives them unchanged. */
  lemma IndexFromKeepsLines(lines: seq<string>, first: nat)
    ensures LinesOf(IndexFrom(lines, first)) == lines
  {
  }

  /**
   * Each piece of the text becomes exactly one row, in input order, and the
   * row indices are 0, 1, ..., n - 1.
   */
  lemma ReadFromStringRows(newLine: seq<string>, csvData: string)
    ensures var r := ReadFromString(Some(CsvReaderOptions(newLine)), Some(csvData));
      && r.Ok?
      && LinesOf(r.value) == SplitLines(csvData, newLine)
      && forall i :: 0 <= i < |r.value| ==> r.value[i] == Row(i, SplitLines(csvData, newLine)[i])
  {
  }

  /**
   * The rows lose nothing of the text: their lines, put back together with the
   * delimiters the split cut at, give `csvData`.
   */
  lemma ReadFromStringRebuilds(newLine: seq<string>, csvData: string)
    ensures var r := ReadFromString(Some(CsvReaderOptions(newLine)), Some(csvData));
      && r.Ok?
      && |r.value| == |DelimitersUsed(csvData, newLine)| + 1
      && Interleave(LinesOf(r.value), DelimitersUsed(csvData, newLine)) == csvData
  {
    ReadFromStringRows(newLine, csvData);
    SplitRebuilds(csvData, newLine);
  }

  /**
   * With one `NewLine` token: one row more than the token occurs, joining the
   * lines with the token gives the text back, and no line holds the token.
   */
  lemma ReadFromStringSingleToken(sep: string, csvData: string)
    requires sep != []
    ensures var r := ReadFromString(Some(CsvReaderOptions([sep])), Some(csvData));
      && r.Ok?
      && |r.value| == CountMatches(csvData, sep) + 1
      && Join(LinesOf(r.value), sep) == csvData
      && forall i :: 0 <= i < |r.value| ==> !Contains(r.value[i].line, sep)
  {
    ReadFromStringRows([sep], csvData);
    SplitCount(csvData, sep);
    SplitThenJoin(csvData, sep);
    SplitLinesAvoidSeparator(csvData, sep);
  }

  /**
   * Empty pieces are kept: lines without the token, empty ones included, joined
   * with the token, come back as exactly those rows.
   */
  lemma ReadFromStringKeepsEmptyLines(lines: seq<string>, sep: string)
    requires sep != [] && |lines| >= 1
    requires forall l :: l in lines ==> NoEarlyMatch(l, sep)
    ensures ReadFromString(Some(CsvReaderOptions([sep])), Some(Join(lines, sep))) == Ok(WithIndex(lines))
  {
    JoinThenSplit(lines, sep);
  }

  /** Empty text gives exactly one row, with index 0 and an empty line. */
  lemma ReadFromStringEmpty(newLine: seq<string>)
    ensures ReadFromString(Some(CsvReaderOptions(newLine)), Some([])) == Ok([Row(0, [])])
  {
    SplitEmpty(newLine);
    var rows := WithIndex([[]]);
    assert |rows| == 1 && rows[0] == Row(0, []);
    assert rows == [Row(0, [])];
  }

  /**
   * The three sources tag lines by one rule: for the same lines they give the
   * same rows, and the i-th line gets index i.
   */
  lemma SourcesShareIndexing(fileName: string, readLines: string -> Result<seq<string>, Error>,
                              newLine: seq<string>, csvData: string)
    requires readLines(fileName) == Ok(SplitLines(csvData, newLine))
    ensures ReadFromFile(Some(fileName), readLines) == ReadFromStream(Some(Stream(SplitLines(csvData, newLine))))
    ensures ReadFromFile(Some(fileName), readLines) == ReadFromString(Some(CsvReaderOptions(newLine)), Some(csvData))
    ensures forall i :: 0 <= i < |SplitLines(csvData, newLine)| ==>
              ReadFromFile(Some(fileName), readLines).value[i] == Row(i, SplitLines(csvData, newLine)[i])
  {
  }
}
