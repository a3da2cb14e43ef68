/**
 * The delimited line reader `file_reading_gen`: it turns the lines of a file into
 * tuples of exactly `fields` strings, checking an optional header first.  The file
 * is given as the sequence of lines Python's file iteration produces (each line
 * keeps its terminating newline, the last one may lack it, none is empty).
 */
module Helpers {
  import opened Wrappers
  import opened Text

  /** The reader's `ValueError`s: a header or a data line with the wrong field count. */
  datatype ReadError =
    | MalformedHeader(expected: nat, found: nat)
    | MalformedRecord(expected: nat, found: nat, line: nat)

  /** What a full iteration of the generator produces: the tuples yielded, then the error raised, if any. */
  datatype Yield = Yield(rows: seq<seq<string>>, error: Option<ReadError>)

  /** Lines as file iteration yields them: never empty. */
  predicate FileLines(lines: seq<string>)
  {
    forall i :: 0 <= i < |lines| ==> |lines[i]| > 0
  }

  /** Removes one trailing newline, if there is one. */
  function StripNewline(line: string): (r: string)
    requires |line| > 0
    ensures |r| <= |line| && r == line[..|r|]
    ensures |r| == |line| || (|r| == |line| - 1 && line[|r|] == '\n')
    ensures |r| < |line| <==> line[|line| - 1] == '\n'
  {
    if line[|line| - 1] == '\n' then line[..|line| - 1] else line
  }

  /** The fields of one data line. */
  function Fields(line: string, sep: char): (r: seq<string>)
    requires |line| > 0
    ensures |r| == Occurrences(StripNewline(line), sep) + 1
    ensures forall i :: 0 <= i < |r| ==> sep !in r[i]
  {
    Split(StripNewline(line), sep)
  }

  /** What `f.readline()` returns first: the first line, or "" for an empty file. */
  function HeaderLine(lines: seq<string>): string
  {
    if |lines| == 0 then "" else lines[0]
  }

  /** The lines the `for` loop iterates over: all of them, or those after the header. */
  function DataLines(lines: seq<string>, header: bool): seq<string>
  {
    if header && |lines| > 0 then lines[1..] else lines
  }

  /** How many lines come before the data: the header line, when one is expected and present. */
  function Skipped(lines: seq<string>, header: bool): nat
  {
    if header && |lines| > 0 then 1 else 0
  }

  /** The number `enumerate` gives the first data line. */
  function FirstLineNumber(header: bool): nat
  {
    if header then 2 else 1
  }

  /** The tuples of `data`, numbered from `lineNo`, up to the first line of the wrong arity. */
  function ParseFrom(data: seq<string>, fields: nat, sep: char, lineNo: nat): (y: Yield)
    requires FileLines(data)
    ensures |y.rows| <= |data|
    ensures forall j :: 0 <= j < |y.rows| ==> |y.rows[j]| == fields
    decreases |data|
  {
    if |data| == 0 then Yield([], None)
    else
      var found := Fields(data[0], sep);
      if |found| != fields then Yield([], Some(MalformedRecord(fields, |found|, lineNo)))
      else
        var rest := ParseFrom(data[1..], fields, sep, lineNo + 1);
        Yield([found] + rest.rows, rest.error)
  }

  /** Everything one iteration of `file_reading_gen(path, fields, sep, header)` produces. */
  function Parse(lines: seq<string>, fields: nat, sep: char, header: bool): (y: Yield)
    requires FileLines(lines)
    ensures forall j :: 0 <= j < |y.rows| ==> |y.rows[j]| == fields
  {
    var found := |Split(HeaderLine(lines), sep)|;
    if header && found != fields then Yield([], Some(MalformedHeader(fields, found)))
    else ParseFrom(DataLines(lines, header), fields, sep, FirstLineNumber(header))
  }

  /**
   * The generator loop: reads the header (unstripped, as `readline` returns it),
   * then strips, splits and checks each data line, collecting the tuples it yields
   * until a line of the wrong arity raises.
   */
  method FileReadingGen(lines: seq<string>, fields: nat, sep: char, header: bool)
    returns (rows: seq<seq<string>>, err: Option<ReadError>)
    requires FileLines(lines)
    ensures Yield(rows, err) == Parse(lines, fields, sep, header)
  {
    if header {
      var data := Split(HeaderLine(lines), sep);
      if |data| != fields {
        return [], Some(MalformedHeader(fields, |data|));
      }
    }
    rows, err := ReadRecords(DataLines(lines, header), fields, sep, if header then 2 else 1);
  }

  /** The `for` loop of the reader over the data lines, numbered from `offset`. */
  method ReadRecords(body: seq<string>, fields: nat, sep: char, offset: nat)
    returns (rows: seq<seq<string>>, err: Option<ReadError>)
    requires FileLines(body)
    ensures Yield(rows, err) == ParseFrom(body, fields, sep, offset)
  {
    rows, err := [], None;
    ghost var whole := ParseFrom(body, fields, sep, offset);
    var i := 0;
    assert body[i..] == body;
    while i < |body|
      invariant 0 <= i <= |body|
      invariant var tail := ParseFrom(body[i..], fields, sep, offset + i);
        whole == Yield(rows + tail.rows, tail.error)
    {
      var data := Fields(body[i], sep);
      ParseFromStep(body, fields, sep, offset, i, rows);
      if |data| != fields {
        err := Some(MalformedRecord(fields, |data|, offset + i));
        assert rows + [] == rows;
        return;
      }
      rows := rows + [data];
      i := i + 1;
    }
    assert body[i..] == [];
    assert rows + [] == rows;
  }

  /**
   * One step of the reader loop: the parse from line `i` on, by the arity of
   * line `i`; a good line moves from the parse onto the tuples collected so far.
   */
  lemma ParseFromStep(body: seq<string>, fields: nat, sep: char, offset: nat, i: nat, rows: seq<seq<string>>)
    requires FileLines(body) && i < |body|
    ensures var found := Fields(body[i], sep);
      var tail := ParseFrom(body[i..], fields, sep, offset + i);
      var next := ParseFrom(body[i + 1..], fields, sep, offset + i + 1);
      && (|found| != fields ==> tail == Yield([], Some(MalformedRecord(fields, |found|, offset + i))))
      && (|found| == fields ==> tail == Yield([found] + next.rows, next.error))
      && (|found| == fields ==> rows + tail.rows == (rows + [found]) + next.rows)
  {
    assert body[i..][0] == body[i] && body[i..][1..] == body[i + 1..];
  }

  /**
   * What a parse of data lines yields: one tuple per line, in order, each the
   * split of its line, up to the first line of the wrong arity; that line, and
   * only that line, raises, with its number.
   */
  lemma {:induction false} ParseFromSpec(data: seq<string>, fields: nat, sep: char, lineNo: nat)
    requires FileLines(data)
    ensures var y := ParseFrom(data, fields, sep, lineNo);
      && (forall j :: 0 <= j < |y.rows| ==> y.rows[j] == Fields(data[j], sep))
      && (y.error == None <==> |y.rows| == |data|)
      && (y.error != None ==>
            |Fields(data[|y.rows|], sep)| != fields
            && y.error == Some(MalformedRecord(fields, |Fields(data[|y.rows|], sep)|, lineNo + |y.rows|)))
    decreases |data|
  {
    if |data| > 0 && |Fields(data[0], sep)| == fields {
      var rest := ParseFrom(data[1..], fields, sep, lineNo + 1);
      ParseFromSpec(data[1..], fields, sep, lineNo + 1);
      var y := ParseFrom(data, fields, sep, lineNo);
      assert y == Yield([Fields(data[0], sep)] + rest.rows, rest.error);
      forall j | 0 <= j < |y.rows|
        ensures y.rows[j] == Fields(data[j], sep)
      {
        if j > 0 {
          assert y.rows[j] == rest.rows[j - 1] && data[1..][j - 1] == data[j];
        }
      }
      if y.error != None {
        assert data[|y.rows|] == data[1..][|rest.rows|];
      }
    }
  }

  /**
   * With a header whose field count is wrong, the reader raises before it yields
   * any tuple; otherwise the header line is never yielded and the data tuples come
   * from the following lines, numbered from 2.
   */
  lemma ParseHeader(lines: seq<string>, fields: nat, sep: char)
    requires FileLines(lines)
    ensures var found := |Split(HeaderLine(lines), sep)|;
      found != fields ==> Parse(lines, fields, sep, true) == Yield([], Some(MalformedHeader(fields, found)))
    ensures |Split(HeaderLine(lines), sep)| == fields ==>
      Parse(lines, fields, sep, true) == ParseFrom(if |lines| == 0 then [] else lines[1..], fields, sep, 2)
  {
  }

  /**
   * The reader's whole contract in terms of the file's lines: the `j`-th tuple is
   * the line `j` places after the header (if any), stripped of its newline and
   * split; the yielded tuples are those before the first malformed line; the
   * error names that line by its 1-based number in the file; and a file that
   * reads to the end yields one tuple per data line.
   */
  lemma ParseSpec(lines: seq<string>, fields: nat, sep: char, header: bool)
    requires FileLines(lines)
    ensures var y := Parse(lines, fields, sep, header);
      var skip := Skipped(lines, header);
      && |y.rows| + skip <= |lines|
      && (forall j :: 0 <= j < |y.rows| ==> |y.rows[j]| == fields && y.rows[j] == Fields(lines[j + skip], sep))
      && (y.error == None ==> |y.rows| + skip == |lines|)
      && (y.error.Some? && y.error.value.MalformedRecord? ==>
            var n := y.error.value.line;
            && n == |y.rows| + FirstLineNumber(header)
            && 1 <= n <= |lines|
            && |Fields(lines[n - 1], sep)| != fields
            && y.error.value.found == |Fields(lines[n - 1], sep)|)
      && (y.error.Some? && y.error.value.MalformedHeader? ==> header && y.rows == [])
  {
    ParseRows(lines, fields, sep, header);
    ParseFailure(lines, fields, sep, header);
  }

  /** The tuples a parse yields are the split data lines, in order, all of them when nothing raised. */
  lemma ParseRows(lines: seq<string>, fields: nat, sep: char, header: bool)
    requires FileLines(lines)
    ensures |Parse(lines, fields, sep, header).rows| + Skipped(lines, header) <= |lines|
    ensures forall j :: 0 <= j < |Parse(lines, fields, sep, header).rows| ==>
      Parse(lines, fields, sep, header).rows[j] == Fields(lines[j + Skipped(lines, header)], sep)
    ensures Parse(lines, fields, sep, header).error == None ==>
      |Parse(lines, fields, sep, header).rows| + Skipped(lines, header) == |lines|
  {
    if !(header && |Split(HeaderLine(lines), sep)| != fields) {
      var data := DataLines(lines, header);
      var skip := Skipped(lines, header);
      var y := ParseFrom(data, fields, sep, FirstLineNumber(header));
      assert Parse(lines, fields, sep, header) == y;
      ParseFromSpec(data, fields, sep, FirstLineNumber(header));
      assert |data| + skip == |lines|;
      forall j | 0 <= j < |Parse(lines, fields, sep, header).rows|
        ensures Parse(lines, fields, sep, header).rows[j] == Fields(lines[j + Skipped(lines, header)], sep)
      {
        DataLine(lines, header, j);
        assert y.rows[j] == Fields(data[j], sep);
      }
    } else {
      assert Parse(lines, fields, sep, header).rows == [];
    }
  }

  /** The `j`-th data line is the line `j` places after the header, if any. */
  lemma DataLine(lines: seq<string>, header: bool, j: nat)
    requires j < |DataLines(lines, header)|
    ensures var skip := Skipped(lines, header);
      j + skip < |lines| && DataLines(lines, header)[j] == lines[j + skip]
  {
  }

  /** A parse that raises on a record names the first malformed line by its 1-based number in the file. */
  lemma ParseFailure(lines: seq<string>, fields: nat, sep: char, header: bool)
    requires FileLines(lines)
    ensures var y := Parse(lines, fields, sep, header);
      && (y.error.Some? && y.error.value.MalformedRecord? ==>
            var n := y.error.value.line;
            && n == |y.rows| + FirstLineNumber(header)
            && 1 <= n <= |lines|
            && |Fields(lines[n - 1], sep)| != fields
            && y.error.value.found == |Fields(lines[n - 1], sep)|)
      && (y.error.Some? && y.error.value.MalformedHeader? ==> header && y.rows == [])
  {
    if !(header && |Split(HeaderLine(lines), sep)| != fields) {
      var data := DataLines(lines, header);
      var skip := Skipped(lines, header);
      var y := ParseFrom(data, fields, sep, FirstLineNumber(header));
      assert Parse(lines, fields, sep, header) == y;
      ParseFromSpec(data, fields, sep, FirstLineNumber(header));
      if y.error.Some? {
        DataLine(lines, header, |y.rows|);
      }
    }
  }

  /**
   * Splitting is lossless: joining a yielded tuple with the separator gives back
   * its line with the trailing newline removed and nothing else changed.
   */
  lemma RowRoundTrip(lines: seq<string>, fields: nat, sep: char, header: bool, j: nat)
    requires FileLines(lines)
    requires j < |Parse(lines, fields, sep, header).rows|
    ensures var skip := Skipped(lines, header);
      j + skip < |lines|
      && Join(Parse(lines, fields, sep, header).rows[j], sep) == StripNewline(lines[j + skip])
  {
    ParseSpec(lines, fields, sep, header);
    var skip := Skipped(lines, header);
    JoinSplit(StripNewline(lines[j + skip]), sep);
  }
}
