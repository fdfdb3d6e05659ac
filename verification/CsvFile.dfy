/** A whole file of CSV: imported line by line, and written and read back. */
module CsvFile {
  import opened Options
  import opened Bytes
  import opened Csv
  import opened CsvImport
  import opened CsvBuffer

  /** One line of the file in its buffer: cut, count, dequote, bind. */
  method ImportBuffer(z: array<byte>, ghost line: Text, nCol: nat, sep: byte) returns (row: Option<seq<Text>>)
    requires nCol > 0 && NulFree(line) && z[..] == line + [0]
    modifies z
    ensures row == ImportLine(line, nCol, sep)
  {
    var azCol, i := CutColumns(z, line, nCol, sep);
    if i + 1 != nCol {
      return None;
    }
    SplitNulFree(line, sep, false);
    var bound := BindColumns(z, azCol, Split(line, sep, false));
    return Some(bound);
  }

  function Onto(done: seq<seq<Text>>, r: Option<seq<seq<Text>>>): Option<seq<seq<Text>>> {
    match r
    case None => None
    case Some(rows) => Some(done + rows)
  }

  lemma OntoNothing(r: Option<seq<seq<Text>>>)
    ensures Onto([], r) == r
  {
    if r.Some? { assert [] + r.value == r.value; }
  }

  lemma OntoNext(done: seq<seq<Text>>, row: seq<Text>, r: Option<seq<seq<Text>>>)
    ensures Onto(done, Onto([row], r)) == Onto(done + [row], r)
  {
    if r.Some? { Assoc(done, [row], r.value); }
  }

  lemma LineOfNulFree(input: Text)
    requires NulFree(input) && input != []
    ensures var (line, rest) := GetLine(input, true).value;
            NulFree(line) && NulFree(rest)
  {
    LineIsPrefix(input);
  }

  /** The reading loop of `.import`: None stands for its error exit, which rolls everything back. */
  method ImportFile(input: Text, nCol: nat, sep: byte) returns (rows: Option<seq<seq<Text>>>)
    requires nCol > 0 && NulFree(input)
    ensures rows == ImportAll(input, nCol, sep)
  {
    var done: seq<seq<Text>>, rest := [], input;
    OntoNothing(ImportAll(input, nCol, sep));
    while true
      invariant NulFree(rest) && ImportAll(input, nCol, sep) == Onto(done, ImportAll(rest, nCol, sep))
      decreases |rest|
    {
      var zLine, left := LocalGetline(rest, true);
      if zLine.None? {
        assert done + [] == done;
        return Some(done);
      }
      GetLineShorter(rest, true);
      LineOfNulFree(rest);
      var line := zLine.value;
      var buffer := new byte[|line| + 1](i requires 0 <= i <= |line| => At(line, i));
      assert buffer[..] == line + [0];
      var row := ImportBuffer(buffer, line, nCol, sep);
      if row.None? {
        return None;
      }
      OntoNext(done, row.value, ImportAll(left, nCol, sep));
      done, rest := done + [row.value], left;
    }
  }

  // ----- writing a table and reading it back -----

  lemma {:induction false} DoubleNulFree(z: Text)
    requires NulFree(z)
    ensures NulFree(Double(z, QUOTE))
  {
    if z != [] { DoubleNulFree(z[1..]); }
  }

  lemma {:induction false} JoinedNulFree(fields: seq<Text>, sep: byte)
    requires fields != [] && sep != 0 && forall i :: 0 <= i < |fields| ==> NulFree(fields[i])
    ensures NulFree(Joined(fields, sep))
    decreases |fields|
  {
    DoubleNulFree(fields[0]);
    if |fields| > 1 { JoinedNulFree(fields[1..], sep); }
  }

  /** A table of columns given as C strings. */
  ghost predicate CStringTable(rows: seq<seq<Text>>, nCol: nat) {
    forall r :: 0 <= r < |rows| ==> |rows[r]| == nCol && forall c :: 0 <= c < nCol ==> NulFree(rows[r][c])
  }

  /** What is written of C strings is a text without zero bytes, so it can be read as C strings. */
  lemma {:induction false} RowsNulFree(rows: seq<seq<Text>>, nCol: nat, sep: byte)
    requires nCol > 0 && sep != 0 && CStringTable(rows, nCol)
    ensures NulFree(Rows(rows, sep))
    decreases |rows|
  {
    if rows != [] {
      JoinedNulFree(rows[0], sep);
      RowsNulFree(rows[1..], nCol, sep);
    }
  }

  lemma {:induction false} RowsAppend(rows: seq<seq<Text>>, row: seq<Text>, sep: byte)
    requires row != [] && forall r :: 0 <= r < |rows| ==> rows[r] != []
    ensures Rows(rows + [row], sep) == Rows(rows, sep) + (Joined(row, sep) + [NEWLINE])
    decreases |rows|
  {
    if rows == [] {
      assert [row][1..] == [] && [] + [row] == [row];
    } else {
      assert (rows + [row])[0] == rows[0] && (rows + [row])[1..] == rows[1..] + [row];
      RowsAppend(rows[1..], row, sep);
      Assoc(Joined(rows[0], sep) + [NEWLINE], Rows(rows[1..], sep), Joined(row, sep) + [NEWLINE]);
    }
  }

  /** Write, then import: the table comes back for every separator that can serve as one. */
  method WriteAndImport(table: seq<seq<Text>>, nCol: nat, sep: byte) returns (back: Option<seq<seq<Text>>>)
    requires nCol > 0 && sep != 0 && CStringTable(table, nCol)
    ensures back == ImportAll(Rows(table, sep), nCol, sep)
    ensures sep != QUOTE && (sep != NEWLINE || nCol == 1) ==> back == Some(table)
  {
    var written: Text := [];
    for i := 0 to |table|
      invariant written == Rows(table[..i], sep)
    {
      var row := OutputRow(table[i], sep);
      SliceNext(table, 0, i);
      RowsAppend(table[..i], table[i], sep);
      written := written + row;
    }
    assert table[..|table|] == table;
    RowsNulFree(table, nCol, sep);
    back := ImportFile(written, nCol, sep);
    if sep != QUOTE && (sep != NEWLINE || nCol == 1) { CsvRoundTrip(table, nCol, sep); }
  }
}
