/**
 The `.import` side of CSV: a line is cut at its unquoted separators and each column
 dequoted. Reading what `output_csv` wrote gives the fields back.
 */
module CsvImport {
  import opened Options
  import opened Bytes
  import opened Csv

  // ----- specification -----

  function PrependTo(b: byte, fields: seq<Text>): seq<Text>
    requires fields != []
  {
    [[b] + fields[0]] + fields[1..]
  }

  /** The columns of a line: cut at every separator that is not inside quotes. */
  function Split(line: Text, sep: byte, inQuote: bool): (fields: seq<Text>)
    ensures fields != []
  {
    if line == [] then [[]]
    else
      var q := if line[0] == QUOTE then !inQuote else inQuote;
      if !q && line[0] == sep then [[]] + Split(line[1..], sep, q)
      else PrependTo(line[0], Split(line[1..], sep, q))
  }

  /** The text behind an opening quote: of a quote and what follows it, the latter; a final quote goes. */
  function Undouble(s: Text): Text {
    if s == [] then []
    else if s[0] == QUOTE then (if |s| == 1 then [] else [s[1]] + Undouble(s[2..]))
    else [s[0]] + Undouble(s[1..])
  }

  function Dequote(field: Text): Text {
    if field != [] && field[0] == QUOTE then Undouble(field[1..]) else field
  }

  function DequoteAll(fields: seq<Text>): seq<Text> {
    if fields == [] then [] else [Dequote(fields[0])] + DequoteAll(fields[1..])
  }

  /** One line of `.import` into a table of nCol columns; None is the column-count error. */
  function ImportLine(line: Text, nCol: nat, sep: byte): Option<seq<Text>> {
    var fields := Split(line, sep, false);
    if |fields| == nCol then Some(DequoteAll(fields)) else None
  }

  lemma GetLineShorter(input: Text, csv: bool)
    requires input != []
    ensures GetLine(input, csv).Some? && |GetLine(input, csv).value.1| < |input|
  {}

  /** The whole file: every line must have nCol columns. */
  function ImportAll(input: Text, nCol: nat, sep: byte): Option<seq<seq<Text>>>
    decreases |input|
  {
    if input == [] then Some([])
    else
      GetLineShorter(input, true);
      var (line, rest) := GetLine(input, true).value;
      match ImportLine(line, nCol, sep)
      case None => None
      case Some(row) =>
        match ImportAll(rest, nCol, sep)
        case None => None
        case Some(rows) => Some([row] + rows)
  }

  // ----- one field -----

  lemma {:induction false} UndoubleDoubled(z: Text)
    ensures Undouble(Double(z, QUOTE) + [QUOTE]) == z
  {
    if z == [] {
    } else {
      var b, rest := z[0], Double(z[1..], QUOTE) + [QUOTE];
      UndoubleDoubled(z[1..]);
      Assoc(if b == QUOTE then [QUOTE, QUOTE] else [b], Double(z[1..], QUOTE), [QUOTE]);
      UndoubleFirst(b, rest);
      HeadTail(z);
    }
  }

  lemma UndoubleFirst(b: byte, rest: Text)
    ensures Undouble((if b == QUOTE then [QUOTE, QUOTE] else [b]) + rest) == [b] + Undouble(rest)
  {
    TakeDrop(if b == QUOTE then [QUOTE, QUOTE] else [b], rest);
  }

  /** Dequoting undoes quoting. */
  lemma DequoteField(z: Text, sep: byte)
    ensures Dequote(Field(z, sep)) == z
  {
    if Quoted(z, sep) {
      UndoubleDoubled(z);
      assert Field(z, sep)[1..] == Double(z, QUOTE) + [QUOTE];
    } else {
      assert z[0] != QUOTE;
    }
  }

  /** Bytes that leave the splitter in the same column, and the quote state after them. */
  predicate StaysInColumn(s: Text, sep: byte, inQuote: bool)
    decreases |s|
  {
    s == [] ||
    var q := if s[0] == QUOTE then !inQuote else inQuote;
    !(!q && s[0] == sep) && StaysInColumn(s[1..], sep, q)
  }

  lemma {:induction false} SplitWithin(s: Text, rest: Text, sep: byte, inQuote: bool)
    requires StaysInColumn(s, sep, inQuote)
    ensures var more := Split(rest, sep, Toggled(s, inQuote));
            Split(s + rest, sep, inQuote) == [s + more[0]] + more[1..]
    decreases |s|
  {
    var more := Split(rest, sep, Toggled(s, inQuote));
    if s == [] {
      assert s + rest == rest && [] + more[0] == more[0];
    } else {
      var q := if s[0] == QUOTE then !inQuote else inQuote;
      assert (s + rest)[0] == s[0] && (s + rest)[1..] == s[1..] + rest;
      SplitWithin(s[1..], rest, sep, q);
      assert s == [s[0]] + s[1..];
      assert [s[0]] + (s[1..] + more[0]) == s + more[0];
    }
  }

  lemma StaysFirst(b: byte, rest: Text, sep: byte, inQuote: bool)
    ensures var q := if b == QUOTE then !inQuote else inQuote;
            StaysInColumn([b] + rest, sep, inQuote) <==> !(!q && b == sep) && StaysInColumn(rest, sep, q)
  {
    assert ([b] + rest)[1..] == rest;
  }

  /** Inside quotes, doubled text stays in the column and leaves it quoted. */
  lemma {:induction false} DoubledStays(z: Text, tail: Text, sep: byte)
    requires sep != QUOTE
    ensures StaysInColumn(Double(z, QUOTE) + tail, sep, true) == StaysInColumn(tail, sep, true)
    ensures Toggled(Double(z, QUOTE) + tail, true) == Toggled(tail, true)
  {
    if z == [] {
      assert [] + tail == tail;
    } else {
      var rest := Double(z[1..], QUOTE) + tail;
      DoubledStays(z[1..], tail, sep);
      if z[0] == QUOTE {
        assert Double(z, QUOTE) + tail == [QUOTE] + ([QUOTE] + rest);
        StaysFirst(QUOTE, [QUOTE] + rest, sep, true);
        ToggledFirst(QUOTE, [QUOTE] + rest, true);
        StaysFirst(QUOTE, rest, sep, false);
        ToggledFirst(QUOTE, rest, false);
      } else {
        assert Double(z, QUOTE) + tail == [z[0]] + rest;
        StaysFirst(z[0], rest, sep, true);
        ToggledFirst(z[0], rest, true);
      }
    }
  }

  lemma {:induction false} PlainStays(z: Text, sep: byte)
    requires sep != QUOTE
    requires forall i :: 0 <= i < |z| ==> z[i] != QUOTE && z[i] != sep
    ensures StaysInColumn(z, sep, false) && !Toggled(z, false)
  {
    if z != [] { PlainStays(z[1..], sep); }
  }

  lemma FieldStays(z: Text, sep: byte)
    requires sep != QUOTE
    ensures StaysInColumn(Field(z, sep), sep, false) && !Toggled(Field(z, sep), false)
  {
    if Quoted(z, sep) {
      var tail := Double(z, QUOTE) + [QUOTE];
      DoubledStays(z, [QUOTE], sep);
      Single(QUOTE);
      StaysFirst(QUOTE, [], sep, true);
      ToggledFirst(QUOTE, [], true);
      Assoc([QUOTE], Double(z, QUOTE), [QUOTE]);
      StaysFirst(QUOTE, tail, sep, false);
      ToggledFirst(QUOTE, tail, false);
    } else {
      PlainStays(z, sep);
    }
  }

  // ----- one row -----

  lemma {:induction false} SplitJoined(fields: seq<Text>, sep: byte)
    requires fields != [] && sep != QUOTE
    ensures DequoteAll(Split(Joined(fields, sep), sep, false)) == fields
    ensures |Split(Joined(fields, sep), sep, false)| == |fields|
    decreases |fields|
  {
    var field := Field(fields[0], sep);
    FieldStays(fields[0], sep);
    DequoteField(fields[0], sep);
    if |fields| == 1 {
      SplitWithin(field, [], sep, false);
      assert field + [] == field;
      assert DequoteAll([field]) == [fields[0]] + DequoteAll([]);
    } else {
      var rest := Joined(fields[1..], sep);
      SplitWithin(field, [sep] + rest, sep, false);
      assert ([sep] + rest)[1..] == rest;
      var more := Split(rest, sep, false);
      assert Split([sep] + rest, sep, false) == [[]] + more;
      assert Joined(fields, sep) == field + ([sep] + rest);
      assert Split(Joined(fields, sep), sep, false) == [field + []] + more;
      assert field + [] == field;
      SplitJoined(fields[1..], sep);
      assert ([field] + more)[1..] == more;
    }
  }

  /** A stretch of a line in which no newline is unquoted, from quote state q to quote state r. */
  predicate Continues(s: Text, q: bool)
    decreases |s|
  {
    s == [] ||
    var q' := if s[0] == QUOTE then !q else q;
    !(s[0] == NEWLINE && !q') && Continues(s[1..], q')
  }

  lemma {:induction false} ScanWithin(s: Text, rest: Text, q: bool)
    requires Continues(s, q)
    ensures Scan(s + rest, q, true) == Shift(|s|, Scan(rest, Toggled(s, q), true))
    decreases |s|
  {
    if s == [] {
      assert s + rest == rest;
    } else {
      HeadTail(s);
      ContinuesFirst(s[0], s[1..], q);
      ScanWithin(s[1..], rest, if s[0] == QUOTE then !q else q);
      ScanOver(s[0], s[1..], rest, q);
    }
  }

  lemma ScanOver(b: byte, tail: Text, rest: Text, q: bool)
    requires b == NEWLINE ==> q
    ensures var q' := if b == QUOTE then !q else q;
            && Scan([b] + tail + rest, q, true) == Shift(1, Scan(tail + rest, q', true))
            && Toggled([b] + tail, q) == Toggled(tail, q')
  {
    Assoc([b], tail, rest);
    ScanFirst(b, tail + rest, q, true);
    ToggledFirst(b, tail, q);
  }

  lemma ContinuesFirst(b: byte, rest: Text, q: bool)
    ensures var q' := if b == QUOTE then !q else q;
            Continues([b] + rest, q) <==> !(b == NEWLINE && !q') && Continues(rest, q')
  {
    assert ([b] + rest)[1..] == rest;
  }

  lemma {:induction false} DoubledContinues(z: Text, tail: Text)
    ensures Continues(Double(z, QUOTE) + tail, true) == Continues(tail, true)
  {
    if z == [] {
      assert [] + tail == tail;
    } else {
      var rest := Double(z[1..], QUOTE) + tail;
      DoubledContinues(z[1..], tail);
      if z[0] == QUOTE {
        assert Double(z, QUOTE) + tail == [QUOTE] + ([QUOTE] + rest);
        ContinuesFirst(QUOTE, [QUOTE] + rest, true);
        ContinuesFirst(QUOTE, rest, false);
      } else {
        assert Double(z, QUOTE) + tail == [z[0]] + rest;
        ContinuesFirst(z[0], rest, true);
      }
    }
  }

  lemma {:induction false} PlainContinues(z: Text)
    requires forall i :: 0 <= i < |z| ==> z[i] != QUOTE && z[i] != NEWLINE
    ensures Continues(z, false)
  {
    if z != [] { PlainContinues(z[1..]); }
  }

  lemma FieldContinues(z: Text, sep: byte)
    ensures Continues(Field(z, sep), false)
  {
    if Quoted(z, sep) {
      DoubledContinues(z, [QUOTE]);
      ContinuesFirst(QUOTE, [], true);
      ContinuesFirst(QUOTE, Double(z, QUOTE) + [QUOTE], false);
      assert [QUOTE] + [] == [QUOTE];
      assert Field(z, sep) == [QUOTE] + (Double(z, QUOTE) + [QUOTE]);
    } else {
      PlainContinues(z);
    }
  }

  lemma {:induction false} ContinuesAppend(a: Text, b: Text, q: bool)
    requires Continues(a, q) && Continues(b, Toggled(a, q))
    ensures Continues(a + b, q) && Toggled(a + b, q) == Toggled(b, Toggled(a, q))
    decreases |a|
  {
    if a == [] {
      assert a + b == b;
    } else {
      assert (a + b)[1..] == a[1..] + b;
      ContinuesAppend(a[1..], b, if a[0] == QUOTE then !q else q);
    }
  }

  lemma {:induction false} JoinedContinues(fields: seq<Text>, sep: byte)
    requires fields != [] && sep != QUOTE && (sep != NEWLINE || |fields| == 1)
    ensures Continues(Joined(fields, sep), false) && !Toggled(Joined(fields, sep), false)
    decreases |fields|
  {
    var field := Field(fields[0], sep);
    FieldContinues(fields[0], sep);
    FieldStays(fields[0], sep);
    if |fields| > 1 {
      JoinedContinues(fields[1..], sep);
      RowContinues(field, sep, Joined(fields[1..], sep));
    }
  }

  lemma RowContinues(field: Text, sep: byte, rest: Text)
    requires Continues(field, false) && !Toggled(field, false) && Continues(rest, false) && !Toggled(rest, false)
    requires sep != QUOTE && sep != NEWLINE
    ensures Continues(field + [sep] + rest, false) && !Toggled(field + [sep] + rest, false)
  {
    ContinuesFirst(sep, rest, false);
    ToggledFirst(sep, rest, false);
    ContinuesAppend(field, [sep] + rest, false);
    Assoc(field, [sep], rest);
  }

  /** The last byte of a row is never a carriage return: that would have been quoted. */
  lemma {:induction false} JoinedEnds(fields: seq<Text>, sep: byte)
    requires fields != []
    ensures var line := Joined(fields, sep); line != [] && line[|line| - 1] != CR
    decreases |fields|
  {
    if |fields| > 1 {
      JoinedEnds(fields[1..], sep);
      var rest := Joined(fields[1..], sep);
      var line := Joined(fields, sep);
      assert line[|line| - 1] == rest[|rest| - 1];
    } else if !Quoted(fields[0], sep) {
      assert !NeedCsvQuote(fields[0][|fields[0]| - 1]);
    }
  }

  /** The reader returns exactly the row, however many newlines its fields contain. */
  lemma GetLineOfRow(fields: seq<Text>, rest: Text, sep: byte)
    requires fields != [] && sep != QUOTE && (sep != NEWLINE || |fields| == 1)
    ensures GetLine(Joined(fields, sep) + [NEWLINE] + rest, true) == Some((Joined(fields, sep), rest))
  {
    var line := Joined(fields, sep);
    var input := line + [NEWLINE] + rest;
    JoinedContinues(fields, sep);
    JoinedEnds(fields, sep);
    assert input == line + ([NEWLINE] + rest);
    ScanWithin(line, [NEWLINE] + rest, false);
    ScanFirst(NEWLINE, rest, false, true);
    var n := |line| + 1;
    assert input[..n] == line + [NEWLINE] && input[n..] == rest;
    assert (line + [NEWLINE])[..|line|] == line;
  }

  // ----- the round trip -----

  /** A table in CSV mode. */
  function Rows(rows: seq<seq<Text>>, sep: byte): Text
    requires forall r :: 0 <= r < |rows| ==> rows[r] != []
  {
    if rows == [] then [] else Joined(rows[0], sep) + [NEWLINE] + Rows(rows[1..], sep)
  }

  /** A written row is read as this row, and the rest as it is. */
  lemma ImportFirst(row: seq<Text>, rest: Text, nCol: nat, sep: byte)
    requires |row| == nCol > 0 && ImportLine(Joined(row, sep), nCol, sep) == Some(row)
    requires GetLine(Joined(row, sep) + [NEWLINE] + rest, true) == Some((Joined(row, sep), rest))
    ensures ImportAll(Joined(row, sep) + [NEWLINE] + rest, nCol, sep) ==
            match ImportAll(rest, nCol, sep) case None => None case Some(rows) => Some([row] + rows)
  {}

  /** Writing a table and importing it gives the table back, whatever its fields contain. */
  lemma {:induction false} CsvRoundTrip(rows: seq<seq<Text>>, nCol: nat, sep: byte)
    requires nCol > 0 && sep != QUOTE && (sep != NEWLINE || nCol == 1)
    requires forall r :: 0 <= r < |rows| ==> |rows[r]| == nCol
    ensures ImportAll(Rows(rows, sep), nCol, sep) == Some(rows)
    decreases |rows|
  {
    if rows != [] {
      var input := Rows(rows, sep);
      GetLineOfRow(rows[0], Rows(rows[1..], sep), sep);
      SplitJoined(rows[0], sep);
      CsvRoundTrip(rows[1..], nCol, sep);
      HeadTail(rows);
      ImportFirst(rows[0], Rows(rows[1..], sep), nCol, sep);
    }
  }

  // ----- the separators for which it fails -----

  function Quotes(s: Text): nat {
    if s == [] then 0 else (if s[0] == QUOTE then 1 else 0) + Quotes(s[1..])
  }

  /** If the separator is the quote, only every other quote cuts the line. */
  lemma {:induction false} QuoteCuts(line: Text, q: bool)
    ensures |Split(line, QUOTE, q)| <= 1 + (Quotes(line) + if q then 1 else 0) / 2
    decreases |line|
  {
    if line != [] { QuoteCuts(line[1..], if line[0] == QUOTE then !q else q); }
  }

  lemma {:induction false} QuotesSplit(a: Text, b: Text)
    ensures Quotes(a + b) == Quotes(a) + Quotes(b)
  {
    if a == [] {
      assert a + b == b;
    } else {
      assert (a + b)[0] == a[0] && (a + b)[1..] == a[1..] + b;
      QuotesSplit(a[1..], b);
    }
  }

  /** A row of n fields "A". */
  function Letters(n: nat): (row: seq<Text>)
    ensures |row| == n
  {
    if n == 0 then [] else [[65]] + Letters(n - 1)
  }

  lemma {:induction false} QuotesInLetters(n: nat)
    requires n > 0
    ensures Quotes(Joined(Letters(n), QUOTE)) == n - 1
  {
    var field := Field([65], QUOTE);
    assert field == [65] && [65][1..] == [];
    assert Quotes(field) == 0;
    if n > 1 {
      var rest := Joined(Letters(n - 1), QUOTE);
      assert Letters(n)[1..] == Letters(n - 1);
      QuotesInLetters(n - 1);
      QuotesSplit(field + [QUOTE], rest);
      QuotesSplit(field, [QUOTE]);
      assert [QUOTE][1..] == [];
      assert Quotes([QUOTE]) == 1;
    }
  }

  /** A one-row table, written and read. */
  lemma OneRow(row: seq<Text>, nCol: nat, sep: byte)
    requires row != [] && |row| == nCol
    ensures Rows([row], sep) == Joined(row, sep) + [NEWLINE]
    ensures var input := Rows([row], sep);
            (GetLine(input, true).Some? && |Split(GetLine(input, true).value.0, sep, false)| != nCol)
            ==> ImportAll(input, nCol, sep) == None
  {
    assert [row][1..] == [];
    assert Rows([row], sep) == Joined(row, sep) + [NEWLINE] + [];
  }

  lemma QuoteFails(nCol: nat)
    requires nCol > 1
    ensures ImportAll(Rows([Letters(nCol)], QUOTE), nCol, QUOTE) == None
  {
    var input := Rows([Letters(nCol)], QUOTE);
    OneRow(Letters(nCol), nCol, QUOTE);
    QuotesInLetters(nCol);
    QuotesSplit(Joined(Letters(nCol), QUOTE), [NEWLINE]);
    assert [NEWLINE][1..] == [];
    assert Quotes([NEWLINE]) == 0;
    var (line, _) := GetLine(input, true).value;
    LineIsPrefix(input);
    QuotesSplit(line, input[|line|..]);
    assert line + input[|line|..] == input;
    QuoteCuts(line, false);
  }

  lemma LineIsPrefix(input: Text)
    requires input != []
    ensures GetLine(input, true).Some? && GetLine(input, true).value.0 <= input
  {}

  lemma QuoteFailsAlone()
    ensures ImportAll(Rows([[[]]], QUOTE), 1, QUOTE) == None
  {
    var row: seq<Text> := [[]];
    OneRow(row, 1, QUOTE);
    assert Double([], QUOTE) == [];
    assert Field([], QUOTE) == [QUOTE, QUOTE];
    var input := Rows([row], QUOTE);
    assert input == [QUOTE] + ([QUOTE] + ([NEWLINE] + []));
    ScanFirst(QUOTE, [QUOTE] + ([NEWLINE] + []), false, true);
    ScanFirst(QUOTE, [NEWLINE] + [], true, true);
    ScanFirst(NEWLINE, [], false, true);
    var line := [QUOTE, QUOTE];
    assert input[..3] == [QUOTE, QUOTE, NEWLINE];
    assert GetLine(input, true).value.0 == line;
    assert line[1..] == [QUOTE] && [QUOTE][1..] == [];
    assert |Split([QUOTE], QUOTE, true)| == 2;
  }

  lemma NewlineFails(nCol: nat)
    requires nCol > 1
    ensures ImportAll(Rows([Letters(nCol)], NEWLINE), nCol, NEWLINE) == None
  {
    var input := Rows([Letters(nCol)], NEWLINE);
    OneRow(Letters(nCol), nCol, NEWLINE);
    var rest := Joined(Letters(nCol)[1..], NEWLINE) + [NEWLINE];
    assert Field([65], NEWLINE) == [65];
    assert input == [65] + ([NEWLINE] + rest);
    ScanFirst(65, [NEWLINE] + rest, false, true);
    ScanFirst(NEWLINE, rest, false, true);
    assert input[..2] == [65, NEWLINE];
    assert GetLine(input, true).value.0 == [65];
    assert [65][1..] == [];
    assert |Split([65], NEWLINE, false)| == 1;
  }

  ghost predicate TablesRoundTrip(nCol: nat, sep: byte) {
    forall rows: seq<seq<Text>> :: (forall r :: 0 <= r < |rows| ==> rows[r] != [] && |rows[r]| == nCol) ==>
      ImportAll(Rows(rows, sep), nCol, sep) == Some(rows)
  }

  /**
   All tables of nCol columns survive writing and importing exactly if the separator
   is not the quote, and not the newline unless there is nothing to separate.
   */
  lemma SeparatorCondition(nCol: nat, sep: byte)
    requires nCol > 0 && sep != 0
    ensures TablesRoundTrip(nCol, sep) <==> sep != QUOTE && (sep != NEWLINE || nCol == 1)
  {
    if sep != QUOTE && (sep != NEWLINE || nCol == 1) {
      forall rows: seq<seq<Text>> | forall r :: 0 <= r < |rows| ==> rows[r] != [] && |rows[r]| == nCol
        ensures ImportAll(Rows(rows, sep), nCol, sep) == Some(rows)
      {
        CsvRoundTrip(rows, nCol, sep);
      }
    } else {
      var row: seq<Text> := if nCol == 1 then [[]] else Letters(nCol);
      if nCol == 1 { QuoteFailsAlone(); } else if sep == QUOTE { QuoteFails(nCol); } else { NewlineFails(nCol); }
      var rows := [row];
      assert ImportAll(Rows(rows, sep), nCol, sep) != Some(rows);
    }
  }

  // ----- lines that nothing here has written -----

  /** Texts with separators in between, as they are. */
  function Between(fields: seq<Text>, sep: byte): Text
    requires fields != []
  {
    if |fields| == 1 then fields[0] else fields[0] + [sep] + Between(fields[1..], sep)
  }

  lemma {:induction false} StaysWithoutQuote(z: Text, sep: byte)
    requires QUOTE !in z && sep !in z
    ensures StaysInColumn(z, sep, false) && !Toggled(z, false)
  {
    if z != [] { StaysWithoutQuote(z[1..], sep); }
  }

  lemma {:induction false} SplitBetween(fields: seq<Text>, sep: byte)
    requires fields != [] && sep != QUOTE
    requires forall k :: 0 <= k < |fields| ==> QUOTE !in fields[k] && sep !in fields[k]
    ensures Split(Between(fields, sep), sep, false) == fields
    decreases |fields|
  {
    var field := fields[0];
    StaysWithoutQuote(field, sep);
    Nothing(field);
    if |fields| == 1 {
      SplitWithin(field, [], sep, false);
      assert fields == [field];
    } else {
      var rest := Between(fields[1..], sep);
      SplitBetween(fields[1..], sep);
      SplitWithin(field, [sep] + rest, sep, false);
      Cons(sep, rest);
      assert Split([sep] + rest, sep, false) == [[]] + fields[1..];
      Assoc(field, [sep], rest);
      HeadTail(fields);
      Cons(field, fields[1..]);
    }
  }

  lemma {:induction false} DequoteNothing(fields: seq<Text>)
    requires forall k :: 0 <= k < |fields| ==> QUOTE !in fields[k]
    ensures DequoteAll(fields) == fields
  {
    if fields != [] {
      DequoteNothing(fields[1..]);
      HeadTail(fields);
    }
  }

  /**
   A line without quotes is its fields, blanks and empty ones included, if there are as
   many as the table has columns, and an error if there are more or fewer.
   */
  lemma PlainLineImported(fields: seq<Text>, nCol: nat, sep: byte)
    requires fields != [] && sep != 34
    requires forall k :: 0 <= k < |fields| ==> 34 !in fields[k] && sep !in fields[k]
    ensures ImportLine(Between(fields, sep), nCol, sep) == if |fields| == nCol then Some(fields) else None
  {
    SplitBetween(fields, sep);
    DequoteNothing(fields);
  }

  /** In a quoted column a quote gives way to the byte behind it, whatever that is; the last one just goes. */
  lemma QuoteGivesWay(a: Text, x: byte, b: Text)
    requires 34 !in a
    ensures Dequote([34] + a) == a && Dequote([34] + a + [34]) == a
    ensures Dequote([34] + a + [34, x] + b) == a + [x] + Dequote([34] + b)
  {
    var q: Text := [34];
    UndoublePlain(a, []);
    UndoublePlain(a, q);
    UndoublePlain(a, [34, x] + b);
    Nothing(a);
    TakeDrop(q, a);
    Assoc(q, a, q);
    TakeDrop(q, a + q);
    Assoc(q, a, [34, x] + b);
    Assoc(q + a, [34, x], b);
    TakeDrop(q, a + ([34, x] + b));
    TakeDrop(q, b);
    TakeDrop([34, x], b);
    Assoc(a, [x], Undouble(b));
    assert Undouble(q) == [];
  }

  lemma {:induction false} UndoublePlain(a: Text, b: Text)
    requires QUOTE !in a
    ensures Undouble(a + b) == a + Undouble(b)
  {
    if a == [] {
      Nothing(b);
      Nothing(Undouble(b));
    } else {
      HeadTail(a);
      Assoc([a[0]], a[1..], b);
      Cons(a[0], a[1..] + b);
      UndoublePlain(a[1..], b);
      Assoc([a[0]], a[1..], Undouble(b));
    }
  }
}
