/**
 CSV output and `.import`: the writer `output_csv`, the line reader
 `local_getline`, and the splitter and dequoter of `.import`, for one-byte
 separators.
 */
module Csv {
  import opened Options
  import opened Bytes

  // ----- writing -----

  /** The table needCsvQuote. */
  predicate NeedCsvQuote(b: byte) {
    b <= 32 || b == QUOTE || b == APOSTROPHE || b >= 127
  }

  predicate Quoted(z: Text, sep: byte) {
    z == [] || exists i :: 0 <= i < |z| && (NeedCsvQuote(z[i]) || z[i] == sep)
  }

  function Field(z: Text, sep: byte): Text {
    if Quoted(z, sep) then [QUOTE] + Double(z, QUOTE) + [QUOTE] else z
  }

  /**
   For all fields and separators: a field is written as it is exactly if it has a byte and
   all its bytes are printable, from '!' to '~', and none is a quote of either kind or the
   separator. Otherwise it is written between double quotes.
   */
  lemma FieldExactly(z: Text, sep: byte)
    ensures Field(z, sep) == z <==>
            z != [] && forall i :: 0 <= i < |z| ==> 33 <= z[i] <= 126 && z[i] != 34 && z[i] != 39 && z[i] != sep
    ensures Field(z, sep) != z ==>
              var out := Field(z, sep); |out| >= |z| + 2 && out[0] == 34 && out[|out| - 1] == 34
  {
    DoubleLonger(z, QUOTE);
  }

  lemma {:induction false} DoubleLonger(z: Text, quote: byte)
    ensures |Double(z, quote)| >= |z|
  {
    if z != [] { DoubleLonger(z[1..], quote); }
  }

  /** One term of CSV, followed by the separator if `bSep`. */
  method OutputCsv(z: Text, sep: byte, bSep: bool) returns (out: Text)
    ensures out == Field(z, sep) + if bSep then [sep] else []
  {
    out := [];
    var i := 0;
    while i < |z|
      invariant 0 <= i <= |z|
      invariant forall k :: 0 <= k < i ==> !(NeedCsvQuote(z[k]) || z[k] == sep)
    {
      if NeedCsvQuote(z[i]) || z[i] == sep {
        assert Quoted(z, sep);
        i := 0;
        break;
      }
      i := i + 1;
    }
    if i == 0 {
      assert Quoted(z, sep);
      out := [QUOTE];
      while i < |z|
        invariant 0 <= i <= |z|
        invariant out == [QUOTE] + Double(z[..i], QUOTE)
      {
        SliceNext(z, 0, i);
        DoubleSnoc(z[..i], z[i], QUOTE);
        if z[i] == QUOTE {
          out := out + [QUOTE];
        }
        out := out + [z[i]];
        i := i + 1;
      }
      assert z[..|z|] == z;
      out := out + [QUOTE];
    } else {
      out := z;
    }
    if bSep {
      out := out + [sep];
    }
  }

  /** The fields of a row with separators in between. */
  function Joined(fields: seq<Text>, sep: byte): Text
    requires fields != []
  {
    if |fields| == 1 then Field(fields[0], sep)
    else Field(fields[0], sep) + [sep] + Joined(fields[1..], sep)
  }

  lemma {:induction false} JoinedAppend(fields: seq<Text>, last: Text, sep: byte)
    requires fields != []
    ensures Joined(fields + [last], sep) == Joined(fields, sep) + [sep] + Field(last, sep)
  {
    assert (fields + [last])[0] == fields[0];
    assert (fields + [last])[1..] == fields[1..] + [last];
    if |fields| > 1 {
      JoinedAppend(fields[1..], last, sep);
      Assoc(Field(fields[0], sep) + [sep], Joined(fields[1..], sep), [sep]);
      Assoc(Field(fields[0], sep) + [sep], Joined(fields[1..], sep) + [sep], Field(last, sep));
    }
  }

  /** A row of a result in CSV mode. */
  method OutputRow(fields: seq<Text>, sep: byte) returns (out: Text)
    requires fields != []
    ensures out == Joined(fields, sep) + [NEWLINE]
  {
    out := [];
    for i := 0 to |fields|
      invariant i == 0 ==> out == []
      invariant i > 0 ==> out == Joined(fields[..i], sep) + if i < |fields| then [sep] else []
    {
      var term := OutputCsv(fields[i], sep, i < |fields| - 1);
      assert fields[..i + 1] == fields[..i] + [fields[i]];
      if i > 0 {
        JoinedAppend(fields[..i], fields[i], sep);
      }
      out := out + term;
    }
    assert fields[..|fields|] == fields;
    out := out + [NEWLINE];
  }

  // ----- reading a line -----

  /** Length of the first line, counting its newline, and whether it has one that ends it. */
  function Scan(input: Text, inQuote: bool, csv: bool): (r: (nat, bool))
    ensures r.0 <= |input| && (r.1 ==> r.0 > 0) && (!r.1 ==> r.0 == |input|)
  {
    if input == [] then (0, false)
    else
      var q := if input[0] == QUOTE then !inQuote else inQuote;
      if input[0] == NEWLINE && (!q || !csv) then (1, true)
      else
        var (n, ended) := Scan(input[1..], q, csv);
        (1 + n, ended)
  }

  /** Without its newline and a carriage return before it. */
  function Chomp(line: Text): Text
    requires line != []
  {
    var n := |line| - 1;
    if n > 0 && line[n - 1] == CR then line[..n - 1] else line[..n]
  }

  /** The line read and the input left; None at the end of the input. */
  function GetLine(input: Text, csv: bool): Option<(Text, Text)> {
    if input == [] then None
    else
      var (n, ended) := Scan(input, false, csv);
      Some((if ended then Chomp(input[..n]) else input[..n], input[n..]))
  }

  /** fgets with a buffer of this size: stops after a newline or size - 1 bytes. */
  function Fgets(input: Text, size: nat): (r: Text)
    ensures r <= input
    ensures size > 1 && input != [] ==> r != []
    ensures size >= 1 ==> |r| < size
    decreases size
  {
    if size <= 1 || input == [] then []
    else if input[0] == NEWLINE then [NEWLINE]
    else [input[0]] + Fgets(input[1..], size - 1)
  }

  function Toggled(s: Text, inQuote: bool): bool {
    if s == [] then inQuote else Toggled(s[1..], if s[0] == QUOTE then !inQuote else inQuote)
  }

  lemma {:induction false} ToggledAppend(s: Text, b: byte, inQuote: bool)
    ensures Toggled(s + [b], inQuote) == if b == QUOTE then !Toggled(s, inQuote) else Toggled(s, inQuote)
  {
    if s == [] {
      assert s + [b] == [b] && [b][1..] == [];
    } else {
      assert (s + [b])[0] == s[0] && (s + [b])[1..] == s[1..] + [b];
      ToggledAppend(s[1..], b, if s[0] == QUOTE then !inQuote else inQuote);
    }
  }

  function Shift(n: nat, r: (nat, bool)): (nat, bool) {
    (n + r.0, r.1)
  }

  /** A chunk ends the line if it ends in a newline that is not quoted. */
  predicate EndsLine(chunk: Text, inQuote: bool, csv: bool)
    requires chunk != []
  {
    chunk[|chunk| - 1] == NEWLINE && (!Toggled(chunk, inQuote) || !csv)
  }

  lemma ScanFirst(b: byte, rest: Text, inQuote: bool, csv: bool)
    ensures var q := if b == QUOTE then !inQuote else inQuote;
            Scan([b] + rest, inQuote, csv) ==
            if b == NEWLINE && (!q || !csv) then (1, true) else Shift(1, Scan(rest, q, csv))
  {
    assert ([b] + rest)[1..] == rest;
  }

  lemma ToggledFirst(b: byte, rest: Text, inQuote: bool)
    ensures Toggled([b] + rest, inQuote) == Toggled(rest, if b == QUOTE then !inQuote else inQuote)
  {
    assert ([b] + rest)[1..] == rest;
  }

  /** A chunk that fgets may return: a newline can only be its last byte. */
  predicate Chunk(chunk: Text) {
    chunk != [] && forall i :: 0 <= i < |chunk| - 1 ==> chunk[i] != NEWLINE
  }

  lemma {:induction false} FgetsChunk(input: Text, size: nat)
    requires size > 1 && input != []
    ensures Chunk(Fgets(input, size))
    decreases size
  {
    if input[0] != NEWLINE && size > 2 && |input| > 1 {
      FgetsChunk(input[1..], size - 1);
    }
  }

  /** Bytes that are not newlines are read on. */
  lemma {:induction false} ScanQuiet(s: Text, rest: Text, inQuote: bool, csv: bool)
    requires NEWLINE !in s
    ensures ReadsOn(s, rest, inQuote, csv)
    decreases |s|
  {
    if s == [] {
      Nothing(rest);
    } else {
      ScanQuiet(s[1..], rest, if s[0] == QUOTE then !inQuote else inQuote, csv);
      QuietLonger(s[0], s[1..], rest, inQuote, csv);
      HeadTail(s);
    }
  }

  predicate ReadsOn(s: Text, rest: Text, inQuote: bool, csv: bool) {
    Scan(s + rest, inQuote, csv) == Shift(|s|, Scan(rest, Toggled(s, inQuote), csv))
  }

  lemma QuietLonger(b: byte, tail: Text, rest: Text, inQuote: bool, csv: bool)
    requires b != NEWLINE && ReadsOn(tail, rest, if b == QUOTE then !inQuote else inQuote, csv)
    ensures ReadsOn([b] + tail, rest, inQuote, csv)
  {
    ScanLonger(b, tail, rest, inQuote, csv);
  }

  lemma ScanLonger(b: byte, tail: Text, rest: Text, inQuote: bool, csv: bool)
    requires b != NEWLINE
    ensures var q := if b == QUOTE then !inQuote else inQuote;
            && Scan([b] + tail + rest, inQuote, csv) == Shift(1, Scan(tail + rest, q, csv))
            && Toggled([b] + tail, inQuote) == Toggled(tail, q)
  {
    Assoc([b], tail, rest);
    ScanFirst(b, tail + rest, inQuote, csv);
    ToggledFirst(b, tail, inQuote);
  }

  /** And then one more byte. */
  lemma ScanLast(front: Text, b: byte, rest: Text, inQuote: bool, csv: bool)
    requires NEWLINE !in front
    ensures var q := Toggled(front + [b], inQuote);
            Scan(front + [b] + rest, inQuote, csv) ==
            if b == NEWLINE && (!q || !csv) then (|front| + 1, true) else Shift(|front| + 1, Scan(rest, q, csv))
  {
    ScanQuiet(front, [b] + rest, inQuote, csv);
    Assoc(front, [b], rest);
    ScanThen(|front|, b, rest, Toggled(front, inQuote), csv);
    ToggledAppend(front, b, inQuote);
  }

  lemma ScanThen(n: nat, b: byte, rest: Text, inQuote: bool, csv: bool)
    ensures var q := if b == QUOTE then !inQuote else inQuote;
            Shift(n, Scan([b] + rest, inQuote, csv)) ==
            if b == NEWLINE && (!q || !csv) then (n + 1, true) else Shift(n + 1, Scan(rest, q, csv))
  {
    ScanFirst(b, rest, inQuote, csv);
  }

  lemma ChunkLast(chunk: Text)
    requires Chunk(chunk)
    ensures var n := |chunk| - 1; NEWLINE !in chunk[..n] && chunk == chunk[..n] + [chunk[n]]
  {}

  /** Reading a chunk either finishes the line or carries on with the quote state after it. */
  lemma ScanChunk(chunk: Text, rest: Text, inQuote: bool, csv: bool)
    requires Chunk(chunk)
    ensures Scan(chunk + rest, inQuote, csv) ==
            if EndsLine(chunk, inQuote, csv) then (|chunk|, true)
            else Shift(|chunk|, Scan(rest, Toggled(chunk, inQuote), csv))
  {
    ChunkLast(chunk);
    ScanLast(chunk[..|chunk| - 1], chunk[|chunk| - 1], rest, inQuote, csv);
  }

  /** The loop over the bytes just read. */
  method ToggleQuotes(zLine: Text, from: nat, quoted: bool) returns (inQuote: bool)
    requires from <= |zLine|
    ensures inQuote == Toggled(zLine[from..], quoted)
  {
    inQuote := quoted;
    var n := from;
    while n < |zLine|
      invariant from <= n <= |zLine|
      invariant inQuote == Toggled(zLine[from..n], quoted)
    {
      SliceNext(zLine, from, n);
      ToggledAppend(zLine[from..n], zLine[n], quoted);
      if zLine[n] == QUOTE {
        inQuote := !inQuote;
      }
      n := n + 1;
    }
    assert zLine[from..n] == zLine[from..];
  }

  /** What is read when zLine has been read already and `rest` is left. */
  function Resume(zLine: Text, rest: Text, inQuote: bool, csv: bool): Option<(Text, Text)> {
    if zLine == [] && rest == [] then None
    else
      var (n, ended) := Scan(rest, inQuote, csv);
      var line := zLine + rest[..n];
      Some((if ended && line != [] then Chomp(line) else line, rest[n..]))
  }

  lemma ResumeStart(input: Text, csv: bool)
    ensures GetLine(input, csv) == Resume([], input, false, csv)
  {
    var n := Scan(input, false, csv).0;
    assert [] + input[..n] == input[..n];
  }

  lemma ResumeChunk(zLine: Text, chunk: Text, rest: Text, inQuote: bool, csv: bool)
    requires Chunk(chunk)
    ensures Resume(zLine, chunk + rest, inQuote, csv) ==
            if EndsLine(chunk, inQuote, csv) then Some((Chomp(zLine + chunk), rest))
            else Resume(zLine + chunk, rest, Toggled(chunk, inQuote), csv)
  {
    ScanChunk(chunk, rest, inQuote, csv);
    if EndsLine(chunk, inQuote, csv) {
      ResumeEnds(zLine, chunk, rest, inQuote, csv);
    } else {
      ResumeGoesOn(zLine, chunk, rest, inQuote, Toggled(chunk, inQuote), csv);
    }
  }

  lemma ResumeEnds(zLine: Text, chunk: Text, rest: Text, inQuote: bool, csv: bool)
    requires chunk != [] && Scan(chunk + rest, inQuote, csv) == (|chunk|, true)
    ensures Resume(zLine, chunk + rest, inQuote, csv) == Some((Chomp(zLine + chunk), rest))
  {
    TakeDrop(chunk, rest);
  }

  lemma ResumeGoesOn(zLine: Text, chunk: Text, rest: Text, inQuote: bool, after: bool, csv: bool)
    requires chunk != [] && Scan(chunk + rest, inQuote, csv) == Shift(|chunk|, Scan(rest, after, csv))
    ensures Resume(zLine, chunk + rest, inQuote, csv) == Resume(zLine + chunk, rest, after, csv)
  {
    var n := Scan(rest, after, csv).0;
    TakeOver(chunk, rest, n);
    DropOver(chunk, rest, n);
    Assoc(zLine, chunk, rest[..n]);
  }

  /** One call of fgets that returns something. */
  lemma ResumeNext(zLine: Text, rest: Text, size: nat, inQuote: bool, csv: bool)
    requires size > 1 && Fgets(rest, size) != []
    ensures var chunk := Fgets(rest, size);
            && |chunk| <= |rest| && (zLine + chunk)[|zLine|..] == chunk
            && (zLine + chunk)[|zLine + chunk| - 1] == chunk[|chunk| - 1]
            && Resume(zLine, rest, inQuote, csv) ==
               if EndsLine(chunk, inQuote, csv) then Some((Chomp(zLine + chunk), rest[|chunk|..]))
               else Resume(zLine + chunk, rest[|chunk|..], Toggled(chunk, inQuote), csv)
  {
    var chunk := Fgets(rest, size);
    FgetsChunk(rest, size);
    assert rest == chunk + rest[|chunk|..];
    ResumeChunk(zLine, chunk, rest[|chunk|..], inQuote, csv);
  }

  lemma ResumeLast(zLine: Text, rest: Text, size: nat, inQuote: bool, csv: bool)
    requires size > 1 && Fgets(rest, size) == []
    ensures Resume(zLine, rest, inQuote, csv) == if zLine == [] then None else Some((zLine, rest))
  {
    assert zLine + [] == zLine;
  }

  /** A line that has just been read up to here is finished, or goes on. */
  function Finished(line: Text, rest: Text, inQuote: bool, csv: bool): Option<(Text, Text)>
    requires line != []
  {
    if line[|line| - 1] == NEWLINE && (!inQuote || !csv) then Some((Chomp(line), rest))
    else Resume(line, rest, inQuote, csv)
  }

  lemma FinishedLine(line: Text, rest: Text, inQuote: bool, csv: bool, n: nat)
    requires line != [] && line[|line| - 1] == NEWLINE && (!inQuote || !csv)
    requires n == if |line| > 1 && line[|line| - 2] == CR then |line| - 2 else |line| - 1
    ensures Finished(line, rest, inQuote, csv) == Some((line[..n], rest))
  {}

  /** What is read if the next call of fgets returns nothing, or else line and rest. */
  function Next(zLine: Text, input: Text, line: Text, rest: Text, inQuote: bool, csv: bool): Option<(Text, Text)> {
    if |line| > |zLine| then Finished(line, rest, inQuote, csv) else if zLine == [] then None else Some((zLine, input))
  }

  lemma NextChunk(zLine: Text, input: Text, size: nat, line: Text, rest: Text, quoted: bool, inQuote: bool, csv: bool)
    requires size > 1 && Fgets(input, size) != [] && |Fgets(input, size)| <= |input|
    requires line == zLine + Fgets(input, size) && rest == input[|Fgets(input, size)|..]
    requires inQuote == Toggled(line[|zLine|..], quoted)
    ensures Resume(zLine, input, quoted, csv) == Next(zLine, input, line, rest, inQuote, csv)
  {
    ResumeNext(zLine, input, size, quoted, csv);
  }

  /** fgets at the end of what has been read, and the loop that counts the quotes in it. */
  method ReadChunk(
    zLine: Text, input: Text, size: nat, quoted: bool, ghost csv: bool)
    returns (line: Text, rest: Text, inQuote: bool)
    requires size > 1
    ensures |zLine| <= |line| < |zLine| + size && (|line| > |zLine| ==> |rest| < |input|)
    ensures Resume(zLine, input, quoted, csv) == Next(zLine, input, line, rest, inQuote, csv)
  {
    var chunk := Fgets(input, size);
    if chunk == [] {
      ResumeLast(zLine, input, size, quoted, csv);
      return zLine, input, quoted;
    }
    line, rest := zLine + chunk, input[|chunk|..];
    inQuote := ToggleQuotes(line, |zLine|, quoted);
    NextChunk(zLine, input, size, line, rest, quoted, inQuote, csv);
  }

  /**
   A line up to its newline, where the quotes in it are paired or do not count: one carriage
   return in front of the newline goes, and nothing else.
   */
  lemma LineRead(line: Text, rest: Text, csv: bool)
    requires 10 !in line && (csv ==> 34 !in line)
    ensures var bare := if line != [] && line[|line| - 1] == 13 then line[..|line| - 1] else line;
            GetLine(line + [10] + rest, csv) == Some((bare, rest))
    ensures line != [] ==> GetLine(line, csv) == Some((line, []))
  {
    var all := line + [NEWLINE] + rest;
    if csv { NoQuoteNoToggle(line, false); }
    ScanLast(line, NEWLINE, rest, false, csv);
    ToggledAppend(line, NEWLINE, false);
    TakeDrop(line + [NEWLINE], rest);
    TakeDrop(line, [NEWLINE]);
    if line != [] { assert (line + [NEWLINE])[..|line| - 1] == line[..|line| - 1]; }
    Nothing(line);
    ScanQuiet(line, [], false, csv);
  }

  lemma {:induction false} NoQuoteNoToggle(s: Text, inQuote: bool)
    requires QUOTE !in s
    ensures Toggled(s, inQuote) == inQuote
  {
    if s != [] { NoQuoteNoToggle(s[1..], inQuote); }
  }

  /** `local_getline` over a growing buffer: the chunks do not show in the result. */
  method LocalGetline(input: Text, csv: bool) returns (line: Option<Text>, rest: Text)
    requires NulFree(input)
    ensures GetLine(input, csv) == if line.None? then None else Some((line.value, rest))
    ensures line.None? ==> rest == input
  {
    line, rest := ReadChunks(input, csv);
  }

  /** Its loop. */
  method ReadChunks(input: Text, csv: bool) returns (line: Option<Text>, rest: Text)
    ensures GetLine(input, csv) == if line.None? then None else Some((line.value, rest))
    ensures line.None? ==> rest == input
  {
    var nLine, inQuote, finished := 100, false, false;
    var zLine: Text := [];
    line, rest := None, input;
    ghost var r := GetLine(input, csv);
    ResumeStart(input, csv);
    while !finished
      invariant |zLine| < nLine && nLine >= 100
      invariant zLine == [] ==> rest == input
      invariant if finished then r == Ended(line, rest) else r == Resume(zLine, rest, inQuote, csv)
      decreases |rest|, !finished
    {
      finished, line, zLine, rest, nLine, inQuote := ReadMore(zLine, rest, nLine, inQuote, csv, r);
    }
  }

  function Ended(line: Option<Text>, rest: Text): Option<(Text, Text)> {
    if line.None? then None else Some((line.value, rest))
  }

  /** Its body: `finished` if the loop is left. */
  method ReadMore(zLine: Text, input: Text, size: nat, quoted: bool, csv: bool, ghost r: Option<(Text, Text)>)
    returns (finished: bool, line: Option<Text>, longer: Text, rest: Text, nLine: nat, inQuote: bool)
    requires |zLine| < size && size >= 100 && r == Resume(zLine, input, quoted, csv)
    ensures |longer| < nLine && nLine >= 100
    ensures longer == [] ==> zLine == [] && rest == input
    ensures if finished then r == Ended(line, rest) && |rest| <= |input|
            else r == Resume(longer, rest, inQuote, csv) && |rest| < |input|
  {
    var n := |zLine|;
    nLine := if n + 100 > size then size * 2 + 100 else size;
    longer, rest, inQuote := ReadChunk(zLine, input, nLine - n, quoted, csv);
    if |longer| == n {
      return true, if n == 0 then None else Some(zLine), zLine, input, nLine, inQuote;
    }
    n := |longer|;
    if n > 0 && longer[n - 1] == NEWLINE && (!inQuote || !csv) {
      n := n - 1;
      if n > 0 && longer[n - 1] == CR {
        n := n - 1;
      }
      FinishedLine(longer, rest, inQuote, csv, n);
      return true, Some(longer[..n]), longer, rest, nLine, inQuote;
    }
    return false, None, longer, rest, nLine, inQuote;
  }
}
