/**
 The column layout of `.tables`: two nested loops, the inner one striding by the
 number of lines.
 */
module TableLayout {
  import opened Options
  import opened Bytes

  const SPACE: byte := 32

  function MaxLen(names: seq<Text>): nat {
    if names == [] then 0 else Max(MaxLen(names[..|names| - 1]), |names[|names| - 1]|)
  }

  function PrintCols(maxlen: nat): nat {
    Max(80 / (maxlen + 2), 1)
  }

  function PrintRows(n: nat, cols: nat): nat
    requires cols > 0
  {
    (n + cols - 1) / cols
  }

  /** The indices printed on a line: from `j` in steps of `rows`. */
  function Strided(j: nat, rows: nat, n: nat): seq<nat>
    requires rows > 0
    decreases n - j
  {
    if j >= n then [] else [j] + Strided(j + rows, rows, n)
  }

  function Spaces(n: nat): (s: Text)
    ensures |s| == n
  {
    seq(n, _ => SPACE)
  }

  /** An entry, padded, with two spaces in front unless it is in the first column. */
  function Cell(names: seq<Text>, j: nat, rows: nat, maxlen: nat): Text
    requires j < |names|
  {
    (if j < rows then [] else Spaces(2)) + names[j] + Spaces(Max(maxlen - |names[j]|, 0))
  }

  function Line(names: seq<Text>, j: nat, rows: nat, maxlen: nat): Text
    requires rows > 0
    decreases |names| - j
  {
    if j >= |names| then [] else Cell(names, j, rows, maxlen) + Line(names, j + rows, rows, maxlen)
  }

  function Lines(names: seq<Text>, i: nat, rows: nat, maxlen: nat): Text
    requires i <= rows && rows > 0
    decreases rows - i
  {
    if i == rows then [] else Line(names, i, rows, maxlen) + [NEWLINE] + Lines(names, i + 1, rows, maxlen)
  }

  /** How many lines a listing of n names takes. */
  function LineCount(n: nat, maxlen: nat): (rows: nat)
    ensures n > 0 ==> rows > 0
  {
    if n > 0 then RowsPositive(n, PrintCols(maxlen)); PrintRows(n, PrintCols(maxlen)) else 0
  }

  function Table(names: seq<Text>): Text {
    if names == [] then [] else Lines(names, 0, LineCount(|names|, MaxLen(names)), MaxLen(names))
  }

  lemma RowsPositive(n: nat, cols: nat)
    requires n > 0 && cols > 0
    ensures PrintRows(n, cols) > 0
  {
    CeilingDiv(n, cols);
  }

  lemma CeilingDiv(n: nat, cols: nat)
    requires cols > 0
    ensures (PrintRows(n, cols) - 1) * cols < n <= PrintRows(n, cols) * cols
  {
    var q := PrintRows(n, cols);
    assert n + cols - 1 == q * cols + (n + cols - 1) % cols;
    assert (q - 1) * cols == q * cols - cols;
  }

  /** The bounds determine the number of lines. */
  lemma RowsUnique(n: nat, cols: nat, q: nat)
    requires cols > 0 && (q - 1) * cols < n <= q * cols
    ensures q == PrintRows(n, cols)
  {
    var rows := PrintRows(n, cols);
    CeilingDiv(n, cols);
    MulOrder(q - 1, rows, cols);
    MulOrder(rows - 1, q, cols);
    assert q - 1 < rows && rows - 1 < q;
  }

  lemma MulOrder(a: int, b: int, c: nat)
    ensures a >= b ==> a * c >= b * c
  {
    if a >= b {
      assert (a - b) * c >= 0;
      assert (a - b) * c == a * c - b * c;
    }
  }

  method LongestName(names: seq<Text>) returns (maxlen: nat)
    ensures maxlen == MaxLen(names)
  {
    maxlen := 0;
    for i := 0 to |names|
      invariant maxlen == MaxLen(names[..i])
    {
      assert names[..i + 1][..i] == names[..i];
      var len := |names[i]|;
      if len > maxlen {
        maxlen := len;
      }
    }
    assert names[..|names|] == names;
  }

  /** The inner loop. */
  method PrintLine(names: seq<Text>, i: nat, nPrintRow: nat, maxlen: nat) returns (out: Text)
    requires nPrintRow > 0
    ensures out == Line(names, i, nPrintRow, maxlen)
  {
    out := [];
    var j := i;
    ghost var line := Line(names, i, nPrintRow, maxlen);
    assert [] + line == line;
    while j < |names|
      invariant line == out + Line(names, j, nPrintRow, maxlen)
      decreases |names| - j
    {
      var cell := Cell(names, j, nPrintRow, maxlen);
      Assoc(out, cell, Line(names, j + nPrintRow, nPrintRow, maxlen));
      out := out + cell;
      j := j + nPrintRow;
    }
    assert out + [] == out;
  }

  /** The outer loop. */
  method PrintLines(names: seq<Text>, nPrintRow: nat, maxlen: nat) returns (out: Text)
    requires nPrintRow > 0
    ensures out == Lines(names, 0, nPrintRow, maxlen)
  {
    out := [];
    ghost var all := Lines(names, 0, nPrintRow, maxlen);
    assert [] + all == all;
    for i := 0 to nPrintRow
      invariant all == out + Lines(names, i, nPrintRow, maxlen)
    {
      var line := PrintLine(names, i, nPrintRow, maxlen);
      ghost var rest := Lines(names, i + 1, nPrintRow, maxlen);
      Assoc(out, line + [NEWLINE], rest);
      Assoc(out, line, [NEWLINE]);
      out := out + line + [NEWLINE];
    }
    assert out + [] == out;
  }

  /** The longest of the names, or 0. */
  lemma {:induction false} MaxLenExactly(names: seq<Text>)
    ensures forall i :: 0 <= i < |names| ==> |names[i]| <= MaxLen(names)
    ensures names == [] ==> MaxLen(names) == 0
    ensures names != [] ==> exists i :: 0 <= i < |names| && |names[i]| == MaxLen(names)
  {
    var last := |names| - 1;
    if last > 0 {
      MaxLenExactly(names[..last]);
      var k :| 0 <= k < last && |names[..last][k]| == MaxLen(names[..last]);
      assert names[k] == names[..last][k];
      var longest := if |names[k]| < |names[last]| then last else k;
      assert |names[longest]| == MaxLen(names);
      forall i | 0 <= i < last ensures |names[i]| <= MaxLen(names) { assert names[i] == names[..last][i]; }
    } else if last == 0 {
      assert names[..0] == [];
      assert |names[last]| == MaxLen(names);
    }
  }

  /** An entry is printed at the left of its column, two blanks behind the one before; the rest of it is blank. */
  lemma CellExactly(names: seq<Text>, j: nat, rows: nat, maxlen: nat)
    requires j < |names| && |names[j]| <= maxlen
    ensures var cell, off := Cell(names, j, rows, maxlen), if j < rows then 0 else 2;
            && |cell| == off + maxlen && cell[off..off + |names[j]|] == names[j]
            && forall k :: 0 <= k < off || off + |names[j]| <= k < |cell| ==> cell[k] == 32
  {
    var front, back := if j < rows then [] else Spaces(2), Spaces(Max(maxlen - |names[j]|, 0));
    AllSpaces(2);
    AllSpaces(|back|);
    Framed(front, names[j], back);
  }

  lemma AllSpaces(n: nat)
    ensures forall k :: 0 <= k < n ==> Spaces(n)[k] == 32
  {}

  lemma Framed(front: Text, text: Text, back: Text)
    requires (forall k :: 0 <= k < |front| ==> front[k] == 32) && forall k :: 0 <= k < |back| ==> back[k] == 32
    ensures var all, off := front + text + back, |front|;
            && all[off..off + |text|] == text
            && forall k :: 0 <= k < off || off + |text| <= k < |all| ==> all[k] == 32
  {
    var all := front + text + back;
    forall k | 0 <= k < |front| || |front| + |text| <= k < |all| ensures all[k] == 32 {
      assert all[k] == if k < |front| then front[k] else back[k - |front| - |text|];
    }
  }

  // ----- which index is printed where -----

  /** The c-th entry of a line is `rows` places after the one before it; the line stops at n. */
  lemma {:induction false} StridedAt(j: nat, rows: nat, n: nat, c: nat)
    requires rows > 0
    ensures c < |Strided(j, rows, n)| <==> j + c * rows < n
    ensures c < |Strided(j, rows, n)| ==> Strided(j, rows, n)[c] == j + c * rows
    decreases n - j
  {
    if j < n {
      if c > 0 {
        StridedAt(j + rows, rows, n, c - 1);
        assert j + rows + (c - 1) * rows == j + c * rows;
      }
    } else {
      assert c * rows >= 0;
    }
  }

  /** All indices, line by line, in the order they are printed. */
  function Printed(i: nat, rows: nat, n: nat): seq<nat>
    requires i <= rows && rows > 0
    decreases rows - i
  {
    if i == rows then [] else Strided(i, rows, n) + Printed(i + 1, rows, n)
  }

  /** How often x comes among j, j + rows, j + 2 rows and so on below n. */
  function OnStride(j: nat, rows: nat, n: nat, x: nat): nat
    requires rows > 0
  {
    if j <= x < n && (x - j) % rows == 0 then 1 else 0
  }

  lemma StrideNext(j: nat, rows: nat, n: nat, x: nat)
    requires rows > 0 && j < n
    ensures OnStride(j, rows, n, x) == (if x == j then 1 else 0) + OnStride(j + rows, rows, n, x)
  {
    if x > j { ModStep(x - j, rows); }
  }

  lemma CountFirst(all: seq<nat>, j: nat, rest: seq<nat>, x: nat)
    requires all == [j] + rest
    ensures multiset(all)[x] == (if x == j then 1 else 0) + multiset(rest)[x]
  {
    assert multiset([j] + rest) == multiset([j]) + multiset(rest);
  }

  lemma StridedOnce(j: nat, rows: nat, n: nat, x: nat)
    requires rows > 0
    ensures multiset(Strided(j, rows, n))[x] == OnStride(j, rows, n, x)
  {
    StridedOften(j, rows, n, x);
    OftenOnce(j, rows, n, x);
  }

  /** The same, counted one after the other. */
  function Often(j: nat, rows: nat, n: nat, x: nat): nat
    requires rows > 0
    decreases n - j
  {
    if j >= n then 0 else (if x == j then 1 else 0) + Often(j + rows, rows, n, x)
  }

  lemma {:induction false} StridedOften(j: nat, rows: nat, n: nat, x: nat)
    requires rows > 0
    ensures multiset(Strided(j, rows, n))[x] == Often(j, rows, n, x)
    decreases n - j
  {
    if j < n {
      StridedOften(j + rows, rows, n, x);
      StridedFirst(j, rows, n);
      CountFirst(Strided(j, rows, n), j, Strided(j + rows, rows, n), x);
      OftenFirst(j, rows, n, x);
    }
  }

  lemma OftenFirst(j: nat, rows: nat, n: nat, x: nat)
    requires rows > 0 && j < n
    ensures Often(j, rows, n, x) == (if x == j then 1 else 0) + Often(j + rows, rows, n, x)
  {}

  lemma StridedFirst(j: nat, rows: nat, n: nat)
    requires rows > 0 && j < n
    ensures Strided(j, rows, n) == [j] + Strided(j + rows, rows, n)
  {}

  lemma {:induction false} OftenOnce(j: nat, rows: nat, n: nat, x: nat)
    requires rows > 0
    ensures Often(j, rows, n, x) == OnStride(j, rows, n, x)
    decreases n - j
  {
    if j < n {
      OftenOnce(j + rows, rows, n, x);
      StrideNext(j, rows, n, x);
    }
  }

  lemma ModStep(d: nat, rows: nat)
    requires rows > 0 && d > 0
    ensures d % rows == 0 <==> d >= rows && (d - rows) % rows == 0
  {
    if d >= rows {
      assert d == d / rows * rows + d % rows;
      assert d - rows == (d / rows - 1) * rows + d % rows;
      UniqueMod(d - rows, rows, d / rows - 1, d % rows);
    } else {
      UniqueMod(d, rows, 0, d);
    }
  }

  lemma SmallMultiple(k: int, b: int)
    requires b > 0 && -b < k * b < b
    ensures k == 0
  {
    if k >= 1 { AtLeastOnce(k, b); }
    if k <= -1 { AtLeastOnce(-k, b); }
  }

  lemma AtLeastOnce(k: int, b: int)
    requires k >= 1 && b > 0
    ensures k * b >= b
  {}

  lemma UniqueMod(x: int, b: int, q: int, r: int)
    requires b > 0 && x == q * b + r && 0 <= r < b
    ensures x % b == r
  {
    var k := x / b - q;
    assert x == x / b * b + x % b;
    assert k * b == x / b * b - q * b;
    SmallMultiple(k, b);
  }

  /** Index x is printed on line x % rows. */
  lemma {:induction false} PrintedOnce(i: nat, rows: nat, n: nat, x: nat)
    requires i <= rows && rows > 0
    ensures multiset(Printed(i, rows, n))[x] == if x < n && x % rows >= i then 1 else 0
    decreases rows - i
  {
    if i < rows {
      var line, rest := Strided(i, rows, n), Printed(i + 1, rows, n);
      StridedOnce(i, rows, n, x);
      PrintedOnce(i + 1, rows, n, x);
      assert multiset(line + rest) == multiset(line) + multiset(rest);
      if x >= i {
        OnLine(x, i, rows);
      } else {
        UniqueMod(x, rows, 0, x);
      }
    } else {
      assert x % rows < rows;
    }
  }

  lemma OnLine(x: nat, i: nat, rows: nat)
    requires i < rows && i <= x
    ensures (x - i) % rows == 0 <==> x % rows == i
  {
    if x % rows == i {
      UniqueMod(x - i, rows, x / rows, 0);
    }
    if (x - i) % rows == 0 {
      assert x - i == (x - i) / rows * rows;
      UniqueMod(x, rows, (x - i) / rows, i);
    }
  }

  /** The numbers below n, each once, in some order. */
  ghost predicate EachOnce(s: seq<nat>, n: nat) {
    forall x: nat :: multiset(s)[x] == if x < n then 1 else 0
  }

  /** Every index below n is printed exactly once, and nothing else. */
  lemma PrintedIsPermutation(rows: nat, n: nat)
    requires rows > 0
    ensures EachOnce(Printed(0, rows, n), n)
  {
    forall x: nat ensures multiset(Printed(0, rows, n))[x] == if x < n then 1 else 0 {
      PrintedOnce(0, rows, n, x);
    }
  }

  /** The entries at these places, one after the other. */
  function CellsOf(names: seq<Text>, places: seq<nat>, rows: nat, maxlen: nat): Text {
    if places == [] then []
    else
      var first := if places[0] < |names| then Cell(names, places[0], rows, maxlen) else [];
      first + CellsOf(names, places[1..], rows, maxlen)
  }

  lemma CellsFirst(names: seq<Text>, j: nat, all: seq<nat>, places: seq<nat>, rows: nat, maxlen: nat)
    requires j < |names| && all == [j] + places
    ensures CellsOf(names, all, rows, maxlen)
         == Cell(names, j, rows, maxlen) + CellsOf(names, places, rows, maxlen)
  {
    Cons(j, places);
  }

  /** A line is the entries at its strided places. */
  lemma {:induction false} LineIsCells(names: seq<Text>, j: nat, rows: nat, maxlen: nat)
    requires rows > 0
    ensures Line(names, j, rows, maxlen) == CellsOf(names, Strided(j, rows, |names|), rows, maxlen)
    decreases |names| - j
  {
    if j < |names| {
      LineIsCells(names, j + rows, rows, maxlen);
      StridedFirst(j, rows, |names|);
      CellsFirst(names, j, Strided(j, rows, |names|), Strided(j + rows, rows, |names|), rows, maxlen);
    }
  }

  /** Lines of entries, each ended by a newline. */
  function LinesOf(names: seq<Text>, lines: seq<seq<nat>>, rows: nat, maxlen: nat): Text {
    if lines == [] then []
    else CellsOf(names, lines[0], rows, maxlen) + [NEWLINE] + LinesOf(names, lines[1..], rows, maxlen)
  }

  /** The places on the lines, in the order they are printed. */
  function Concat(lines: seq<seq<nat>>): seq<nat> {
    if lines == [] then [] else lines[0] + Concat(lines[1..])
  }

  /** The places on each line from line i on. */
  function Places(i: nat, rows: nat, n: nat): (lines: seq<seq<nat>>)
    requires i <= rows && rows > 0
    ensures |lines| == rows - i && forall k :: 0 <= k < |lines| ==> lines[k] == Strided(i + k, rows, n)
    decreases rows - i
  {
    if i == rows then [] else [Strided(i, rows, n)] + Places(i + 1, rows, n)
  }

  lemma {:induction false} LinesArePlaces(names: seq<Text>, i: nat, rows: nat, maxlen: nat)
    requires i <= rows && rows > 0
    ensures Lines(names, i, rows, maxlen) == LinesOf(names, Places(i, rows, |names|), rows, maxlen)
    ensures Concat(Places(i, rows, |names|)) == Printed(i, rows, |names|)
    decreases rows - i
  {
    if i < rows {
      LineIsCells(names, i, rows, maxlen);
      LinesArePlaces(names, i + 1, rows, maxlen);
      assert Places(i, rows, |names|)[1..] == Places(i + 1, rows, |names|);
    }
  }

  // ----- how wide a line is -----

  /** k entries of this width. */
  function Widths(k: nat, maxlen: nat): nat {
    if k == 0 then 0 else maxlen + Widths(k - 1, maxlen)
  }

  lemma {:induction false} WidthsProduct(k: nat, maxlen: nat)
    ensures Widths(k, maxlen) == k * maxlen
  {
    if k > 0 {
      WidthsProduct(k - 1, maxlen);
      assert k * maxlen == (k - 1) * maxlen + maxlen;
    }
  }

  lemma CellWidth(names: seq<Text>, j: nat, rows: nat, maxlen: nat)
    requires j < |names| && |names[j]| <= maxlen
    ensures |Cell(names, j, rows, maxlen)| == maxlen + if j < rows then 0 else 2
  {}

  lemma {:induction false} LineWidths(names: seq<Text>, j: nat, rows: nat, maxlen: nat)
    requires rows > 0 && forall k :: 0 <= k < |names| ==> |names[k]| <= maxlen
    ensures var k := |Strided(j, rows, |names|)|;
            |Line(names, j, rows, maxlen)| == Widths(k, maxlen) + (if j < rows && k > 0 then 2 * (k - 1) else 2 * k)
    decreases |names| - j
  {
    if j < |names| {
      LineWidths(names, j + rows, rows, maxlen);
      CellWidth(names, j, rows, maxlen);
    }
  }

  /** The width of a line: maxlen for each entry, and two spaces between entries. */
  lemma LineWidth(names: seq<Text>, j: nat, rows: nat, maxlen: nat)
    requires rows > 0 && forall k :: 0 <= k < |names| ==> |names[k]| <= maxlen
    ensures var k := |Strided(j, rows, |names|)|;
            |Line(names, j, rows, maxlen)| == k * maxlen + (if j < rows && k > 0 then 2 * (k - 1) else 2 * k)
  {
    LineWidths(names, j, rows, maxlen);
    WidthsProduct(|Strided(j, rows, |names|)|, maxlen);
  }

  lemma {:induction false} MaxLenBounds(names: seq<Text>, k: nat)
    requires k < |names|
    ensures |names[k]| <= MaxLen(names)
  {
    if k < |names| - 1 {
      MaxLenBounds(names[..|names| - 1], k);
    }
  }

  /** A line has at most the number of entries that was planned for. */
  lemma EntriesPerLine(i: nat, n: nat, cols: nat)
    requires cols > 0 && n > 0 && PrintRows(n, cols) > 0
    ensures |Strided(i, PrintRows(n, cols), n)| <= cols
  {
    var rows := PrintRows(n, cols);
    StridedAt(i, rows, n, cols);
    CeilingDiv(n, cols);
    assert cols * rows == rows * cols;
  }

  /** As many columns as fit into 80 characters, but at least one. */
  lemma ColumnsFit(maxlen: nat)
    ensures maxlen <= 78 ==> PrintCols(maxlen) * (maxlen + 2) <= 80
    ensures maxlen > 78 ==> PrintCols(maxlen) == 1
    ensures (PrintCols(maxlen) + 1) * (maxlen + 2) > 80
  {
    var b := maxlen + 2;
    assert 80 == 80 / b * b + 80 % b;
    assert (80 / b + 1) * b == 80 / b * b + b;
    if maxlen <= 78 {
      QuotientPositive(b);
    } else {
      UniqueQuotient(b);
    }
  }

  lemma QuotientPositive(b: int)
    requires 2 <= b <= 80
    ensures 80 / b >= 1
  {}

  lemma UniqueQuotient(b: int)
    requires b > 80
    ensures 80 / b == 0
  {}

  /**
   The layout: every entry is printed exactly once, a line is the entries at its
   strided places, no line has more than the planned number of entries, and no line
   is wider than 78 characters, or than the longest name if that is wider.
   */
  lemma LayoutFits(names: seq<Text>, i: nat)
    requires names != []
    ensures var maxlen := MaxLen(names);
            var cols := PrintCols(maxlen);
            var rows := PrintRows(|names|, cols);
            && rows > 0
            && EachOnce(Printed(0, rows, |names|), |names|)
            && Line(names, i, rows, maxlen) == CellsOf(names, Strided(i, rows, |names|), rows, maxlen)
            && |Strided(i, rows, |names|)| <= cols
            && (i < rows ==> |Line(names, i, rows, maxlen)| <= Max(78, maxlen))
  {
    var maxlen := MaxLen(names);
    var cols := PrintCols(maxlen);
    var rows := PrintRows(|names|, cols);
    RowsPositive(|names|, cols);
    PrintedIsPermutation(rows, |names|);
    EntriesPerLine(i, |names|, cols);
    LineIsCells(names, i, rows, maxlen);
    if i < rows {
      forall k | 0 <= k < |names| ensures |names[k]| <= maxlen { MaxLenBounds(names, k); }
      LineWidth(names, i, rows, maxlen);
      ColumnsFit(maxlen);
      WidthBound(|Strided(i, rows, |names|)|, cols, maxlen);
    }
  }

  lemma WidthBound(k: nat, cols: nat, maxlen: nat)
    requires k <= cols
    requires if maxlen <= 78 then cols * (maxlen + 2) <= 80 else cols == 1
    ensures k > 0 ==> k * maxlen + 2 * (k - 1) <= Max(78, maxlen)
  {
    if maxlen <= 78 {
      assert k * (maxlen + 2) <= cols * (maxlen + 2);
      assert k * (maxlen + 2) == k * maxlen + 2 * k;
    }
  }

  // ----- the whole listing -----

  /** The number of lines: the fewest that hold all entries at the planned number per line. */
  method CountLines(nRow: nat, maxlen: nat) returns (nPrintRow: nat)
    requires nRow > 0
    ensures nPrintRow > 0
    ensures (nPrintRow - 1) * PrintCols(maxlen) < nRow <= nPrintRow * PrintCols(maxlen)
  {
    var nPrintCol := 80 / (maxlen + 2);
    if nPrintCol < 1 {
      nPrintCol := 1;
    }
    nPrintRow := (nRow + nPrintCol - 1) / nPrintCol;
    CeilingDiv(nRow, nPrintCol);
  }

  /**
   The whole listing. `lines` says which entry stands where: every entry exactly once,
   and what is printed is these entries, line by line.
   */
  method PrintTables(names: seq<Text>) returns (out: Text, ghost lines: seq<seq<nat>>)
    ensures out == Table(names)
    ensures EachOnce(Concat(lines), |names|)
    ensures out == LinesOf(names, lines, |lines|, MaxLen(names))
  {
    out, lines := [], [];
    var nRow := |names|;
    if nRow > 0 {
      var maxlen := LongestName(names);
      var nPrintRow := CountLines(nRow, maxlen);
      RowsUnique(nRow, PrintCols(maxlen), nPrintRow);
      out := PrintLines(names, nPrintRow, maxlen);
      lines := Places(0, nPrintRow, nRow);
      LinesArePlaces(names, 0, nPrintRow, maxlen);
      PrintedIsPermutation(nPrintRow, nRow);
    }
  }
}
