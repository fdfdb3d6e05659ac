/**
 The line buffer of `.import`, changed in place: zero bytes over the separators cut it
 into columns, each column is dequoted where it stands, the write position never
 overtaking the read position, and its text is bound. What is in the buffer at every
 step is a function of the line.
 */
module CsvBuffer {
  import opened Options
  import opened Bytes
  import opened CsvImport

  /** The columns one after the other, each with a zero byte behind it. */
  function Layout(fields: seq<Text>): Text {
    if fields == [] then [] else fields[0] + [0] + Layout(fields[1..])
  }

  /** Where column i begins. */
  function Offset(fields: seq<Text>, i: nat): nat
    requires i <= |fields|
  {
    |Layout(fields[..i])|
  }

  lemma {:induction false} LayoutSplit(a: seq<Text>, b: seq<Text>)
    ensures Layout(a + b) == Layout(a) + Layout(b)
  {
    if a == [] {
      assert a + b == b;
    } else {
      assert (a + b)[0] == a[0] && (a + b)[1..] == a[1..] + b;
      LayoutSplit(a[1..], b);
    }
  }

  lemma LayoutOne(f: Text)
    ensures Layout([f]) == f + [0]
  {
    assert [f][1..] == [];
  }

  /** Column i occupies its bytes and the zero behind them, up to where the next begins. */
  lemma LayoutAt(fields: seq<Text>, i: nat)
    requires i < |fields|
    ensures Offset(fields, i + 1) == Offset(fields, i) + |fields[i]| + 1 <= |Layout(fields)|
    ensures Layout(fields)[Offset(fields, i)..Offset(fields, i + 1)] == fields[i] + [0]
  {
    var a, b := fields[..i], fields[i + 1..];
    assert fields == (a + [fields[i]]) + b && fields[..i + 1] == a + [fields[i]];
    LayoutSplit(a + [fields[i]], b);
    LayoutSplit(a, [fields[i]]);
    LayoutOne(fields[i]);
  }

  /** The state of the cutting loop at position p: closed columns, the one being read, and the rest. */
  ghost predicate Cutting(z: seq<byte>, line: Text, p: nat, sep: byte, inQuote: bool, done: seq<Text>, cur: Text)
    requires p <= |line|
  {
    var more := Split(line[p..], sep, inQuote);
    && |z| == |line| + 1
    && z == Layout(done) + cur + line[p..] + [0]
    && |Layout(done) + cur| == p
    && Split(line, sep, false) == done + [cur + more[0]] + more[1..]
  }

  lemma CutHere(z: seq<byte>, line: Text, p: nat, sep: byte, inQuote: bool, done: seq<Text>, cur: Text)
    requires p < |line| && Cutting(z, line, p, sep, inQuote, done, cur)
    requires line[p] == sep && !(if sep == QUOTE then !inQuote else inQuote)
    ensures Cutting(z[p := 0], line, p + 1, sep, if sep == QUOTE then !inQuote else inQuote, done + [cur], [])
    ensures |Layout(done + [cur])| == p + 1
  {
    var q := if sep == QUOTE then !inQuote else inQuote;
    var more := Split(line[p + 1..], sep, q);
    assert line[p..] == [sep] + line[p + 1..];
    SplitFirst(sep, line[p + 1..], sep, inQuote);
    CutLayout(z, Layout(done) + cur, sep, line[p + 1..], p);
    LayoutSplit(done, [cur]);
    LayoutOne(cur);
    Assoc(Layout(done), cur, [0]);
    Nothing(Layout(done + [cur]));
    Nothing(cur);
    Nothing(more[0]);
    ClosedFields(done, cur, more);
  }

  lemma SplitFirst(b: byte, tail: Text, sep: byte, inQuote: bool)
    ensures var q := if b == QUOTE then !inQuote else inQuote;
            Split([b] + tail, sep, inQuote) ==
            if !q && b == sep then [[]] + Split(tail, sep, q)
            else PrependTo(b, Split(tail, sep, q))
  {
    Cons(b, tail);
  }

  lemma CutLayout(z: seq<byte>, front: Text, sep: byte, tail: Text, p: nat)
    requires z == front + ([sep] + tail) + [0] && |front| == p
    ensures z[p := 0] == front + [0] + tail + [0]
  {}

  lemma ClosedFields(done: seq<Text>, cur: Text, more: seq<Text>)
    requires more != []
    ensures done + [cur] + ([[]] + more)[1..] == (done + [cur]) + [more[0]] + more[1..]
  {
    Cons([], more);
    Assoc(done + [cur], [more[0]], more[1..]);
    HeadTail(more);
  }

  lemma CutNot(z: seq<byte>, line: Text, p: nat, sep: byte, inQuote: bool, done: seq<Text>, cur: Text)
    requires p < |line| && Cutting(z, line, p, sep, inQuote, done, cur)
    requires var q := if line[p] == QUOTE then !inQuote else inQuote; !(!q && line[p] == sep)
    ensures Cutting(z, line, p + 1, sep, if line[p] == QUOTE then !inQuote else inQuote, done, cur + [line[p]])
  {
    var q := if line[p] == QUOTE then !inQuote else inQuote;
    var more := Split(line[p + 1..], sep, q);
    assert line[p..] == [line[p]] + line[p + 1..];
    assert Split(line[p..], sep, inQuote) == [[line[p]] + more[0]] + more[1..];
    assert cur + ([line[p]] + more[0]) == (cur + [line[p]]) + more[0];
    assert z == Layout(done) + (cur + [line[p]]) + line[p + 1..] + [0];
  }

  /** `azCol` holds where the first columns begin, as many as the table has. */
  ghost predicate Noted(azCol: seq<nat>, done: seq<Text>, nCol: nat) {
    && |azCol| == Min(|done| + 1, nCol)
    && forall k :: 0 <= k < |azCol| ==> azCol[k] == Offset(done, k)
  }

  lemma NoteNext(azCol: seq<nat>, done: seq<Text>, cur: Text, nCol: nat)
    requires Noted(azCol, done, nCol)
    ensures Noted(if |done| + 1 < nCol then azCol + [|Layout(done + [cur])|] else azCol, done + [cur], nCol)
  {
    var next := done + [cur];
    assert next[..|next|] == next;
    forall k | 0 <= k < |azCol| ensures azCol[k] == Offset(next, k) {
      assert done[..k] == next[..k];
    }
  }

  lemma NoteAll(azCol: seq<nat>, done: seq<Text>, cur: Text, nCol: nat)
    requires Noted(azCol, done, nCol)
    ensures |azCol| == Min(|done + [cur]|, nCol)
    ensures forall k :: 0 <= k < |azCol| ==> azCol[k] == Offset(done + [cur], k)
  {
    forall k | 0 <= k < |azCol| ensures azCol[k] == Offset(done + [cur], k) {
      assert done[..k] == (done + [cur])[..k];
    }
  }

  lemma CutStart(line: Text, sep: byte)
    ensures Cutting(line + [0], line, 0, sep, false, [], [])
  {
    var all := Split(line, sep, false);
    assert line[0..] == line && line + [0] == Layout([]) + [] + line + [0];
    assert [] + all[0] == all[0] && all == [] + [all[0]] + all[1..];
  }

  lemma CutByte(z: seq<byte>, line: Text, p: nat, sep: byte, inQuote: bool, done: seq<Text>, cur: Text)
    requires p <= |line| && Cutting(z, line, p, sep, inQuote, done, cur)
    ensures |z| == |line| + 1 && z[p] == At(line, p)
  {
    assert z[p] == (line[p..] + [0])[0];
  }

  lemma CutEnd(z: seq<byte>, line: Text, sep: byte, inQuote: bool, done: seq<Text>, cur: Text)
    requires Cutting(z, line, |line|, sep, inQuote, done, cur)
    ensures Split(line, sep, false) == done + [cur] && z == Layout(done + [cur])
  {
    assert line[|line|..] == [];
    AtEnd(z, Layout(done), done, cur);
    LayoutSplit(done, [cur]);
    LayoutOne(cur);
  }

  /** With nothing left to cut. */
  lemma AtEnd(z: seq<byte>, front: Text, done: seq<Text>, cur: Text)
    requires z == front + cur + [] + [0]
    ensures done + [cur + []] + [] == done + [cur] && z == front + (cur + [0])
  {
    Nothing(cur);
    Nothing(front + cur);
    Assoc(front, cur, [0]);
  }

  /** The column that ends at p gets its zero byte, and the place of the next one is noted. */
  method EndColumn(
    z: array<byte>, ghost line: Text, p: nat, sep: byte, ghost inQuote: bool, column: nat, azCol: seq<nat>, nCol: nat,
    ghost done: seq<Text>, ghost cur: Text)
    returns (i: nat, noted: seq<nat>)
    requires p < |line| && Cutting(z[..], line, p, sep, inQuote, done, cur)
    requires line[p] == sep && !(if sep == QUOTE then !inQuote else inQuote)
    requires column == |done| && Noted(azCol, done, nCol)
    modifies z
    ensures Cutting(z[..], line, p + 1, sep, if sep == QUOTE then !inQuote else inQuote, done + [cur], [])
    ensures i == |done + [cur]| && Noted(noted, done + [cur], nCol)
  {
    i := column + 1;
    noted := if i < nCol then azCol + [p + 1] else azCol;
    NoteNext(azCol, done, cur, nCol);
    CutHere(z[..], line, p, sep, inQuote, done, cur);
    ghost var was := z[..];
    z[p] := 0;
    assert z[..] == was[p := 0];
  }

  /** The loop that writes zero bytes over the separators and notes where the columns begin. */
  method CutColumns(z: array<byte>, ghost line: Text, nCol: nat, sep: byte) returns (azCol: seq<nat>, i: nat)
    requires nCol > 0 && NulFree(line) && z[..] == line + [0]
    modifies z
    ensures z[..] == Layout(Split(line, sep, false)) && i + 1 == |Split(line, sep, false)|
    ensures |azCol| == Min(i + 1, nCol)
    ensures forall k :: 0 <= k < |azCol| ==> azCol[k] == Offset(Split(line, sep, false), k)
  {
    var inQuote, p := false, 0;
    azCol, i := [0], 0;
    ghost var done, cur: Text := [], [];
    CutStart(line, sep);
    while z[p] != 0
      invariant p <= |line| && |line| + 1 == z.Length && i == |done|
      invariant Cutting(z[..], line, p, sep, inQuote, done, cur)
      invariant Noted(azCol, done, nCol)
      decreases |line| - p
    {
      CutByte(z[..], line, p, sep, inQuote, done, cur);
      var c := z[p];
      ghost var q := inQuote;
      if c == QUOTE {
        inQuote := !inQuote;
      }
      if !inQuote && c == sep {
        i, azCol := EndColumn(z, line, p, sep, q, i, azCol, nCol, done, cur);
        done, cur := done + [cur], [];
      } else {
        CutNot(z[..], line, p, sep, q, done, cur);
        cur := cur + [c];
      }
      p := p + 1;
    }
    CutByte(z[..], line, p, sep, inQuote, done, cur);
    CutEnd(z[..], line, sep, inQuote, done, cur);
    NoteAll(azCol, done, cur, nCol);
  }

  /**
   The state of the dequoting loop: k bytes written, reading at j; everything from
   j on and outside the column is as it was.
   */
  ghost predicate Dequoting(z: seq<byte>, was: seq<byte>, start: nat, field: Text, j: nat, k: nat) {
    Untouched(z, was, start, field, j, k) && Undouble(field[1..]) == z[start..start + k] + Undouble(field[j..])
  }

  ghost predicate Untouched(z: seq<byte>, was: seq<byte>, start: nat, field: Text, j: nat, k: nat) {
    && k < j <= |field| && start + |field| < |was| == |z|
    && was[start..start + |field| + 1] == field + [0]
    && z[..start] == was[..start] && z[start + j..] == was[start + j..]
  }

  lemma ReadAt(z: seq<byte>, was: seq<byte>, start: nat, field: Text, j: nat, k: nat, x: nat)
    requires Dequoting(z, was, start, field, j, k) && j <= x <= |field|
    ensures z[start + x] == (field + [0])[x]
  {
    assert z[start + x] == z[start + j..][x - j] == was[start + j..][x - j] == was[start + x];
    assert was[start + x] == was[start..start + |field| + 1][x];
  }

  /** Copying the byte at x, which stands for itself or follows a quote. */
  lemma CopyByte(z: seq<byte>, was: seq<byte>, start: nat, field: Text, j: nat, k: nat, x: nat)
    requires Dequoting(z, was, start, field, j, k) && j <= x < |field|
    requires if field[j] == QUOTE then x == j + 1 else x == j
    ensures Dequoting(z[start + k := field[x]], was, start, field, x + 1, k + 1)
  {
    CopyTouches(z, was, start, field, j, k, x);
    UndoubleAt(field, j, x);
    UpdateNext(z, start, start + k, field[x]);
    Assoc(z[start..start + k], [field[x]], Undouble(field[x + 1..]));
  }

  lemma CopyTouches(z: seq<byte>, was: seq<byte>, start: nat, field: Text, j: nat, k: nat, x: nat)
    requires Untouched(z, was, start, field, j, k) && j <= x < |field|
    ensures Untouched(z[start + k := field[x]], was, start, field, x + 1, k + 1)
  {
    SameBehind(z, was, start + j, start + x + 1);
    UpdateSides(z, start + k, field[x], start + x + 1);
    UpdateFront(z, start, start + k, field[x]);
  }

  lemma SameBehind(z: seq<byte>, was: seq<byte>, i: nat, k: nat)
    requires i <= k <= |z| == |was| && z[i..] == was[i..]
    ensures z[k..] == was[k..]
  {
    SliceOfSlice(z, i, k - i);
    SliceOfSlice(was, i, k - i);
  }

  lemma UndoubleAt(field: Text, j: nat, x: nat)
    requires j <= x < |field| && if field[j] == QUOTE then x == j + 1 else x == j
    ensures Undouble(field[j..]) == [field[x]] + Undouble(field[x + 1..])
  {
    SliceOfSlice(field, j, x + 1 - j);
  }

  lemma UpdateFront(z: seq<byte>, start: nat, i: nat, b: byte)
    requires start <= i < |z|
    ensures z[i := b][..start] == z[..start]
  {}

  /** The final zero byte. */
  lemma Terminate(z: seq<byte>, was: seq<byte>, start: nat, field: Text, j: nat, k: nat)
    requires Dequoting(z, was, start, field, j, k) && Undouble(field[j..]) == [] && field[0] == QUOTE
    ensures Replaced(z[start + k := 0], was, start, field)
  {
    ZeroBehind(z, start, k, Undouble(field[1..]), Undouble(field[j..]));
    ZeroTouches(z, was, start, start + k, start + j, start + |field|);
    IsReplaced(z[start + k := 0], was, start, field, Undouble(field[1..]));
  }

  lemma ZeroBehind(z: seq<byte>, start: nat, k: nat, d: Text, left: Text)
    requires start + k < |z| && left == [] && d == z[start..start + k] + left
    ensures |d| == k && z[start + k := 0][start..start + k + 1] == d + [0]
  {
    Nothing(z[start..start + k]);
    UpdateNext(z, start, start + k, 0);
  }

  lemma IsReplaced(z: seq<byte>, was: seq<byte>, start: nat, field: Text, d: Text)
    requires field != [] && field[0] == QUOTE && d == Undouble(field[1..])
    requires |d| <= |field| && start + |field| < |was| == |z| && z[start..start + |d| + 1] == d + [0]
    requires z[..start] == was[..start] && z[start + |field|..] == was[start + |field|..]
    ensures Replaced(z, was, start, field)
  {}

  lemma ZeroTouches(z: seq<byte>, was: seq<byte>, start: nat, at: nat, from: nat, end: nat)
    requires start <= at < from <= end <= |z| == |was| && z[..start] == was[..start] && z[from..] == was[from..]
    ensures z[at := 0][..start] == was[..start] && z[at := 0][end..] == was[end..]
  {
    UpdateFront(z, start, at, 0);
    SameBehind(z, was, from, end);
    UpdateSides(z, at, 0, end);
  }

  /** The column has been replaced by its dequoted text, and nothing else has changed. */
  ghost predicate Replaced(z: seq<byte>, was: seq<byte>, start: nat, field: Text) {
    var d := Dequote(field);
    && |d| <= |field| && start + |field| < |was| == |z|
    && z[start..start + |d| + 1] == d + [0]
    && z[..start] == was[..start] && z[start + |field|..] == was[start + |field|..]
  }

  lemma DequoteStart(was: seq<byte>, start: nat, field: Text)
    requires start + |field| < |was| && was[start..start + |field| + 1] == field + [0]
    ensures was[start] == At(field, 0)
    ensures if field != [] && field[0] == QUOTE then Dequoting(was, was, start, field, 1, 0)
            else Replaced(was, was, start, field)
  {
    assert was[start] == was[start..start + |field| + 1][0];
    if field != [] && field[0] == QUOTE {
      assert [] + Undouble(field[1..]) == Undouble(field[1..]) && was[start..start + 0] == [];
    }
  }

  lemma DequoteEnd(field: Text, at: nat)
    requires at <= |field| && (at == |field| || (at == |field| - 1 && field[at] == QUOTE))
    ensures Undouble(field[at..]) == []
  {
    if at < |field| { assert field[at..] == [QUOTE]; }
  }

  /** The dequoting loop on one column: reads at j, writes at k, and never catches up with itself. */
  method DequoteColumn(z: array<byte>, start: nat, ghost field: Text)
    requires NulFree(field) && start + |field| < z.Length && z[start..start + |field| + 1] == field + [0]
    modifies z
    ensures Replaced(z[..], old(z[..]), start, field)
  {
    ghost var was := z[..];
    assert was[start..start + |field| + 1] == field + [0];
    DequoteStart(was, start, field);
    if z[start] == QUOTE {
      var j, k := 1, 0;
      ghost var at := 1;
      while z[start + j] != 0
        invariant at == j && |was| == z.Length && k < at <= |field| && start + |field| < z.Length
        invariant Dequoting(z[..], was, start, field, at, k)
        decreases |field| - j
      {
        ReadAt(z[..], was, start, field, at, k, j);
        if z[start + j] == QUOTE {
          j := j + 1;
          ReadAt(z[..], was, start, field, at, k, j);
          if z[start + j] == 0 {
            break;
          }
        }
        CopyByte(z[..], was, start, field, at, k, j);
        z[start + k] := z[start + j];
        k := k + 1;
        j := j + 1;
        at := j;
      }
      ReadAt(z[..], was, start, field, at, k, at);
      DequoteEnd(field, at);
      Terminate(z[..], was, start, field, at, k);
      z[start + k] := 0;
    }
  }

  lemma {:induction false} SplitNulFree(line: Text, sep: byte, q: bool)
    requires NulFree(line)
    ensures forall i :: 0 <= i < |Split(line, sep, q)| ==> NulFree(Split(line, sep, q)[i])
    decreases |line|
  {
    if line != [] { SplitNulFree(line[1..], sep, if line[0] == QUOTE then !q else q); }
  }

  lemma {:induction false} UndoubleNulFree(s: Text)
    requires NulFree(s)
    ensures NulFree(Undouble(s))
    decreases |s|
  {
    if s != [] {
      if s[0] != QUOTE {
        UndoubleNulFree(s[1..]);
      } else if |s| > 1 {
        UndoubleNulFree(s[2..]);
      }
    }
  }

  lemma DequoteNulFree(f: Text)
    requires NulFree(f)
    ensures NulFree(Dequote(f))
  {
    if f != [] { UndoubleNulFree(f[1..]); }
  }

  lemma {:induction false} DequoteAllAppend(fields: seq<Text>, f: Text)
    ensures DequoteAll(fields + [f]) == DequoteAll(fields) + [Dequote(f)]
  {
    if fields == [] {
      assert fields + [f] == [f] && [f][1..] == [];
    } else {
      assert (fields + [f])[0] == fields[0] && (fields + [f])[1..] == fields[1..] + [f];
      DequoteAllAppend(fields[1..], f);
    }
  }

  /** The text bound to a column: the C string at p. */
  method ReadString(z: array<byte>, p: nat, ghost text: Text) returns (s: Text)
    requires NulFree(text) && p + |text| < z.Length && z[p..p + |text| + 1] == text + [0]
    ensures s == text
  {
    var n := p;
    ghost var all := z[p..p + |text| + 1];
    while z[n] != 0
      invariant p <= n <= p + |text|
      decreases p + |text| - n
    {
      assert all[n - p] == z[n];
      n := n + 1;
    }
    assert all[n - p] == z[n];
    assert z[p..n] == all[..n - p];
    return z[p..n];
  }

  /** What is known before column c is dequoted: it and the columns after it are as they were cut. */
  ghost predicate Binding(z: seq<byte>, fields: seq<Text>, c: nat)
    requires c <= |fields|
  {
    && |z| == |Layout(fields)| && Offset(fields, c) <= |z|
    && z[Offset(fields, c)..] == Layout(fields)[Offset(fields, c)..]
  }

  lemma BindHere(z: seq<byte>, fields: seq<Text>, c: nat)
    requires c < |fields| && Binding(z, fields, c)
    ensures var start, f := Offset(fields, c), fields[c];
            start + |f| < |z| && z[start..start + |f| + 1] == f + [0]
  {
    LayoutAt(fields, c);
    var start, end := Offset(fields, c), Offset(fields, c + 1);
    assert z[start..end] == z[start..][..end - start];
    assert Layout(fields)[start..end] == Layout(fields)[start..][..end - start];
  }

  lemma BindNext(z: seq<byte>, was: seq<byte>, fields: seq<Text>, c: nat)
    requires c < |fields| && Binding(was, fields, c) && Replaced(z, was, Offset(fields, c), fields[c])
    ensures Binding(z, fields, c + 1)
  {
    LayoutAt(fields, c);
    var start, next := Offset(fields, c), Offset(fields, c + 1);
    assert z[next..] == z[next - 1..][1..] == was[next - 1..][1..] == was[next..];
    assert was[next..] == was[start..][next - start..]
        == Layout(fields)[start..][next - start..] == Layout(fields)[next..];
  }

  lemma BindStart(z: seq<byte>, fields: seq<Text>)
    requires z == Layout(fields)
    ensures Binding(z, fields, 0)
  {}

  /** The loop over the columns: dequote each in place and bind its text. */
  method BindColumns(z: array<byte>, azCol: seq<nat>, ghost fields: seq<Text>) returns (bound: seq<Text>)
    requires |azCol| == |fields| && z[..] == Layout(fields)
    requires forall k :: 0 <= k < |fields| ==> azCol[k] == Offset(fields, k) && NulFree(fields[k])
    modifies z
    ensures bound == DequoteAll(fields)
  {
    bound := [];
    BindStart(z[..], fields);
    for c := 0 to |azCol|
      invariant Binding(z[..], fields, c)
      invariant bound == DequoteAll(fields[..c])
    {
      BindHere(z[..], fields, c);
      ghost var was := z[..];
      DequoteColumn(z, azCol[c], fields[c]);
      BindNext(z[..], was, fields, c);
      DequoteNulFree(fields[c]);
      var text := ReadString(z, azCol[c], Dequote(fields[c]));
      DequoteAllAppend(fields[..c], fields[c]);
      SliceNext(fields, 0, c);
      bound := bound + [text];
    }
    assert fields[..|azCol|] == fields;
  }
}
