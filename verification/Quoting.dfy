/**
 Quoting by doubling: `output_quoted_string`, and the two routines that first
 compute the size of a buffer and then fill it, `appendText` and `set_table_name`.
 */
module Quoting {
  import opened Options
  import opened Bytes

  function Quote(z: Text, quote: byte): Text {
    [quote] + Double(z, quote) + [quote]
  }

  /** The text between doubled quotes; None at a quote that stands alone. */
  function Undouble(s: Text, quote: byte): Option<Text>
    decreases |s|
  {
    if s == [] then Some([])
    else if s[0] == quote then
      if |s| > 1 && s[1] == quote then
        match Undouble(s[2..], quote)
        case None => None
        case Some(r) => Some([quote] + r)
      else None
    else
      match Undouble(s[1..], quote)
      case None => None
      case Some(r) => Some([s[0]] + r)
  }

  /** Reads a quoted text; None if it is not one. */
  function Unquote(s: Text, quote: byte): Option<Text> {
    if |s| >= 2 && s[0] == quote && s[|s| - 1] == quote then Undouble(s[1..|s| - 1], quote) else None
  }

  function Count(z: Text, b: byte): nat {
    if z == [] then 0 else (if z[0] == b then 1 else 0) + Count(z[1..], b)
  }

  lemma UndoubleFirst(b: byte, rest: Text, quote: byte)
    ensures Undouble((if b == quote then [quote, quote] else [b]) + rest, quote)
         == match Undouble(rest, quote) case None => None case Some(r) => Some([b] + r)
  {
    if b == quote {
      assert ([quote, quote] + rest)[2..] == rest;
    } else {
      assert ([b] + rest)[1..] == rest;
    }
  }

  lemma {:induction false} UndoubleDouble(z: Text, quote: byte)
    ensures Undouble(Double(z, quote), quote) == Some(z)
  {
    if z != [] {
      UndoubleDouble(z[1..], quote);
      UndoubleFirst(z[0], Double(z[1..], quote), quote);
      assert z == [z[0]] + z[1..];
    }
  }

  /** Quoting is undone by unquoting, whatever the text. */
  lemma UnquoteQuote(z: Text, quote: byte)
    ensures Unquote(Quote(z, quote), quote) == Some(z)
  {
    var s := Quote(z, quote);
    UndoubleDouble(z, quote);
    assert s[1..|s| - 1] == Double(z, quote);
  }

  lemma {:induction false} DoubleNone(z: Text, quote: byte)
    requires forall i :: 0 <= i < |z| ==> z[i] != quote
    ensures Double(z, quote) == z
  {
    if z != [] { DoubleNone(z[1..], quote); }
  }

  lemma {:induction false} DoubleLength(z: Text, quote: byte)
    ensures |Double(z, quote)| == |z| + Count(z, quote)
  {
    if z != [] { DoubleLength(z[1..], quote); }
  }

  lemma {:induction false} CountAppend(z: Text, x: byte, b: byte)
    ensures Count(z + [x], b) == Count(z, b) + if x == b then 1 else 0
  {
    if z == [] {
      assert z + [x] == [x] && [x][1..] == [];
    } else {
      assert (z + [x])[0] == z[0] && (z + [x])[1..] == z[1..] + [x];
      CountAppend(z[1..], x, b);
    }
  }

  lemma {:induction false} CountZero(z: Text, b: byte)
    ensures Count(z, b) == 0 <==> forall i :: 0 <= i < |z| ==> z[i] != b
  {
    if z != [] {
      CountZero(z[1..], b);
      assert forall i :: 0 <= i < |z| - 1 ==> z[1..][i] == z[i + 1];
      if forall i :: 0 <= i < |z[1..]| ==> z[1..][i] != b {
        forall i | 1 <= i < |z| ensures z[i] != b { assert z[1..][i - 1] != b; }
      }
    }
  }

  // ----- output_quoted_string -----

  /** One chunk of the slow path: text up to a quote, the quote doubled. */
  lemma ChunkDoubles(z: Text, at: nat, i: nat)
    requires at + i < |z| && z[at + i] == APOSTROPHE
    requires forall k :: at <= k < at + i ==> z[k] != APOSTROPHE
    ensures Double(z[at..], APOSTROPHE)
         == z[at..at + i] + [APOSTROPHE, APOSTROPHE] + Double(z[at + i + 1..], APOSTROPHE)
  {
    assert z[at..] == z[at..at + i] + ([APOSTROPHE] + z[at + i + 1..]);
    DoubleAppend(z[at..at + i], [APOSTROPHE] + z[at + i + 1..], APOSTROPHE);
    DoubleNone(z[at..at + i], APOSTROPHE);
    DoubleAppend([APOSTROPHE], z[at + i + 1..], APOSTROPHE);
    DoubleOne(APOSTROPHE, APOSTROPHE);
  }

  /** A quoted string: in one piece if it has no quote, otherwise chunk by chunk. */
  method OutputQuotedString(z: Text) returns (out: Text)
    requires NulFree(z)
    ensures out == Quote(z, APOSTROPHE)
  {
    var nSingle, i := 0, 0;
    while At(z, i) != 0
      invariant i <= |z| && nSingle == Count(z[..i], APOSTROPHE)
      decreases |z| - i
    {
      SliceNext(z, 0, i);
      CountAppend(z[..i], z[i], APOSTROPHE);
      if z[i] == APOSTROPHE {
        nSingle := nSingle + 1;
      }
      i := i + 1;
    }
    assert z[..i] == z;
    CountZero(z, APOSTROPHE);
    if nSingle == 0 {
      DoubleNone(z, APOSTROPHE);
      return [APOSTROPHE] + z + [APOSTROPHE];
    }
    out := OutputChunks(z);
    out := out + [APOSTROPHE];
  }

  /** After the text in front of a quote and the doubled quote, what is behind it is left. */
  lemma ChunkStep(out: Text, goal: Text, z: Text, at: nat, i: nat)
    requires at + i < |z| && z[at + i] == APOSTROPHE
    requires forall k :: at <= k < at + i ==> z[k] != APOSTROPHE
    requires out + Double(z[at..], APOSTROPHE) == goal
    ensures out + z[at..at + i] + [APOSTROPHE, APOSTROPHE] + Double(z[at + i + 1..], APOSTROPHE) == goal
    ensures i == 0 ==> out + [APOSTROPHE, APOSTROPHE] + Double(z[at + 1..], APOSTROPHE) == goal
  {
    var chunk, rest := z[at..at + i], Double(z[at + i + 1..], APOSTROPHE);
    ChunkDoubles(z, at, i);
    Pieces(out, chunk, [APOSTROPHE, APOSTROPHE], rest);
    if i == 0 { Nothing(out); }
  }

  lemma Pieces(a: Text, b: Text, c: Text, d: Text)
    ensures a + b + c + d == a + (b + c + d)
  {}

  /** After the last text nothing is left. */
  lemma LastStep(out: Text, goal: Text, rest: Text)
    requires forall k :: 0 <= k < |rest| ==> rest[k] != APOSTROPHE
    requires out + Double(rest, APOSTROPHE) == goal
    ensures out + rest == goal
  {
    DoubleNone(rest, APOSTROPHE);
  }

  /** The slow path, up to the closing quote. */
  method OutputChunks(z: Text) returns (out: Text)
    requires NulFree(z)
    ensures out == [APOSTROPHE] + Double(z, APOSTROPHE)
  {
    out := [APOSTROPHE];
    var at, i := 0, 0;
    ghost var goal := [APOSTROPHE] + Double(z, APOSTROPHE);
    while At(z, at) != 0
      invariant at <= |z| && out + Double(z[at..], APOSTROPHE) == goal
      decreases |z| - at
    {
      i := 0;
      while At(z, at + i) != 0 && At(z, at + i) != APOSTROPHE
        invariant at + i <= |z| && forall k :: at <= k < at + i ==> z[k] != APOSTROPHE
        decreases |z| - i
      {
        i := i + 1;
      }
      if at + i < |z| {
        ChunkStep(out, goal, z, at, i);
      } else {
        LastStep(out, goal, z[at..]);
      }
      if i == 0 {
        out := out + [APOSTROPHE, APOSTROPHE];
        at := at + 1;
      } else if At(z, at + i) == APOSTROPHE {
        out := out + z[at..at + i] + [APOSTROPHE, APOSTROPHE];
        at := at + i + 1;
      } else {
        out := out + z[at..];
        return;
      }
    }
    LastStep(out, goal, z[at..]);
    Nothing(out);
  }

  // ----- appendText -----

  /** The text `appendText` is to produce; a quote of 0 appends without quoting. */
  function Appended(zIn: Option<Text>, zAppend: Text, quote: byte): Text {
    (if zIn.None? then [] else zIn.value) + if quote != 0 then Quote(zAppend, quote) else zAppend
  }

  /** What the filling loops have established: `text` is written, at most up to the end of the buffer. */
  ghost predicate Filled(z: seq<byte>, text: Text, n: nat) {
    n == |text| <= |z| && z[..n] == text
  }

  lemma FillOne(z: seq<byte>, text: Text, n: nat, b: byte)
    requires Filled(z, text, n) && n < |z|
    ensures Filled(z[n := b], text + [b], n + 1)
  {
    assert z[n := b][..n + 1] == z[..n] + [b];
  }

  /** The first pass: how many bytes the result takes, with its final zero byte. */
  method SizeOfAppend(zIn: Option<Text>, zAppend: Text, quote: byte) returns (len: nat)
    ensures len == |Appended(zIn, zAppend, quote)| + 1
  {
    var nAppend, nIn := |zAppend|, if zIn.None? then 0 else |zIn.value|;
    len := nAppend + nIn + 1;
    DoubleLength(zAppend, quote);
    if quote != 0 {
      len := len + 2;
      var i := 0;
      while i < nAppend
        invariant 0 <= i <= nAppend && len == nAppend + nIn + 3 + Count(zAppend[..i], quote)
      {
        assert zAppend[..i + 1] == zAppend[..i] + [zAppend[i]];
        CountAppend(zAppend[..i], zAppend[i], quote);
        if zAppend[i] == quote {
          len := len + 1;
        }
        i := i + 1;
      }
      assert zAppend[..nAppend] == zAppend;
    }
  }

  /** Writes `text` from n on. */
  method CopyText(z: array<byte>, n: nat, text: Text, ghost before: Text) returns (end: nat)
    requires Filled(z[..], before, n) && n + |text| <= z.Length
    modifies z
    ensures end == n + |text| && Filled(z[..], before + text, end)
  {
    end := n;
    assert before + [] == before;
    for i := 0 to |text|
      invariant end == n + i && Filled(z[..], before + text[..i], end)
    {
      assert before + text[..i + 1] == before + text[..i] + [text[i]];
      FillOne(z[..], before + text[..i], end, text[i]);
      z[end] := text[i];
      end := end + 1;
    }
    assert text[..|text|] == text;
  }

  /** One more byte of the text, and what is left of it. */
  lemma DoubleNext(before: Text, text: Text, i: nat, quote: byte)
    requires i < |text|
    ensures before + Double(text[..i + 1], quote)
         == before + Double(text[..i], quote) + [text[i]] + if text[i] == quote then [quote] else []
    ensures |Double(text[i..], quote)| == (if text[i] == quote then 2 else 1) + |Double(text[i + 1..], quote)|
  {
    SliceNext(text, 0, i);
    DoubleAppend(text[..i], [text[i]], quote);
    DoubleOne(text[i], quote);
    assert text[i..][1..] == text[i + 1..];
  }

  /** Writes `text` from n on with every `quote` doubled. */
  method CopyDoubled(z: array<byte>, n: nat, text: Text, quote: byte, ghost before: Text) returns (end: nat)
    requires Filled(z[..], before, n) && n + |Double(text, quote)| <= z.Length
    modifies z
    ensures end == n + |Double(text, quote)| && Filled(z[..], before + Double(text, quote), end)
  {
    end := n;
    assert before + [] == before;
    ghost var done := before;
    for i := 0 to |text|
      invariant done == before + Double(text[..i], quote) && Filled(z[..], done, end)
      invariant end + |Double(text[i..], quote)| == n + |Double(text, quote)|
    {
      DoubleNext(before, text, i, quote);
      FillOne(z[..], done, end, text[i]);
      z[end] := text[i];
      end := end + 1;
      done := done + [text[i]];
      if text[i] == quote {
        FillOne(z[..], done, end, quote);
        z[end] := quote;
        end := end + 1;
        done := done + [quote];
      }
    }
    assert text[..|text|] == text;
  }

  /** Writes one byte. */
  method PutByte(z: array<byte>, n: nat, b: byte, ghost before: Text) returns (end: nat)
    requires Filled(z[..], before, n) && n < z.Length
    modifies z
    ensures end == n + 1 && Filled(z[..], before + [b], end)
  {
    FillOne(z[..], before, n, b);
    z[n] := b;
    end := n + 1;
  }

  /** Writes `text` in quotes. */
  method CopyQuoted(z: array<byte>, n: nat, text: Text, quote: byte, ghost before: Text) returns (end: nat)
    requires Filled(z[..], before, n) && n + |Quote(text, quote)| <= z.Length
    modifies z
    ensures end == n + |Quote(text, quote)| && Filled(z[..], before + Quote(text, quote), end)
  {
    end := PutByte(z, n, quote, before);
    end := CopyDoubled(z, end, text, quote, before + [quote]);
    end := PutByte(z, end, quote, before + [quote] + Double(text, quote));
    assert before + Quote(text, quote) == before + [quote] + Double(text, quote) + [quote];
  }

  /** Writes the final zero byte, which is the last byte of the buffer. */
  method Finish(z: array<byte>, n: nat, ghost text: Text)
    requires Filled(z[..], text, n) && z.Length == n + 1
    modifies z
    ensures z[..] == text + [0]
  {
    var end := PutByte(z, n, 0, text);
    assert z[..] == z[..][..end];
  }

  /**
   `appendText`: the buffer allocated from the first pass is filled to the last byte
   by the second.
   */
  method AppendText(zIn: Option<Text>, zAppend: Text, quote: byte) returns (z: array<byte>)
    ensures fresh(z)
    ensures z[..] == Appended(zIn, zAppend, quote) + [0]
  {
    var len := SizeOfAppend(zIn, zAppend, quote);
    z := new byte[len];
    var prior := if zIn.None? then [] else zIn.value;
    var zCsr := CopyText(z, 0, prior, []);
    assert [] + prior == prior;
    if quote != 0 {
      zCsr := CopyQuoted(z, zCsr, zAppend, quote, prior);
    } else {
      zCsr := CopyText(z, zCsr, zAppend, prior);
    }
    Finish(z, zCsr, Appended(zIn, zAppend, quote));
  }

  /**
   The two layers of quoting in `dump_callback`: the table name in double quotes,
   appended in single quotes to the statement being built. Undoing the layers one
   after the other gives the name back, whatever it contains.
   */
  lemma DumpQuoting(zSelect: Text, zTable: Text)
    ensures var zTmp := Appended(None, zTable, QUOTE);
            var whole := Appended(Some(zSelect), zTmp, APOSTROPHE);
            && whole[..|zSelect|] == zSelect
            && Unquote(whole[|zSelect|..], APOSTROPHE) == Some(zTmp)
            && Unquote(zTmp, QUOTE) == Some(zTable)
  {
    var zTmp := Appended(None, zTable, QUOTE);
    assert zTmp == Quote(zTable, QUOTE);
    UnquoteQuote(zTable, QUOTE);
    UnquoteQuote(zTmp, APOSTROPHE);
    var whole := Appended(Some(zSelect), zTmp, APOSTROPHE);
    assert whole[|zSelect|..] == Quote(zTmp, APOSTROPHE);
  }

  // ----- set_table_name -----

  predicate IsAlpha(b: byte) {
    65 <= b <= 90 || 97 <= b <= 122
  }

  predicate IsAlnum(b: byte) {
    IsAlpha(b) || 48 <= b <= 57
  }

  const UNDERSCORE: byte := 95

  /** A name that may stand in SQL without quotes. */
  predicate Identifier(name: Text) {
    && name != [] && (IsAlpha(name[0]) || name[0] == UNDERSCORE)
    && forall i :: 0 <= i < |name| ==> IsAlnum(name[i]) || name[i] == UNDERSCORE
  }

  function TableName(name: Text): Text {
    if Identifier(name) then name else Quote(name, APOSTROPHE)
  }

  /** A quoted table name reads back as the name; an identifier is kept. */
  lemma TableNameReads(name: Text)
    ensures Identifier(name) ==> TableName(name) == name && APOSTROPHE !in name
    ensures !Identifier(name) ==> Unquote(TableName(name), APOSTROPHE) == Some(name)
  {
    UnquoteQuote(name, APOSTROPHE);
  }

  /**
   For all names: exactly a letter or underscore and then letters, digits and underscores
   are stored as they are. Any other name is stored in single quotes.
   */
  lemma NameExactly(name: Text)
    ensures TableName(name) == name <==>
            && name != [] && !(48 <= name[0] <= 57)
            && forall i :: 0 <= i < |name| ==>
                 65 <= name[i] <= 90 || 97 <= name[i] <= 122 || 48 <= name[i] <= 57 || name[i] == 95
    ensures TableName(name) != name ==>
              var out := TableName(name); |out| >= |name| + 2 && out[0] == 39 && out[|out| - 1] == 39
  {
    DoubleLength(name, APOSTROPHE);
  }

  /** A quoted text begins and ends with the quote and is at least as long as the text. */
  lemma QuoteShape(z: Text, quote: byte)
    ensures var out := Quote(z, quote); |out| >= |z| + 2 && out[0] == quote && out[|out| - 1] == quote
    ensures quote !in z ==> Quote(z, quote) == [quote] + z + [quote]
  {
    DoubleLength(z, quote);
    if quote !in z { DoubleNone(z, quote); }
  }

  /** Without a quote the text is appended as it is, and otherwise quoted. */
  lemma AppendedExactly(zIn: Text, z: Text, quote: byte)
    ensures Appended(Some(zIn), z, 0) == zIn + z && Appended(None, z, 0) == z
    ensures quote != 0 ==>
              var out := Appended(None, z, quote);
              && |out| >= |z| + 2 && out[0] == quote && out[|out| - 1] == quote
              && Appended(Some(zIn), z, quote) == zIn + out
              && (quote !in z ==> out == [quote] + z + [quote])
  {
    QuoteShape(z, quote);
    Nothing(z);
    Nothing(Quote(z, quote));
  }

  /** The first pass of `set_table_name`: whether to quote, and how many bytes the name takes. */
  method SizeOfName(name: Text) returns (needQuote: bool, n: nat)
    requires NulFree(name)
    ensures needQuote == !Identifier(name) && n == |TableName(name)|
  {
    needQuote := !IsAlpha(At(name, 0)) && At(name, 0) != UNDERSCORE;
    ghost var first := needQuote;
    var i := 0;
    n := 0;
    while At(name, i) != 0
      invariant i <= |name| && n == i + Count(name[..i], APOSTROPHE)
      invariant needQuote <==> first || exists k :: 0 <= k < i && !(IsAlnum(name[k]) || name[k] == UNDERSCORE)
      decreases |name| - i
    {
      assert name[..i + 1] == name[..i] + [name[i]];
      CountAppend(name[..i], name[i], APOSTROPHE);
      if !IsAlnum(name[i]) && name[i] != UNDERSCORE {
        needQuote := true;
        if name[i] == APOSTROPHE {
          n := n + 1;
        }
      }
      i, n := i + 1, n + 1;
    }
    assert name[..i] == name;
    DoubleLength(name, APOSTROPHE);
    if needQuote {
      n := n + 2;
    } else {
      DoubleNone(name, APOSTROPHE);
    }
  }

  /** The part of the shell's state that holds the destination table. */
  class CallbackData {
    var zDestTable: array?<byte>

    constructor ()
      ensures zDestTable == null
    {
      zDestTable := null;
    }

    /** Replaces the destination table; the buffer has exactly the size counted beforehand. */
    method SetTableName(zName: Option<Text>)
      requires zName.Some? ==> NulFree(zName.value)
      modifies this
      ensures zName.None? ==> zDestTable == null
      ensures zName.Some? ==>
                zDestTable != null && fresh(zDestTable) && zDestTable[..] == TableName(zName.value) + [0]
    {
      zDestTable := null;
      if zName.None? {
        return;
      }
      var name := zName.value;
      var needQuote, n := SizeOfName(name);
      var z := new byte[n + 1];
      n := 0;
      ghost var done: Text := [];
      assert z[..0] == done;
      if needQuote {
        n := PutByte(z, n, APOSTROPHE, done);
        done := done + [APOSTROPHE];
      } else {
        DoubleNone(name, APOSTROPHE);
      }
      n := CopyDoubled(z, n, name, APOSTROPHE, done);
      done := done + Double(name, APOSTROPHE);
      if needQuote {
        n := PutByte(z, n, APOSTROPHE, done);
        done := done + [APOSTROPHE];
      }
      assert done == TableName(name);
      Finish(z, n, done);
      zDestTable := z;
    }
  }
}
