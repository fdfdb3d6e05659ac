/**
 C string literals: the writer `output_c_string` and the in-place decoder
 `resolve_backslashes`. Bytes from 128 on are taken as not printable.
 */
module CStrings {
  import opened Options
  import opened Bytes

  predicate IsPrint(b: byte) {
    32 <= b <= 126
  }

  // ----- writing -----

  /** \t, \n, \r and the two characters that stand for themselves when escaped. */
  function ShortEscape(b: byte): Option<byte> {
    if b == BACKSLASH then Some(BACKSLASH)
    else if b == QUOTE then Some(QUOTE)
    else if b == TAB then Some(116)
    else if b == NEWLINE then Some(110)
    else if b == CR then Some(114)
    else None
  }

  function EscapeByte(b: byte): Text {
    match ShortEscape(b)
    case Some(e) => [BACKSLASH, e]
    case None => if IsPrint(b) then [b] else [BACKSLASH, 48 + b / 64, 48 + b / 8 % 8, 48 + b % 8]
  }

  function Escape(z: Text): Text {
    if z == [] then [] else EscapeByte(z[0]) + Escape(z[1..])
  }

  lemma {:induction false} EscapeAppend(z: Text, b: byte)
    ensures Escape(z + [b]) == Escape(z) + EscapeByte(b)
  {
    if z == [] {
      assert z + [b] == [b] && [b][1..] == [];
      assert EscapeByte(b) + [] == EscapeByte(b);
    } else {
      assert (z + [b])[0] == z[0] && (z + [b])[1..] == z[1..] + [b];
      EscapeAppend(z[1..], b);
      assert EscapeByte(z[0]) + (Escape(z[1..]) + EscapeByte(b)) == EscapeByte(z[0]) + Escape(z[1..]) + EscapeByte(b);
    }
  }

  /** The body of the loop: one byte, escaped if need be. */
  method OutputByte(written: Text, c: byte) returns (out: Text)
    ensures out == written + EscapeByte(c)
  {
    if c == BACKSLASH {
      out := written + [c] + [c];
    } else if c == QUOTE {
      out := written + [BACKSLASH] + [QUOTE];
    } else if c == TAB {
      out := written + [BACKSLASH] + [116];
    } else if c == NEWLINE {
      out := written + [BACKSLASH] + [110];
    } else if c == CR {
      out := written + [BACKSLASH] + [114];
    } else if !IsPrint(c) {
      out := written + [BACKSLASH, 48 + c / 64, 48 + c / 8 % 8, 48 + c % 8];
    } else {
      out := written + [c];
    }
  }

  /** The text in quotes, byte by byte. */
  method OutputCString(z: Text) returns (out: Text)
    requires NulFree(z)
    ensures out == [QUOTE] + Escape(z) + [QUOTE]
  {
    out := [QUOTE];
    var i := 0;
    while At(z, i) != 0
      invariant i <= |z| && out == [QUOTE] + Escape(z[..i])
      decreases |z| - i
    {
      var c := z[i];
      EscapeAppend(z[..i], c);
      SliceNext(z, 0, i);
      Assoc([QUOTE], Escape(z[..i]), EscapeByte(c));
      i := i + 1;
      out := OutputByte(out, c);
    }
    assert z[..i] == z;
    out := out + [QUOTE];
  }

  // ----- reading -----

  predicate Octal(b: byte) {
    48 <= b <= 55
  }

  /** The first character of a text, and how many bytes spell it. Assigning to a char keeps the low 8 bits. */
  function Unit(s: Text): (r: (byte, nat))
    requires s != [] && (s[0] == BACKSLASH ==> |s| > 1)
    ensures 1 <= r.1 <= |s|
  {
    if s[0] != BACKSLASH then (s[0], 1)
    else if s[1] == 110 then (NEWLINE, 2)
    else if s[1] == 116 then (TAB, 2)
    else if s[1] == 114 then (CR, 2)
    else if Octal(s[1]) then
      if |s| > 2 && Octal(s[2]) then
        if |s| > 3 && Octal(s[3]) then
          (((s[1] as int - 48) * 64 + (s[2] as int - 48) * 8 + (s[3] as int - 48)) % 256, 4)
        else ((s[1] - 48) * 8 + (s[2] - 48), 3)
      else (s[1] - 48, 2)
    else (s[1], 2)
  }

  /** No backslash at the end that has nothing to escape. */
  predicate Paired(s: Text) {
    s == [] || (if s[0] == BACKSLASH then |s| > 1 && Paired(s[2..]) else Paired(s[1..]))
  }

  lemma {:induction false} PairedUnit(s: Text)
    requires Paired(s) && s != []
    ensures Paired(s[Unit(s).1..])
  {
    if s[0] == BACKSLASH && Unit(s).1 > 2 {
      assert s[2..][0] == s[2] && s[2..][1..] == s[3..];
      assert Paired(s[3..]);
      if Unit(s).1 > 3 { assert s[3..][0] == s[3] && s[3..][1..] == s[4..]; }
    }
  }

  /** The decoded text. */
  function Resolve(s: Text): (r: Text)
    requires Paired(s)
    ensures |r| <= |s|
    decreases |s|
  {
    if s == [] then []
    else
      PairedUnit(s);
      [Unit(s).0] + Resolve(s[Unit(s).1..])
  }

  /** The state of the decoding loop: j bytes written, reading at i; everything from i on is as it was. */
  ghost predicate Resolving(z: seq<byte>, was: seq<byte>, s: Text, i: nat, j: nat) {
    && j <= i <= |s| < |was| == |z|
    && was[..|s| + 1] == s + [0]
    && z[i..] == was[i..]
    && Paired(s) && Paired(s[i..])
    && Resolve(s) == z[..j] + Resolve(s[i..])
  }

  lemma ReadAt(z: seq<byte>, was: seq<byte>, s: Text, i: nat, j: nat, x: nat)
    requires Resolving(z, was, s, i, j) && i <= x <= |s|
    ensures z[x] == At(s, x)
  {
    assert z[x] == z[i..][x - i] == was[x] == was[..|s| + 1][x];
  }

  lemma ResolveUnit(z: seq<byte>, was: seq<byte>, s: Text, i: nat, j: nat)
    requires Resolving(z, was, s, i, j) && i < |s|
    ensures s[i] == BACKSLASH ==> i + 1 < |s|
    ensures var (c, n) := Unit(s[i..]);
            Resolving(z[j := c], was, s, i + n, j + 1)
  {
    var (c, n) := Unit(s[i..]);
    PairedUnit(s[i..]);
    SliceOfSlice(s, i, n);
    SliceOfSlice(z, i, n);
    SliceOfSlice(was, i, n);
    UpdateSides(z, j, c, i + n);
    assert z[j := c][..j + 1] == z[..j] + [c];
    Assoc(z[..j], [c], Resolve(s[i + n..]));
  }

  /** The buffer holds the decoded text and a zero byte. */
  lemma ResolveEnd(z: seq<byte>, was: seq<byte>, s: Text, j: nat)
    requires Resolving(z, was, s, |s|, j)
    ensures var r := Resolve(s);
            && j == |r| && z[j := 0][..j + 1] == r + [0]
            && z[j := 0][|s| + 1..] == was[|s| + 1..]
  {
    assert s[|s|..] == [];
    assert z[..j] + [] == z[..j];
    assert z[|s| + 1..] == z[|s|..][1..] == was[|s|..][1..] == was[|s| + 1..];
    assert z[j := 0][..j + 1] == z[..j] + [0];
  }

  lemma ResolveStart(was: seq<byte>, s: Text)
    requires |s| < |was| && was[..|s| + 1] == s + [0] && Paired(s)
    ensures Resolving(was, was, s, 0, 0)
  {
    assert s[0..] == s && [] + Resolve(s) == Resolve(s);
  }

  /** The body of the loop up to the write: the character at i and where the next one begins. */
  method ReadUnit(
    z: array<byte>, at: nat, ghost s: Text, ghost was: seq<byte>, ghost j: nat)
    returns (c: byte, next: nat)
    requires Resolving(z[..], was, s, at, j) && at < |s|
    requires s[at] == BACKSLASH ==> at + 1 < |s|
    requires NulFree(s)
    ensures c == Unit(s[at..]).0 && next == at + Unit(s[at..]).1
  {
    forall x | at <= x <= |s| ensures z[x] == At(s, x) { ReadAt(z[..], was, s, at, j, x); }
    var i := at;
    c := z[i];
    if c == BACKSLASH {
      i := i + 1;
      c := z[i];
      if c == 110 {
        c := NEWLINE;
      } else if c == 116 {
        c := TAB;
      } else if c == 114 {
        c := CR;
      } else if Octal(c) {
        c := c - 48;
        if Octal(z[i + 1]) {
          i := i + 1;
          c := c * 8 + z[i] - 48;
          if Octal(z[i + 1]) {
            i := i + 1;
            c := (c * 8 + z[i] - 48) % 256;
          }
        }
      }
    }
    next := i + 1;
  }

  /** One round of the loop: reads the character at i and writes it at j. */
  method ResolveOne(z: array<byte>, i: nat, j: nat, ghost s: Text, ghost was: seq<byte>) returns (next: nat)
    requires Resolving(z[..], was, s, i, j) && i < |s| && NulFree(s)
    modifies z
    ensures i < next <= |s| && Resolving(z[..], was, s, next, j + 1)
  {
    ResolveUnit(z[..], was, s, i, j);
    var c;
    c, next := ReadUnit(z, i, s, was, j);
    z[j] := c;
  }

  /** Decoding in place: the write index never passes the read index. */
  method ResolveBackslashes(z: array<byte>, ghost s: Text)
    requires NulFree(s) && Paired(s)
    requires |s| < z.Length && z[..|s| + 1] == s + [0]
    modifies z
    ensures z[..|Resolve(s)| + 1] == Resolve(s) + [0]
    ensures z[|s| + 1..] == old(z[|s| + 1..])
  {
    ghost var was := z[..];
    assert was[..|s| + 1] == z[..|s| + 1] && was[|s| + 1..] == z[|s| + 1..];
    ResolveStart(was, s);
    var i, j := 0, 0;
    ReadAt(z[..], was, s, i, j, i);
    while z[i] != 0
      invariant Resolving(z[..], was, s, i, j) && i < z.Length && j <= i && z[i] == At(s, i)
      decreases |s| - i
    {
      i := ResolveOne(z, i, j, s, was);
      j := j + 1;
      ReadAt(z[..], was, s, i, j, i);
    }
    ResolveEnd(z[..], was, s, j);
    z[j] := 0;
    assert z[..][|s| + 1..] == z[|s| + 1..];
  }

  // ----- which bytes are spelled how -----

  /**
   Every byte as it is written: tab, newline, carriage return, the double quote and the
   backslash behind a backslash, other printable ones as they are, the rest as a backslash
   and three octal digits.
   */
  lemma SpelledExactly(b: byte)
    ensures var e := EscapeByte(b);
            if b == 9 then e == [92, 116]
            else if b == 10 then e == [92, 110]
            else if b == 13 then e == [92, 114]
            else if b == 34 || b == 92 then e == [92, b]
            else if 32 <= b <= 126 then e == [b]
            else
              && |e| == 4 && e[0] == 92 && 48 <= e[1] <= 51 && 48 <= e[2] <= 55 && 48 <= e[3] <= 55
              && (e[1] - 48) * 64 + (e[2] - 48) * 8 + (e[3] - 48) == b
  {
    OctalDigits(b);
  }

  /** Up to three octal digits behind a backslash are read as their number, of which the low 8 bits are kept. */
  lemma OctalRead(a: byte, b: byte, c: byte, rest: Text)
    requires 48 <= a <= 55
    ensures rest == [] || !(48 <= rest[0] <= 55) ==> Unit([92, a] + rest) == (a - 48, 2)
    ensures 48 <= b <= 55 && (rest == [] || !(48 <= rest[0] <= 55)) ==>
              Unit([92, a, b] + rest) == ((a - 48) * 8 + b - 48, 3)
    ensures 48 <= b <= 55 && 48 <= c <= 55 ==>
              Unit([92, a, b, c] + rest) == (((a - 48) * 64 + (b - 48) * 8 + c - 48) % 256, 4)
  {
    if rest == [] || !(48 <= rest[0] <= 55) { OneDigit(a, rest); }
    if 48 <= b <= 55 && (rest == [] || !(48 <= rest[0] <= 55)) { TwoDigits(a, b, rest); }
    if 48 <= b <= 55 && 48 <= c <= 55 { ThreeDigits(a, b, c, rest); }
  }

  lemma OneDigit(a: byte, rest: Text)
    requires 48 <= a <= 55 && (rest == [] || !(48 <= rest[0] <= 55))
    ensures Unit([92, a] + rest) == (a - 48, 2)
  {
    var s := [92, a] + rest;
    assert s[1] == a && (rest != [] ==> s[2] == rest[0]);
  }

  lemma TwoDigits(a: byte, b: byte, rest: Text)
    requires 48 <= a <= 55 && 48 <= b <= 55 && (rest == [] || !(48 <= rest[0] <= 55))
    ensures Unit([92, a, b] + rest) == ((a - 48) * 8 + b - 48, 3)
  {
    var s := [92, a, b] + rest;
    assert s[1] == a && s[2] == b && (rest != [] ==> s[3] == rest[0]);
  }

  lemma ThreeDigits(a: byte, b: byte, c: byte, rest: Text)
    requires 48 <= a <= 55 && 48 <= b <= 55 && 48 <= c <= 55
    ensures Unit([92, a, b, c] + rest) == (((a - 48) * 64 + (b - 48) * 8 + c - 48) % 256, 4)
  {
    var s := [92, a, b, c] + rest;
    assert s[1] == a && s[2] == b && s[3] == c;
  }

  /** Any other byte behind a backslash stands for itself, but for n, t and r. */
  lemma EscapeRead(c: byte, rest: Text)
    requires !(48 <= c <= 55)
    ensures Unit([92, c] + rest) == (if c == 110 then 10 else if c == 116 then 9 else if c == 114 then 13 else c, 2)
  {
    assert ([92, c] + rest)[1] == c;
  }

  // ----- the round trip -----

  lemma UnitOfEscape(b: byte, rest: Text)
    ensures var e := EscapeByte(b);
            && e != [] && (e[0] == BACKSLASH ==> |e| > 1)
            && Unit(e + rest) == (b, |e|)
  {
    var e := EscapeByte(b);
    assert forall i :: 0 <= i < |e| ==> (e + rest)[i] == e[i];
    if ShortEscape(b).None? && !IsPrint(b) {
      OctalDigits(b);
    }
  }

  lemma OctalDigits(b: byte)
    ensures b / 64 * 64 + b / 8 % 8 * 8 + b % 8 == b && b / 64 <= 3
  {}

  lemma {:induction false} EscapePaired(z: Text, rest: Text)
    requires Paired(rest)
    ensures Paired(Escape(z) + rest)
  {
    if z == [] {
      assert [] + rest == rest;
    } else {
      var e, tail := EscapeByte(z[0]), Escape(z[1..]) + rest;
      EscapePaired(z[1..], rest);
      Assoc(e, Escape(z[1..]), rest);
      PairedOver(z[0], tail);
    }
  }

  /** The bytes that stand for one byte do not leave a backslash over. */
  lemma PairedOver(b: byte, tail: Text)
    ensures Paired(EscapeByte(b) + tail) <==> Paired(tail)
  {
    var e := EscapeByte(b);
    if e[0] != BACKSLASH {
      Cons(b, tail);
    } else {
      DropOver(e[..2], e[2..] + tail, 0);
      assert e + tail == e[..2] + (e[2..] + tail);
      if |e| > 2 { PairedPlain(e[2], e[3], tail); }
    }
  }

  lemma PairedPlain(a: byte, b: byte, tail: Text)
    requires a != BACKSLASH && b != BACKSLASH
    ensures Paired([a, b] + tail) <==> Paired(tail)
  {
    assert [a, b] + tail == [a] + ([b] + tail);
    Cons(b, tail);
    Cons(a, [b] + tail);
  }

  /** Un-escaping the body written by `output_c_string` restores the string. */
  lemma {:induction false} ResolveEscape(z: Text)
    ensures Paired(Escape(z)) && Resolve(Escape(z)) == z
  {
    EscapePaired(z, []);
    assert Escape(z) + [] == Escape(z);
    if z != [] {
      ResolveEscape(z[1..]);
      var e := EscapeByte(z[0]);
      UnitOfEscape(z[0], Escape(z[1..]));
      assert Escape(z)[|e|..] == Escape(z[1..]);
    }
  }

  /** The written body is itself a C string, so it can be put in a buffer and decoded there. */
  lemma {:induction false} EscapeNulFree(z: Text)
    requires NulFree(z)
    ensures NulFree(Escape(z))
  {
    if z != [] { EscapeNulFree(z[1..]); }
  }

  /** Write, store, decode in place: the buffer holds the original again. */
  method EscapeAndResolve(z: Text) returns (buffer: array<byte>)
    requires NulFree(z)
    ensures |z| < buffer.Length && buffer[..|z| + 1] == z + [0]
  {
    var out := OutputCString(z);
    var body := out[1..|out| - 1];
    assert body == Escape(z);
    EscapeNulFree(z);
    ResolveEscape(z);
    buffer := new byte[|body| + 1](i requires 0 <= i <= |body| => At(body, i));
    assert buffer[..|body| + 1] == body + [0];
    ResolveBackslashes(buffer, body);
  }

  // ----- as an argument of a command -----

  /** A quoted argument, from behind its opening quote: up to the next quote, whatever is in front of that. */
  function Cut(s: Text, delim: byte): Text {
    if s == [] || s[0] == delim then [] else [s[0]] + Cut(s[1..], delim)
  }

  /** The loop that looks for the closing quote. */
  method CutArgument(line: Text, from: nat, delim: byte) returns (arg: Text)
    requires NulFree(line) && from <= |line|
    ensures arg == Cut(line[from..], delim)
  {
    var i := from;
    while At(line, i) != 0 && line[i] != delim
      invariant from <= i <= |line| && Cut(line[from..], delim) == line[from..i] + Cut(line[i..], delim)
      decreases |line| - i
    {
      CutPlain(line[from..i], line[i], line[i + 1..], delim);
      HeadTail(line[i..]);
      SliceOfSlice(line, i, 1);
      SliceNext(line, from, i);
      i := i + 1;
    }
    Nothing(line[from..i]);
    return line[from..i];
  }

  lemma CutPlain(front: Text, b: byte, rest: Text, delim: byte)
    requires b != delim
    ensures front + Cut([b] + rest, delim) == front + [b] + Cut(rest, delim)
  {
    Cons(b, rest);
    Assoc(front, [b], Cut(rest, delim));
  }

  lemma {:induction false} CutOver(a: Text, b: Text, delim: byte)
    requires delim !in a
    ensures Cut(a + b, delim) == a + Cut(b, delim)
  {
    if a == [] {
      Nothing(b);
    } else {
      HeadTail(a);
      Assoc([a[0]], a[1..], b);
      CutOver(a[1..], b, delim);
      CutPlain([], a[0], a[1..] + b, delim);
      Assoc([a[0]], a[1..], Cut(b, delim));
    }
  }

  lemma EscapedWithoutQuote(b: byte)
    requires b != QUOTE
    ensures QUOTE !in EscapeByte(b)
  {}

  /** The argument ends in front of the first escaped quote, and then with the backslash of that quote. */
  lemma {:induction false} CutEscaped(z: Text, rest: Text)
    ensures var arg := Cut(Escape(z) + ([QUOTE] + rest), QUOTE);
            && (QUOTE !in z ==> arg == Escape(z))
            && (QUOTE in z ==> !Paired(arg))
  {
    var tail := [QUOTE] + rest;
    if z == [] {
      Nothing(tail);
    } else if z[0] == QUOTE {
      Assoc([BACKSLASH, QUOTE], Escape(z[1..]), tail);
      CutAtOnce(Escape(z[1..]) + tail);
    } else {
      var e, arg := EscapeByte(z[0]), Cut(Escape(z[1..]) + tail, QUOTE);
      EscapedWithoutQuote(z[0]);
      Assoc(e, Escape(z[1..]), tail);
      CutOver(e, Escape(z[1..]) + tail, QUOTE);
      CutEscaped(z[1..], rest);
      PairedOver(z[0], arg);
    }
  }

  lemma CutAtOnce(rest: Text)
    ensures Cut([BACKSLASH, QUOTE] + rest, QUOTE) == [BACKSLASH] && !Paired([BACKSLASH])
  {
    var s := [BACKSLASH, QUOTE] + rest;
    assert s[1..][0] == QUOTE;
  }

  /**
   What `output_c_string` has written comes back as the argument of a command exactly if
   it has no double quote; otherwise the argument ends in a backslash with nothing behind it.
   */
  lemma ArgumentComesBack(z: Text, rest: Text)
    ensures var arg := Cut(Escape(z) + ([QUOTE] + rest), QUOTE);
            && (Paired(arg) && Resolve(arg) == z <==> QUOTE !in z)
            && (Paired(arg) <==> QUOTE !in z)
  {
    CutEscaped(z, rest);
    ResolveEscape(z);
  }

  /** Write, cut, store, decode in place, where the decoding is not to run past the end. */
  method WriteAndCut(z: Text) returns (back: bool, buffer: array<byte>)
    requires NulFree(z)
    ensures back <==> QUOTE !in z
    ensures back ==> |z| < buffer.Length && buffer[..|z| + 1] == z + [0]
  {
    var line := OutputCString(z);
    EscapeNulFree(z);
    var arg := CutArgument(line, 1, QUOTE);
    assert line[1..] == Escape(z) + ([QUOTE] + []);
    ArgumentComesBack(z, []);
    CutEscaped(z, []);
    back := Paired(arg);
    buffer := new byte[|arg| + 1](i requires 0 <= i <= |arg| => At(arg, i));
    if back {
      assert buffer[..|arg| + 1] == arg + [0];
      ResolveBackslashes(buffer, arg);
    }
  }
}
