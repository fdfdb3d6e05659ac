/**
 The recogniser `_all_whitespace`: white space, closed block comments and line
 comments, of which only the last may lack its newline. The recogniser goes from byte to
 byte as the loops do; the language it decides is said apart from it, piece by piece.
 */
module AllWhitespace {
  import opened Options
  import opened Bytes

  const SLASH: byte := 47
  const STAR: byte := 42
  const DASH: byte := 45

  predicate IsSpace(b: byte) {
    9 <= b <= 13 || b == 32
  }

  // ----- the language -----

  /** A piece of white space; comment bodies do not contain what ends the comment. */
  datatype Piece = Space(b: byte) | BlockComment(body: Text) | LineComment(body: Text)

  predicate NoNewline(s: Text) {
    forall i :: 0 <= i < |s| ==> s[i] != NEWLINE
  }

  predicate NoClose(s: Text) {
    forall i :: 0 <= i < |s| - 1 ==> !(s[i] == STAR && s[i + 1] == SLASH)
  }

  predicate WellFormed(p: Piece) {
    match p
    case Space(b) => IsSpace(b)
    case BlockComment(body) => NoClose(body)
    case LineComment(body) => NoNewline(body)
  }

  function Spell(p: Piece): Text {
    match p
    case Space(b) => [b]
    case BlockComment(body) => [SLASH, STAR] + body + [STAR, SLASH]
    case LineComment(body) => [DASH, DASH] + body + [NEWLINE]
  }

  function SpellAll(pieces: seq<Piece>): Text {
    if pieces == [] then [] else Spell(pieces[0]) + SpellAll(pieces[1..])
  }

  /** Nothing, or a line comment that the end of the text cuts off. */
  predicate Unfinished(tail: Text) {
    tail == [] || (|tail| >= 2 && tail[0] == DASH && tail[1] == DASH && NoNewline(tail))
  }

  ghost predicate AllBlank(s: Text) {
    exists pieces: seq<Piece>, tail: Text ::
      (forall i :: 0 <= i < |pieces| ==> WellFormed(pieces[i])) && Unfinished(tail) && s == SpellAll(pieces) + tail
  }

  // ----- the recogniser -----

  /** Length of the text up to the first close of a block comment. */
  function ToClose(s: Text): (r: Option<nat>)
    ensures r.Some? ==> r.value + 1 < |s|
  {
    if |s| < 2 then None
    else if s[0] == STAR && s[1] == SLASH then Some(0)
    else
      match ToClose(s[1..])
      case None => None
      case Some(n) => Some(n + 1)
  }

  function ToNewline(s: Text): (r: Option<nat>)
    ensures r.Some? ==> r.value < |s|
  {
    if s == [] then None
    else if s[0] == NEWLINE then Some(0)
    else
      match ToNewline(s[1..])
      case None => None
      case Some(n) => Some(n + 1)
  }

  function Accepts(s: Text): bool
    decreases |s|
  {
    if s == [] then true
    else if IsSpace(s[0]) then Accepts(s[1..])
    else if |s| >= 2 && s[0] == SLASH && s[1] == STAR then
      match ToClose(s[2..])
      case None => false
      case Some(n) => Accepts(s[2 + n + 2..])
    else if |s| >= 2 && s[0] == DASH && s[1] == DASH then
      match ToNewline(s[2..])
      case None => true
      case Some(n) => Accepts(s[2 + n + 1..])
    else false
  }

  lemma MarkValues()
    ensures SLASH as int == '/' as int && STAR as int == '*' as int && DASH as int == '-' as int
  {}

  /** A text of one byte is white space exactly if that is a blank, a tab, or one of the four line and page ends. */
  lemma OneByteExactly(b: byte)
    ensures Accepts([b]) <==> b == 9 || b == 10 || b == 11 || b == 12 || b == 13 || b == 32
  {
    assert [b][1..] == [];
  }

  lemma {:induction false} ToCloseAt(s: Text, k: nat)
    requires k + 1 < |s| && s[k] == STAR && s[k + 1] == SLASH
    requires forall i :: 0 <= i < k ==> !(s[i] == STAR && s[i + 1] == SLASH)
    ensures ToClose(s) == Some(k)
  {
    if k > 0 {
      assert !(s[0] == STAR && s[1] == SLASH);
      forall i | 0 <= i < k - 1 ensures !(s[1..][i] == STAR && s[1..][i + 1] == SLASH) {
        assert !(s[i + 1] == STAR && s[i + 2] == SLASH);
      }
      ToCloseAt(s[1..], k - 1);
    }
  }

  lemma {:induction false} ToCloseNone(s: Text)
    requires NoClose(s)
    ensures ToClose(s) == None
  {
    if |s| >= 2 {
      assert !(s[0] == STAR && s[1] == SLASH);
      forall i | 0 <= i < |s[1..]| - 1 ensures !(s[1..][i] == STAR && s[1..][i + 1] == SLASH) {
        assert !(s[i + 1] == STAR && s[i + 2] == SLASH);
      }
      ToCloseNone(s[1..]);
    }
  }

  lemma {:induction false} ToCloseFirst(s: Text)
    requires ToClose(s).Some?
    ensures var n := ToClose(s).value; NoClose(s[..n]) && s[n] == STAR && s[n + 1] == SLASH
  {
    var n := ToClose(s).value;
    if n > 0 {
      ToCloseFirst(s[1..]);
      forall i | 0 <= i < n - 1 ensures !(s[..n][i] == STAR && s[..n][i + 1] == SLASH) {
        if i > 0 {
          assert s[1..][..n - 1][i - 1] == s[i] && s[1..][..n - 1][i] == s[i + 1];
        }
      }
    }
  }

  lemma {:induction false} ToNewlineAt(s: Text, k: nat)
    requires k < |s| && s[k] == NEWLINE && NoNewline(s[..k])
    ensures ToNewline(s) == Some(k)
  {
    if k > 0 {
      assert s[..k][0] == s[0];
      assert s[1..][..k - 1] == s[..k][1..];
      ToNewlineAt(s[1..], k - 1);
    }
  }

  lemma {:induction false} ToNewlineNone(s: Text)
    ensures ToNewline(s) == None <==> NoNewline(s)
  {
    if s != [] {
      ToNewlineNone(s[1..]);
      if NoNewline(s[1..]) && s[0] != NEWLINE {
        forall i | 0 <= i < |s| ensures s[i] != NEWLINE {
          if i > 0 { assert s[1..][i - 1] != NEWLINE; }
        }
      }
    }
  }

  lemma {:induction false} ToNewlineFirst(s: Text)
    requires ToNewline(s).Some?
    ensures var n := ToNewline(s).value; NoNewline(s[..n]) && s[n] == NEWLINE
  {
    var n := ToNewline(s).value;
    if n > 0 {
      ToNewlineFirst(s[1..]);
      assert s[..n] == [s[0]] + s[1..][..n - 1];
    }
  }

  /** A piece in front does not matter to the recogniser. */
  lemma AcceptsPiece(p: Piece, rest: Text)
    requires WellFormed(p)
    ensures Accepts(Spell(p) + rest) == Accepts(rest)
  {
    match p
    case Space(b) => assert (Spell(p) + rest)[1..] == rest;
    case BlockComment(body) =>
      var inner := body + [STAR, SLASH] + rest;
      assert Spell(p) + rest == [SLASH, STAR] + inner;
      ClosesAfter(body, rest);
      assert inner[|body| + 2..] == rest;
      AcceptsBlockComment(inner, |body|);
    case LineComment(body) =>
      var inner := body + [NEWLINE] + rest;
      assert Spell(p) + rest == [DASH, DASH] + inner;
      assert inner[..|body|] == body;
      ToNewlineAt(inner, |body|);
      assert inner[|body| + 1..] == rest;
      AcceptsLineComment(inner, |body|);
  }

  lemma ClosesAfter(body: Text, rest: Text)
    requires WellFormed(BlockComment(body))
    ensures ToClose(body + [STAR, SLASH] + rest) == Some(|body|)
  {
    var inner := body + [STAR, SLASH] + rest;
    forall i | 0 <= i < |body| ensures !(inner[i] == STAR && inner[i + 1] == SLASH) {
      if i < |body| - 1 { assert !(body[i] == STAR && body[i + 1] == SLASH); }
    }
    ToCloseAt(inner, |body|);
  }

  /** The recogniser on a text that begins with a block comment. */
  lemma AcceptsBlock(t: Text)
    requires |t| >= 2 && t[0] == SLASH && t[1] == STAR
    ensures Accepts(t) == match ToClose(t[2..]) case None => false case Some(n) => Accepts(t[2 + n + 2..])
  {}

  lemma AcceptsLine(t: Text)
    requires |t| >= 2 && t[0] == DASH && t[1] == DASH
    ensures Accepts(t) == match ToNewline(t[2..]) case None => true case Some(n) => Accepts(t[2 + n + 1..])
  {}

  lemma AcceptsBlockComment(inner: Text, n: nat)
    requires ToClose(inner) == Some(n) && n + 2 <= |inner|
    ensures Accepts([SLASH, STAR] + inner) == Accepts(inner[n + 2..])
  {
    TakeDrop([SLASH, STAR], inner);
    AcceptsBlock([SLASH, STAR] + inner);
    DropOver([SLASH, STAR], inner, n + 2);
  }

  lemma AcceptsLineComment(inner: Text, n: nat)
    requires ToNewline(inner) == Some(n) && n + 1 <= |inner|
    ensures Accepts([DASH, DASH] + inner) == Accepts(inner[n + 1..])
  {
    TakeDrop([DASH, DASH], inner);
    AcceptsLine([DASH, DASH] + inner);
    DropOver([DASH, DASH], inner, n + 1);
  }

  lemma {:induction false} BlankAccepted(pieces: seq<Piece>, tail: Text)
    requires forall i :: 0 <= i < |pieces| ==> WellFormed(pieces[i])
    requires Unfinished(tail)
    ensures Accepts(SpellAll(pieces) + tail)
    decreases |pieces|
  {
    if pieces == [] {
      assert [] + tail == tail;
      if tail != [] {
        ToNewlineNone(tail[2..]);
      }
    } else {
      var rest := SpellAll(pieces[1..]) + tail;
      BlankAccepted(pieces[1..], tail);
      AcceptsPiece(pieces[0], rest);
      assert SpellAll(pieces) + tail == Spell(pieces[0]) + rest;
    }
  }

  lemma TakeBlock(s: Text) returns (p: Piece, rest: Text)
    requires Accepts(s) && |s| >= 2 && s[0] == SLASH && s[1] == STAR
    ensures WellFormed(p) && s == Spell(p) + rest && |rest| < |s| && Accepts(rest)
  {
    AcceptsBlock(s);
    var n := ToClose(s[2..]).value;
    ToCloseFirst(s[2..]);
    p, rest := BlockComment(s[2..][..n]), s[2 + n + 2..];
    assert s == [SLASH, STAR] + s[2..][..n] + [STAR, SLASH] + rest;
  }

  lemma TakeLine(s: Text) returns (p: Piece, rest: Text)
    requires Accepts(s) && |s| >= 2 && s[0] == DASH && s[1] == DASH && ToNewline(s[2..]).Some?
    ensures WellFormed(p) && s == Spell(p) + rest && |rest| < |s| && Accepts(rest)
  {
    AcceptsLine(s);
    var n := ToNewline(s[2..]).value;
    ToNewlineFirst(s[2..]);
    p, rest := LineComment(s[2..][..n]), s[2 + n + 1..];
    assert s == [DASH, DASH] + s[2..][..n] + [NEWLINE] + rest;
  }

  lemma CutOff(s: Text)
    requires |s| >= 2 && s[0] == DASH && s[1] == DASH && ToNewline(s[2..]).None?
    ensures Unfinished(s)
  {
    ToNewlineNone(s[2..]);
    forall i | 0 <= i < |s| ensures s[i] != NEWLINE {
      if i >= 2 { assert s[2..][i - 2] != NEWLINE; }
    }
  }

  /** An accepted text is a last, unfinished line comment or begins with a piece. */
  lemma TakePiece(s: Text) returns (p: Piece, rest: Text)
    requires Accepts(s) && s != [] && !Unfinished(s)
    ensures WellFormed(p) && s == Spell(p) + rest && |rest| < |s| && Accepts(rest)
  {
    if IsSpace(s[0]) {
      p, rest := Space(s[0]), s[1..];
      HeadTail(s);
    } else if s[0] == SLASH {
      p, rest := TakeBlock(s);
    } else {
      if ToNewline(s[2..]).None? { CutOff(s); }
      p, rest := TakeLine(s);
    }
  }

  lemma {:induction false} AcceptedBlank(s: Text) returns (pieces: seq<Piece>, tail: Text)
    requires Accepts(s)
    ensures forall i :: 0 <= i < |pieces| ==> WellFormed(pieces[i])
    ensures Unfinished(tail) && s == SpellAll(pieces) + tail
    decreases |s|
  {
    if Unfinished(s) {
      pieces, tail := [], s;
      assert [] + s == s;
    } else {
      var p, rest := TakePiece(s);
      var more;
      more, tail := AcceptedBlank(rest);
      pieces := [p] + more;
      assert pieces[1..] == more;
      assert Spell(p) + (SpellAll(more) + tail) == Spell(p) + SpellAll(more) + tail;
    }
  }

  /** The recogniser accepts exactly the texts made of these pieces. */
  lemma AcceptsExactly(s: Text)
    ensures Accepts(s) <==> AllBlank(s)
  {
    if Accepts(s) {
      var pieces, tail := AcceptedBlank(s);
    }
    if AllBlank(s) {
      var pieces: seq<Piece>, tail: Text :|
        (forall i :: 0 <= i < |pieces| ==> WellFormed(pieces[i])) && Unfinished(tail) && s == SpellAll(pieces) + tail;
      BlankAccepted(pieces, tail);
    }
  }

  // ----- the scanning loops -----

  lemma ToCloseSkip(s: Text, i: nat)
    requires i < |s| && !(s[i] == STAR && At(s, i + 1) == SLASH)
    ensures ToClose(s[i..]) ==
            match ToClose(s[i + 1..]) case None => None case Some(n) => Some(n + 1)
  {
    assert s[i..][1..] == s[i + 1..];
  }

  lemma ToNewlineSkip(s: Text, i: nat)
    requires i < |s| && s[i] != NEWLINE
    ensures ToNewline(s[i..]) ==
            match ToNewline(s[i + 1..]) case None => None case Some(n) => Some(n + 1)
  {
    assert s[i..][1..] == s[i + 1..];
  }

  function Plus(k: nat, r: Option<nat>): Option<nat> {
    match r case None => None case Some(n) => Some(k + n)
  }

  /** Scans a block comment from behind its opening: to its close, or the end of the text. */
  method SkipToClose(s: Text, from: nat) returns (z: nat)
    requires NulFree(s) && from <= |s|
    ensures from <= z <= |s|
    ensures if z == |s| then ToClose(s[from..]) == None else ToClose(s[from..]) == Some(z - from)
  {
    z := from;
    while At(s, z) != 0 && (At(s, z) != STAR || At(s, z + 1) != SLASH)
      invariant from <= z <= |s| && ToClose(s[from..]) == Plus(z - from, ToClose(s[z..]))
      decreases |s| - z
    {
      ToCloseSkip(s, z);
      z := z + 1;
    }
  }

  method SkipToNewline(s: Text, from: nat) returns (z: nat)
    requires NulFree(s) && from <= |s|
    ensures from <= z <= |s|
    ensures if z == |s| then ToNewline(s[from..]) == None else ToNewline(s[from..]) == Some(z - from)
  {
    z := from;
    while At(s, z) != 0 && At(s, z) != NEWLINE
      invariant from <= z <= |s| && ToNewline(s[from..]) == Plus(z - from, ToNewline(s[z..]))
      decreases |s| - z
    {
      ToNewlineSkip(s, z);
      z := z + 1;
    }
  }

  lemma SpaceAt(s: Text, z: nat)
    requires z < |s| && IsSpace(s[z])
    ensures Accepts(s[z..]) == Accepts(s[z + 1..])
  {
    SliceOfSlice(s, z, 1);
  }

  lemma BlockCommentAt(s: Text, z: nat, close: nat)
    requires z + 2 <= close <= |s| && s[z] == SLASH && s[z + 1] == STAR
    requires ToClose(s[z + 2..]) == if close == |s| then None else Some(close - (z + 2))
    ensures if close == |s| then !Accepts(s[z..]) else close + 2 <= |s| && Accepts(s[z..]) == Accepts(s[close + 2..])
  {
    SliceOfSlice(s, z, 2);
    if close == |s| {
      BlockVerdict(s[z..], s[z + 2..], None, []);
    } else {
      SliceOfSlice(s, z, close + 2 - z);
      BlockVerdict(s[z..], s[z + 2..], Some(close - (z + 2)), s[close + 2..]);
    }
  }

  lemma BlockVerdict(t: Text, inner: Text, n: Option<nat>, after: Text)
    requires |t| >= 2 && t[0] == SLASH && t[1] == STAR && inner == t[2..] && ToClose(inner) == n
    requires n.Some? ==> after == t[2 + n.value + 2..]
    ensures Accepts(t) == (n.Some? && Accepts(after))
  {
    AcceptsBlock(t);
  }

  lemma LineVerdict(t: Text, inner: Text, n: Option<nat>, after: Text)
    requires |t| >= 2 && t[0] == DASH && t[1] == DASH && inner == t[2..] && ToNewline(inner) == n
    requires n.Some? ==> after == t[2 + n.value + 1..]
    ensures Accepts(t) == (n.None? || Accepts(after))
  {
    AcceptsLine(t);
  }

  lemma LineCommentAt(s: Text, z: nat, end: nat)
    requires z + 2 <= end <= |s| && s[z] == DASH && s[z + 1] == DASH
    requires ToNewline(s[z + 2..]) == if end == |s| then None else Some(end - (z + 2))
    ensures Accepts(s[z..]) == (end == |s| || Accepts(s[end + 1..]))
  {
    SliceOfSlice(s, z, 2);
    if end == |s| {
      LineVerdict(s[z..], s[z + 2..], None, []);
    } else {
      SliceOfSlice(s, z, end + 1 - z);
      LineVerdict(s[z..], s[z + 2..], Some(end - (z + 2)), s[end + 1..]);
    }
  }

  lemma OtherAt(s: Text, z: nat)
    requires NulFree(s) && z < |s| && !IsSpace(s[z])
    requires !(s[z] == SLASH && At(s, z + 1) == STAR) && !(s[z] == DASH && At(s, z + 1) == DASH)
    ensures !Accepts(s[z..])
  {
    var t := s[z..];
    assert t[0] == s[z] && (|t| > 1 ==> t[1] == s[z + 1]);
  }

  method SkipBlockComment(s: Text, z: nat) returns (next: nat, verdict: Option<bool>)
    requires NulFree(s) && z + 2 <= |s| && s[z] == SLASH && s[z + 1] == STAR
    ensures if verdict.Some? then Accepts(s[z..]) == verdict.value
            else z < next <= |s| && Accepts(s[z..]) == Accepts(s[next..])
  {
    var close := SkipToClose(s, z + 2);
    BlockCommentAt(s, z, close);
    return close + 2, if close == |s| then Some(false) else None;
  }

  method SkipLineComment(s: Text, z: nat) returns (next: nat, verdict: Option<bool>)
    requires NulFree(s) && z + 2 <= |s| && s[z] == DASH && s[z + 1] == DASH
    ensures if verdict.Some? then Accepts(s[z..]) == verdict.value
            else z < next <= |s| && Accepts(s[z..]) == Accepts(s[next..])
  {
    var end := SkipToNewline(s, z + 2);
    LineCommentAt(s, z, end);
    if end == |s| {
      return end, Some(true);
    }
    return end + 1, None;
  }

  /** The body of the loop: where to go on, or the verdict. */
  method SkipPiece(s: Text, z: nat) returns (next: nat, verdict: Option<bool>)
    requires NulFree(s) && z < |s|
    ensures if verdict.Some? then Accepts(s[z..]) == verdict.value
            else z < next <= |s| && Accepts(s[z..]) == Accepts(s[next..])
  {
    if IsSpace(s[z]) {
      SpaceAt(s, z);
      return z + 1, None;
    }
    if s[z] == SLASH && At(s, z + 1) == STAR {
      next, verdict := SkipBlockComment(s, z);
      return;
    }
    if s[z] == DASH && At(s, z + 1) == DASH {
      next, verdict := SkipLineComment(s, z);
      return;
    }
    OtherAt(s, z);
    return z, Some(false);
  }

  /** `_all_whitespace`: never reads behind the zero byte, and computes the recogniser. */
  method IsAllWhitespace(s: Text) returns (blank: bool)
    requires NulFree(s)
    ensures blank == Accepts(s)
  {
    var z := 0;
    assert s[0..] == s;
    ghost var r := Accepts(s);
    while At(s, z) != 0
      invariant z <= |s| && r == Accepts(s[z..])
      decreases |s| - z
    {
      var next, verdict := SkipPiece(s, z);
      if verdict.Some? {
        return verdict.value;
      }
      z := next;
    }
    assert z == |s| && s[z..] == [];
    return true;
  }
}
