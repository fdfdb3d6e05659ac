/**
 The pass of `_compile_file` that rewrites the text between `{strip}` and
 `{/strip}` once all tags have been compiled.
 */
module StripPass {
  import opened Options
  import opened PhpStrings
  import opened Template
  import opened TagMachine
  import opened Regions
  import opened LineJoining

  /** A compiled tag: PHP code, or a strip marker the pass is to remove. */
  datatype Cell = Code(php: string) | Marker(mark: StripMark)

  function MarkOf(c: Cell): Option<StripMark> {
    match c
    case Code(_) => None
    case Marker(m) => Some(m)
  }

  function MarksOf(cells: seq<Cell>): (marks: seq<Option<StripMark>>)
    ensures |marks| == |cells|
    ensures forall i :: 0 <= i < |cells| ==> marks[i] == MarkOf(cells[i])
  {
    seq(|cells|, i requires 0 <= i < |cells| => MarkOf(cells[i]))
  }

  // ----- texts -----

  /** strtr with ' and \ escaped, for a single-quoted PHP string. */
  function Escape(s: string): string {
    if s == "" then "" else EscapeChar(s[0]) + Escape(s[1..])
  }

  function EscapeChar(c: char): string {
    if c == '\'' then "\\'" else if c == '\\' then "\\\\" else [c]
  }

  /**
   What PHP reads behind an opening single quote, and what is left behind the first quote
   that is not escaped: \' and \\ stand for one character, any other character for itself.
   */
  function ReadLiteral(s: string): Option<(string, string)> {
    if s == "" then None
    else if s[0] == '\'' then Some(("", s[1..]))
    else if |s| > 1 && s[0] == '\\' && (s[1] == '\'' || s[1] == '\\') then Before(s[1], ReadLiteral(s[2..]))
    else Before(s[0], ReadLiteral(s[1..]))
  }

  function Before(c: char, r: Option<(string, string)>): Option<(string, string)> {
    match r
    case None => None
    case Some((text, left)) => Some(([c] + text, left))
  }

  /** What PHP prints of a text block that is one echo of a literal. */
  function Echoed(block: string): Option<string> {
    if !("<?php echo '" <= block) then None
    else
      match ReadLiteral(block[|"<?php echo '"|..])
      case None => None
      case Some((text, left)) => if left == "; ?>" then Some(text) else None
  }

  function Echo(s: string): string {
    "<?php echo '" + Escape(s) + "'; ?>"
  }

  /** What the pass does with texts and puts for markers; it does not depend on what these are. */
  datatype TextOps<!T> = TextOps(
    ltrim: T -> T,
    join: T -> T,
    rtrim: T -> T,
    echo: T -> T,
    begins: string,
    ends: string)

  function PhpOps(): TextOps<string> {
    TextOps(LTrim, JoinLines, RTrim, Echo, "", "\n")
  }

  // ----- specification -----

  /** Text block k lies between a strip marker and its end. */
  predicate Inside(marks: seq<Option<StripMark>>, k: nat)
    requires k <= |marks|
  {
    if k == 0 then false
    else if marks[k - 1].Some? then marks[k - 1].value == StripBegins
    else Inside(marks, k - 1)
  }

  /** A text is inside exactly if a region begins at a marker in front of it, with no marker in between. */
  lemma {:induction false} InsideExactly(marks: seq<Option<StripMark>>, k: nat)
    requires k <= |marks|
    ensures Inside(marks, k) <==>
            exists j :: 0 <= j < k && marks[j] == Some(StripBegins) && forall i :: j < i < k ==> marks[i] == None
  {
    if k > 0 { InsideExactly(marks, k - 1); }
  }

  /** One text block after the pass: rewritten once if it is inside, otherwise as it was. */
  function Stripped<T>(ops: TextOps<T>, marks: seq<Option<StripMark>>, k: nat, text: T): T
    requires k <= |marks|
  {
    if !Inside(marks, k) then text
    else
      var led := if marks[k - 1] == Some(StripBegins) then ops.ltrim(text) else text;
      var joined := ops.join(led);
      ops.echo(if k < |marks| && marks[k] == Some(StripEnds) then ops.rtrim(joined) else joined)
  }

  function Unmarked<T>(ops: TextOps<T>, c: Cell): Cell {
    match c
    case Code(_) => c
    case Marker(StripBegins) => Code(ops.begins)
    case Marker(StripEnds) => Code(ops.ends)
  }

  lemma {:induction false} TrackStripAppend(a: seq<Option<StripMark>>, b: seq<Option<StripMark>>, open: bool)
    ensures TrackStrip(a + b, open) ==
            match TrackStrip(a, open)
            case None => None
            case Some(o) => TrackStrip(b, o)
    decreases |a|
  {
    if a == [] {
      assert a + b == b;
    } else {
      assert (a + b)[0] == a[0] && (a + b)[1..] == a[1..] + b;
      TrackStripAppend(a[1..], b, if a[0] == None then open else a[0] == Some(StripBegins));
    }
  }

  /** Reading the first k markers tells whether text block k is inside. */
  lemma {:induction false} TrackIsInside(marks: seq<Option<StripMark>>, k: nat)
    requires k <= |marks| && TrackStrip(marks, false).Some?
    ensures TrackStrip(marks[..k], false) == Some(Inside(marks, k))
    ensures k < |marks| && marks[k].Some? ==> (marks[k].value == StripBegins <==> !Inside(marks, k))
    decreases k
  {
    if k > 0 {
      TrackIsInside(marks, k - 1);
      assert marks[..k] == marks[..k - 1] + [marks[k - 1]];
      assert [marks[k - 1]][1..] == [];
      TrackStripAppend(marks[..k - 1], [marks[k - 1]], false);
    }
    if k < |marks| {
      assert marks == marks[..k] + marks[k..];
      TrackStripAppend(marks[..k], marks[k..], false);
    }
  }

  // ----- the pass -----

  /** A text block as the inner loop leaves it; the first of a region has been trimmed on the left before. */
  function Inner<T>(ops: TextOps<T>, mark: Option<StripMark>, text: T): T {
    var joined := ops.join(text);
    ops.echo(if mark == Some(StripEnds) then ops.rtrim(joined) else joined)
  }

  /** The region that opens at `begin` closes at `end`. */
  ghost predicate Region(marks: seq<Option<StripMark>>, begin: nat, end: nat) {
    && begin < end < |marks| && marks[begin] == Some(StripBegins) && marks[end] == Some(StripEnds)
    && forall k :: begin < k < end ==> marks[k] == None
  }

  /** There is no marker between `begin` and j, which is still inside. */
  ghost predicate Begun(marks: seq<Option<StripMark>>, begin: nat, j: nat) {
    begin < j <= |marks| && Inside(marks, j) && forall k :: begin < k < j ==> marks[k] == None
  }

  lemma RegionGoesOn(marks: seq<Option<StripMark>>, begin: nat, j: nat)
    requires TrackStrip(marks, false).Some? && Begun(marks, begin, j) && j < |marks|
             && marks[begin] == Some(StripBegins)
    ensures if marks[j] == Some(StripEnds) then Region(marks, begin, j)
            else marks[j] == None && Begun(marks, begin, j + 1)
  {
    NextMark(marks, j);
  }

  /** The inner loop: the text blocks after the marker at `begin`, through its end marker. */
  method StripRegion<T>(
    ops: TextOps<T>, tags: array<Cell>, texts: array<T>, begin: nat, ghost marks: seq<Option<StripMark>>)
    returns (end: nat)
    requires begin < tags.Length && texts.Length == tags.Length + 1
    requires |marks| == tags.Length && TrackStrip(marks, false) == Some(false) && marks[begin] == Some(StripBegins)
    requires forall k :: begin < k < tags.Length ==> MarkOf(tags[k]) == marks[k]
    modifies tags, texts
    ensures Region(marks, begin, end)
    ensures forall k :: begin < k <= end ==> tags[k] == Unmarked(ops, old(tags[k]))
    ensures forall k :: 0 <= k < tags.Length && !(begin < k <= end) ==> tags[k] == old(tags[k])
    ensures forall k :: begin < k <= end ==> texts[k] == Inner(ops, marks[k], old(texts[k]))
    ensures forall k :: 0 <= k < texts.Length && !(begin < k <= end) ==> texts[k] == old(texts[k])
  {
    var n := tags.Length;
    EndsOutside(marks);
    NextMark(marks, begin);
    var j := begin + 1;
    while j < n
      invariant begin < j <= n && Begun(marks, begin, j)
      invariant forall k :: 0 <= k < n ==> tags[k] == old(tags[k])
      invariant forall k :: begin < k < j ==> texts[k] == Inner(ops, marks[k], old(texts[k]))
      invariant forall k :: 0 <= k <= n && !(begin < k < j) ==> texts[k] == old(texts[k])
    {
      RegionGoesOn(marks, begin, j);
      assert MarkOf(tags[j]) == marks[j];
      StripText(ops, tags, texts, j);
      if tags[j] == Marker(StripEnds) {
        tags[j] := Code(ops.ends);
        return j;
      }
      j := j + 1;
    }
    assert false;
  }

  /** A text block inside a region. */
  method StripText<T>(ops: TextOps<T>, tags: array<Cell>, texts: array<T>, j: nat)
    requires j < tags.Length < texts.Length
    modifies texts
    ensures texts[j] == Inner(ops, MarkOf(tags[j]), old(texts[j]))
    ensures forall k :: 0 <= k < texts.Length && k != j ==> texts[k] == old(texts[k])
  {
    texts[j] := ops.join(texts[j]);
    if tags[j] == Marker(StripEnds) {
      /* the region ends behind this text */
      texts[j] := ops.rtrim(texts[j]);
    }
    texts[j] := ops.echo(texts[j]);
  }

  lemma EndsOutside(marks: seq<Option<StripMark>>)
    requires TrackStrip(marks, false) == Some(false)
    ensures !Inside(marks, |marks|)
  {
    TrackIsInside(marks, |marks|);
    assert marks[..|marks|] == marks;
  }

  /** The marker at j, and where it leads. */
  lemma NextMark(marks: seq<Option<StripMark>>, j: nat)
    requires TrackStrip(marks, false).Some? && j < |marks|
    ensures if marks[j].None? then Inside(marks, j + 1) == Inside(marks, j)
            else Inside(marks, j + 1) == !Inside(marks, j) == (marks[j].value == StripBegins)
  {
    TrackIsInside(marks, j);
  }

  lemma {:induction false} InsideRegion(marks: seq<Option<StripMark>>, begin: nat, end: nat, k: nat)
    requires Region(marks, begin, end) && begin < k <= end
    ensures Inside(marks, k)
  {
    if k > begin + 1 { InsideRegion(marks, begin, end, k - 1); }
  }

  /** What the outer loop has done when it comes to cell i, outside of every region. */
  ghost predicate Passed<T>(ops: TextOps<T>, marks: seq<Option<StripMark>>, tags0: seq<Cell>, texts0: seq<T>,
                            tags: seq<Cell>, texts: seq<T>, i: nat) {
    && i <= |marks| == |tags| == |tags0| && |texts| == |texts0| == |marks| + 1 && !Inside(marks, i)
    && (forall k {:trigger tags[k]} :: 0 <= k < i ==> tags[k] == Unmarked(ops, tags0[k]))
    && (forall k :: i <= k < |tags| ==> tags[k] == tags0[k])
    && (forall k {:trigger texts[k]} :: 0 <= k <= i ==> texts[k] == Stripped(ops, marks, k, texts0[k]))
    && (forall k :: i < k < |texts| ==> texts[k] == texts0[k])
  }

  lemma PassCode<T>(ops: TextOps<T>, marks: seq<Option<StripMark>>, tags0: seq<Cell>, texts0: seq<T>,
                    tags: seq<Cell>, texts: seq<T>, i: nat)
    requires Passed(ops, marks, tags0, texts0, tags, texts, i) && i < |marks| && marks[i] == None && tags0[i].Code?
    ensures Passed(ops, marks, tags0, texts0, tags, texts, i + 1)
  {}

  /** The two markers of a region are gone, and its texts are rewritten. */
  lemma PassRegion<T>(ops: TextOps<T>, marks: seq<Option<StripMark>>, tags0: seq<Cell>, texts0: seq<T>,
                      tags1: seq<Cell>, texts1: seq<T>, begin: nat, end: nat, tags: seq<Cell>, texts: seq<T>)
    requires Passed(ops, marks, tags0, texts0, tags1, texts1, begin) && Region(marks, begin, end)
    requires |tags| == |tags0| && |texts| == |texts0| && tags0[begin] == Marker(StripBegins)
    requires forall k :: 0 <= k < begin || end < k < |tags| ==> tags[k] == tags1[k]
    requires tags[begin] == Code(ops.begins)
    requires forall k :: begin < k <= end ==> tags[k] == Unmarked(ops, tags1[k])
    requires forall k :: 0 <= k <= begin || end < k < |texts| ==> texts[k] == texts1[k]
    requires texts[begin + 1] == Inner(ops, marks[begin + 1], ops.ltrim(texts1[begin + 1]))
    requires forall k :: begin + 1 < k <= end ==> texts[k] == Inner(ops, marks[k], texts1[k])
    ensures Passed(ops, marks, tags0, texts0, tags, texts, end + 1)
  {
    forall k | begin < k <= end ensures texts[k] == Stripped(ops, marks, k, texts0[k]) {
      InsideRegion(marks, begin, end, k);
    }
  }

  /** The region that opens at `begin`: its marker goes, its first text loses the white space in front. */
  method StripFrom<T>(ops: TextOps<T>, tags: array<Cell>, texts: array<T>, begin: nat,
                      ghost marks: seq<Option<StripMark>>, ghost tags0: seq<Cell>, ghost texts0: seq<T>)
    returns (end: nat)
    requires texts.Length == tags.Length + 1 && begin < tags.Length && tags[begin] == Marker(StripBegins)
    requires TrackStrip(marks, false) == Some(false) && marks == MarksOf(tags0)
    requires Passed(ops, marks, tags0, texts0, tags[..], texts[..], begin)
    modifies tags, texts
    ensures begin < end < tags.Length && Passed(ops, marks, tags0, texts0, tags[..], texts[..], end + 1)
  {
    ghost var tags1, texts1 := tags[..], texts[..];
    NextMark(marks, begin);
    tags[begin] := Code(ops.begins);
    /* the region begins in front of this text */
    texts[begin + 1] := ops.ltrim(texts[begin + 1]);
    end := StripRegion(ops, tags, texts, begin, marks);
    PassRegion(ops, marks, tags0, texts0, tags1, texts1, begin, end, tags[..], texts[..]);
  }

  /**
   The loops over compiled tags and text blocks. Balanced markers are what
   compiling an accepted template yields. Every text inside a region is rewritten
   once, every other text is kept, and no marker is left.
   */
  method StripRegions<T>(ops: TextOps<T>, tags: array<Cell>, texts: array<T>)
    requires texts.Length == tags.Length + 1
    requires TrackStrip(MarksOf(tags[..]), false) == Some(false)
    modifies tags, texts
    ensures forall i :: 0 <= i < tags.Length ==> tags[i] == Unmarked(ops, old(tags[i]))
    ensures forall k :: 0 <= k < texts.Length ==> texts[k] == Stripped(ops, old(MarksOf(tags[..])), k, old(texts[k]))
  {
    ghost var tags0, texts0, marks := tags[..], texts[..], MarksOf(tags[..]);
    var i := 0;
    while i < tags.Length
      invariant Passed(ops, marks, tags0, texts0, tags[..], texts[..], i)
    {
      if tags[i] == Marker(StripBegins) {
        i := StripFrom(ops, tags, texts, i, marks, tags0, texts0);
      } else {
        NextMark(marks, i);
        PassCode(ops, marks, tags0, texts0, tags[..], texts[..], i);
      }
      i := i + 1;
    }
  }

  /** The compiled tags as the pass meets them, their code rendered as text. */
  function Cells(outs: seq<Compiled>, render: Compiled -> string): seq<Cell> {
    seq(|outs|, i requires 0 <= i < |outs| =>
      if outs[i].strip.Some? then Marker(outs[i].strip.value) else Code(render(outs[i])))
  }

  lemma {:induction false} StripMarksAt(outs: seq<Compiled>, i: nat)
    requires i < |outs|
    ensures StripMarks(outs)[i] == outs[i].strip
  {
    if i > 0 { StripMarksAt(outs[1..], i - 1); }
  }

  /** An accepted template meets the requirement of the pass: its markers are balanced. */
  lemma AcceptedIsBalanced(reg: Registry, tags: seq<Tag>, render: Compiled -> string)
    requires CompileAll(reg, INITIAL, tags).Some?
    ensures TrackStrip(MarksOf(Cells(CompileAll(reg, INITIAL, tags).value.1, render)), false) == Some(false)
  {
    var outs := CompileAll(reg, INITIAL, tags).value.1;
    CompiledRegionsClosed(reg, tags);
    forall i | 0 <= i < |outs| ensures MarksOf(Cells(outs, render))[i] == StripMarks(outs)[i] {
      StripMarksAt(outs, i);
    }
    assert MarksOf(Cells(outs, render)) == StripMarks(outs);
  }

  // ----- what the rewriting does to a text -----

  /** The literal ends at its closing quote, and what PHP reads is the text that was escaped. */
  lemma {:induction false} UnquoteEscape(s: string, rest: string)
    ensures ReadLiteral(Escape(s) + "'" + rest) == Some((s, rest))
  {
    var end := "'" + rest;
    if s == "" {
      Nothing(end);
      TakeDrop("'", rest);
    } else {
      UnquoteEscape(s[1..], rest);
      HeadTail(s);
      Assoc(EscapeChar(s[0]), Escape(s[1..]), end);
      ReadChar(s[0], Escape(s[1..]) + end);
      Assoc(Escape(s[1..]), "'", rest);
    }
    Assoc(Escape(s), "'", rest);
  }

  lemma ReadChar(c: char, tail: string)
    ensures ReadLiteral(EscapeChar(c) + tail) == Before(c, ReadLiteral(tail))
  {
    TakeDrop(EscapeChar(c), tail);
    assert (EscapeChar(c) + tail)[0] == EscapeChar(c)[0];
  }

  lemma EchoPrints(s: string)
    ensures Echoed(Echo(s)) == Some(s)
  {
    UnquoteEscape(s, "; ?>");
    assert Echo(s) == "<?php echo '" + (Escape(s) + "'" + "; ?>");
    TakeDrop("<?php echo '", Escape(s) + "'" + "; ?>");
  }

  /** Trimming takes away blanks, tabs, line ends, the zero byte and the vertical tab. */
  lemma TrimmedExactly(c: char)
    ensures RTrim(['x', c]) == "x" <==>
            c == ' ' || c == '\t' || c == '\n' || c == '\r' || c == '\0' || c == 11 as char
    ensures LTrim([c, 'x']) == "x" <==> RTrim(['x', c]) == "x"
  {
    assert ['x', c][..1] == "x" && [c, 'x'][1..] == "x";
  }

  /** Nothing is left of the opening marker, and a line end of the closing one. */
  lemma MarkersLeave()
    ensures Unmarked(PhpOps(), Marker(StripBegins)) == Code("") && Unmarked(PhpOps(), Marker(StripEnds)) == Code("\n")
  {}

  /**
   With PHP's own functions: a text inside a region becomes one echo, and what PHP prints
   of it are its lines put together, trimmed at the ends of the region, on a single line.
   */
  lemma StrippedPrints(marks: seq<Option<StripMark>>, k: nat, text: string)
    requires k <= |marks| && Inside(marks, k)
    ensures var led := if marks[k - 1] == Some(StripBegins) then LTrim(text) else text;
            var joined := Together(Lines(led));
            var shown := if k < |marks| && marks[k] == Some(StripEnds) then RTrim(joined) else joined;
            Echoed(Stripped(PhpOps(), marks, k, text)) == Some(shown) && OneLine(shown)
  {
    var led := if marks[k - 1] == Some(StripBegins) then LTrim(text) else text;
    var joined := JoinLines(led);
    JoinLinesIsTogether(led);
    JoinLinesJoins(led);
    assert RTrim(joined) <= joined;
    EchoPrints(joined);
    EchoPrints(RTrim(joined));
  }
}
