/**
 Multiline values: what is printed between triple quotes is read back unchanged
 exactly when it neither contains three double quotes nor ends in one, and has no
 carriage return for `fix_newlines` to rewrite.
 */
module ConfigMultiline {
  import opened Options
  import opened PhpStrings
  import opened ConfigLexer
  import opened ConfigStore
  import opened ConfigLaws
  import opened ConfigHidden

  /** name = """value""" */
  function Printed(name: string, value: string): string {
    name + " = " + TRIPLE + value + TRIPLE
  }

  predicate QuotesAt(s: string, i: int) {
    0 <= i && i + 3 <= |s| && s[i] == '"' && s[i + 1] == '"' && s[i + 2] == '"'
  }

  /** What the closing quotes cannot be confused with. */
  predicate Quotable(value: string) {
    && (forall i :: 0 <= i < |value| ==> !QuotesAt(value, i))
    && (value == "" || value[|value| - 1] != '"')
  }

  // ----- finding the closing quotes -----

  lemma TripleIsQuotes(s: string)
    requires |s| >= 3
    ensures s[..3] == TRIPLE <==> QuotesAt(s, 0)
  {
    if QuotesAt(s, 0) { assert s[..3] == [s[0], s[1], s[2]]; }
    if s[..3] == TRIPLE { assert s[0] == s[..3][0] && s[1] == s[..3][1] && s[2] == s[..3][2]; }
  }

  lemma {:induction false} FindTripleFirst(s: string)
    ensures FindTriple(s).Some? ==> QuotesAt(s, FindTriple(s).value)
    ensures forall i :: QuotesAt(s, i) ==> FindTriple(s).Some? && i >= FindTriple(s).value
  {
    if |s| >= 3 {
      TripleIsQuotes(s);
      if s[..3] != TRIPLE {
        FindTripleFirst(s[1..]);
        forall i | QuotesAt(s, i) ensures FindTriple(s).Some? && i >= FindTriple(s).value {
          assert QuotesAt(s[1..], i - 1);
        }
      }
    }
  }

  /** The quotes that are found are the closing ones exactly for quotable values. */
  lemma ClosingFound(value: string)
    ensures FindTriple(value + TRIPLE).Some?
    ensures FindTriple(value + TRIPLE).value <= |value|
    ensures Quotable(value) <==> FindTriple(value + TRIPLE) == Some(|value|)
  {
    var s := value + TRIPLE;
    FindTripleFirst(s);
    ClosingQuotes(value);
    var p := FindTriple(s).value;
    if p == |value| {
      forall i | 0 <= i < |value| ensures !QuotesAt(value, i) {
        QuotesIn(value, i);
      }
      if value != "" { QuotesIn(value, |value| - 1); }
    } else {
      QuotesIn(value, p);
    }
  }

  lemma ClosingQuotes(value: string)
    ensures QuotesAt(value + TRIPLE, |value|)
  {}

  /** Quotes inside the value, or across its end. */
  lemma QuotesIn(value: string, i: nat)
    requires i < |value|
    ensures QuotesAt(value, i) ==> QuotesAt(value + TRIPLE, i)
    ensures i == |value| - 1 && value[i] == '"' ==> QuotesAt(value + TRIPLE, i)
    ensures QuotesAt(value + TRIPLE, i) ==> QuotesAt(value, i) || value[|value| - 1] == '"'
  {
    var s := value + TRIPLE;
    assert forall k :: i <= k < |value| ==> s[k] == value[k];
  }

  /** Three quotes do not span the end of a line. */
  lemma {:induction false} FindTripleSkip(line: string, s: string)
    requires line != "" && line[|line| - 1] == '\n'
    ensures FindTriple(line + s) ==
            if FindTriple(line).Some? then FindTriple(line)
            else if FindTriple(s).Some? then Some(|line| + FindTriple(s).value) else None
  {
    var all := line + s;
    assert all[1..] == line[1..] + s;
    if |line| > 1 {
      FindTripleSkip(line[1..], s);
      if |line| >= 3 {
        assert all[..3] == line[..3];
      } else if |all| >= 3 {
        assert all[..3][1] == '\n';
      }
    } else if |all| >= 3 {
      assert all[1..] == s && all[..3][0] == '\n';
    }
  }

  /** A value that opens on a line `first` and goes on behind it. */
  predicate Opening(first: string, rest: seq<string>) {
    Proper(rest) && (rest == [] || (first != "" && first[|first| - 1] == '\n'))
  }

  /** The value `value` and the further lines `n` it takes are those of the text before the quotes at p. */
  predicate Reads(text: string, p: nat, value: string, rest: seq<string>, n: nat) {
    && p <= |text| && n <= |rest|
    && value == text[..p]
    && (rest[n..] == [] || |Join(rest[n..])| + 3 < |text| - p)
  }

  lemma ReadsHere(first: string, rest: seq<string>, p: nat)
    requires Opening(first, rest) && FindTriple(first) == Some(p)
    ensures Reads(first + Join(rest), p, first[..p], rest, 0)
  {
    FindTripleFirst(first);
    assert (first + Join(rest))[..p] == first[..p];
    assert rest[0..] == rest;
    if rest != [] { assert p + 3 < |first|; }
  }

  lemma ReadsFurther(first: string, rest: seq<string>, q: nat, more: string, n: nat)
    requires rest != [] && Reads(Join(rest), q, more, rest[1..], n)
    ensures Reads(first + Join(rest), |first| + q, first + more, rest, n + 1)
  {
    assert (first + Join(rest))[..|first| + q] == first + Join(rest)[..q];
    assert rest[1..][n..] == rest[n + 1..];
  }

  /** Line by line, the value is the text before the first closing quotes, and the line of the quotes is used up. */
  lemma {:induction false} CollectText(first: string, rest: seq<string>)
    requires Opening(first, rest) && FindTriple(first + Join(rest)).Some?
    ensures Reads(first + Join(rest), FindTriple(first + Join(rest)).value,
                  Collect(first, rest).0, rest, Collect(first, rest).1)
    decreases |rest|
  {
    if rest == [] {
      assert first + Join(rest) == first;
      ReadsHere(first, rest, FindTriple(first).value);
    } else {
      FindTripleSkip(first, Join(rest));
      if FindTriple(first).Some? {
        ReadsHere(first, rest, FindTriple(first).value);
      } else {
        CollectText(rest[0], rest[1..]);
        var (more, n) := Collect(rest[0], rest[1..]);
        ReadsFurther(first, rest, FindTriple(Join(rest)).value, more, n);
      }
    }
  }

  // ----- the first line -----

  lemma {:induction false} WordCharsOf(name: string, s: string)
    requires forall i :: 0 <= i < |name| ==> WordChar(name[i])
    requires s == "" || !WordChar(s[0])
    ensures WordChars(name + s) == |name|
  {
    if name == "" {
      assert name + s == s;
    } else {
      assert (name + s)[1..] == name[1..] + s;
      WordCharsOf(name[1..], s);
    }
  }

  lemma OpeningLine(name: string, s: string)
    requires ValidName(name)
    ensures AssignmentOf(name + " = " + TRIPLE + s) == Some(Assignment(name, TRIPLE + s))
  {
    var t := " = " + TRIPLE + s;
    var line := name + t;
    assert line == name + " = " + TRIPLE + s;
    assert line[0] == name[0];
    assert line[0..] == line && Spaces(line) == 0;
    WordCharsOf(name, t);
    TakeDrop(name, t);
    assert t == [' ', '=', ' '] + (TRIPLE + s);
    AfterName(TRIPLE + s);
    NamedLine(line, name, t, TRIPLE + s);
  }

  /** Behind the name: the spaces around the equals sign go. */
  lemma AfterName(v: string)
    requires v != "" && !Space(v[0])
    ensures var t := [' ', '=', ' '] + v;
            && Spaces(t) == 1 && t[1..] == ['=', ' '] + v
            && Spaces(t[1..][1..]) == 1 && t[1..][1..][1..] == v
  {
    var t := [' ', '=', ' '] + v;
    assert t[1..] == ['=', ' '] + v;
    assert t[1..][1..] == [' '] + v;
    assert t[1..][1..][1..] == v;
  }

  lemma NamedLine(line: string, name: string, t: string, v: string)
    requires line != "" && line[0] != '.' && Spaces(line) == 0 && line[0..] == line && WordChars(line) == |name| > 0
    requires line[..|name|] == name && line[|name|..] == t
    requires Spaces(t) == 1 && |t| > 1 && t[1] == '=' && Spaces(t[1..][1..]) == 1 && t[1..][1..][1..] == v
    ensures AssignmentOf(line) == Some(Assignment(name, v))
  {}

  lemma {:induction false} SplitPrefix(prefix: string, s: string)
    requires '\n' !in prefix && s != ""
    ensures var n := LineLength(s);
            SplitLines(prefix + s) == [prefix + s[..n]] + SplitLines(s[n..])
  {
    var n := LineLength(s);
    LineLengthAfter(prefix, s);
    TakeOver(prefix, s, n);
    DropOver(prefix, s, n);
  }

  lemma {:induction false} LineLengthAfter(prefix: string, s: string)
    requires '\n' !in prefix && s != ""
    ensures LineLength(prefix + s) == |prefix| + LineLength(s)
  {
    if prefix == "" {
      assert prefix + s == s;
    } else {
      assert (prefix + s)[1..] == prefix[1..] + s;
      assert forall c :: c in prefix[1..] ==> c in prefix;
      LineLengthAfter(prefix[1..], s);
    }
  }

  lemma FirstMultiline(lines: seq<string>, name: string, first: string)
    requires lines != [] && |lines[0]| > 1 && lines[0][0] != '['
    requires AssignmentOf(lines[0]) == Some(Assignment(name, TRIPLE + first))
    ensures var (value, n) := Collect(first, lines[1..]);
            && First(lines) == (Some(Setting(name, value, false)), 1 + n)
            && Lex(lines) == [Setting(name, value, false)] + Lex(lines[1..][n..])
  {
    AfterTriple(first);
    SliceOfSlice(lines, 1, Collect(first, lines[1..]).1);
  }

  lemma AfterTriple(first: string)
    ensures StartsTriple(TRIPLE + first) && (TRIPLE + first)[3..] == first
  {
    assert (TRIPLE + first)[..3] == TRIPLE;
  }

  lemma NoNewlineIn(name: string)
    requires ValidName(name)
    ensures '\n' !in name + " = " + TRIPLE
  {}

  /** The printed text is a first line, which opens the value, and further lines. */
  lemma PrintedLines(name: string, value: string) returns (first: string, rest: seq<string>)
    requires ValidName(name)
    ensures SplitLines(Printed(name, value)) == [name + " = " + TRIPLE + first] + rest
    ensures first + Join(rest) == value + TRIPLE && Opening(first, rest)
  {
    var prefix, body := name + " = " + TRIPLE, value + TRIPLE;
    Assoc(prefix, value, TRIPLE);
    NoNewlineIn(name);
    var n := LineLength(body);
    first, rest := body[..n], SplitLines(body[n..]);
    SplitPrefix(prefix, body);
    OpeningBody(body);
  }

  lemma OpeningBody(body: string)
    requires body != ""
    ensures var first, rest := body[..LineLength(body)], SplitLines(body[LineLength(body)..]);
            first + Join(rest) == body && Opening(first, rest)
  {
    var n := LineLength(body);
    LineLengthFirst(body);
    SplitIsProper(body[n..]);
    assert body == body[..n] + body[n..];
  }

  /** The printed text is one assignment and what follows the line of the first closing quotes. */
  lemma PrintedLexes(name: string, value: string) returns (after: seq<string>)
    requires ValidName(name)
    ensures FindTriple(value + TRIPLE).Some?
    ensures var p := FindTriple(value + TRIPLE).value;
            && p <= |value|
            && Lex(SplitLines(Printed(name, value))) == [Setting(name, value[..p], false)] + Lex(after)
            && (after == [] || |Join(after)| < |value| - p)
  {
    var first, rest := PrintedLines(name, value);
    var line := name + " = " + TRIPLE + first;
    LineStart(name, first);
    OpeningLine(name, first);
    assert ([line] + rest)[1..] == rest;
    FirstMultiline([line] + rest, name, first);
    after := AfterValue(first, rest, value);
  }

  lemma LineStart(name: string, first: string)
    requires ValidName(name)
    ensures var line := name + " = " + TRIPLE + first; |line| > 1 && line[0] != '['
  {
    assert (name + " = " + TRIPLE + first)[0] == name[0];
  }

  lemma AfterValue(first: string, rest: seq<string>, value: string) returns (after: seq<string>)
    requires first + Join(rest) == value + TRIPLE && Opening(first, rest)
    ensures FindTriple(value + TRIPLE).Some?
    ensures var p, (text, n) := FindTriple(value + TRIPLE).value, Collect(first, rest);
            && p <= |value| && text == value[..p] && after == rest[n..]
            && (after == [] || |Join(after)| < |value| - p)
  {
    ClosingFound(value);
    CollectText(first, rest);
    after := rest[Collect(first, rest).1..];
    var p := FindTriple(value + TRIPLE).value;
    assert (value + TRIPLE)[..p] == value[..p];
  }

  // ----- what values are made of -----

  /** A value is no longer than the lines it was read from, and has no other characters. */
  predicate Within(value: string, text: string) {
    |value| <= |text| && forall c :: c in value ==> c in text
  }

  lemma {:induction false} CollectWithin(first: string, rest: seq<string>)
    ensures Within(Collect(first, rest).0, first + Join(rest))
    decreases |rest|
  {
    if FindTriple(first).None? && rest != [] {
      CollectWithin(rest[0], rest[1..]);
    }
  }

  lemma WithinTrans(a: string, b: string, c: string)
    requires Within(a, b) && Within(b, c)
    ensures Within(a, c)
  {}

  lemma SliceWithin(s: string, i: nat)
    requires i <= |s|
    ensures Within(s[i..], s)
  {}

  lemma BehindWithin(s: string, a: nat, b: nat, c: nat, d: nat)
    requires a + b + c + 1 + d <= |s|
    ensures Within(s[a..][b..][c..][1..][d..], s)
  {
    SliceOfSlice(s, a, b);
    SliceOfSlice(s, a + b, c);
    SliceOfSlice(s, a + b + c, 1);
    SliceOfSlice(s, a + b + c + 1, d);
    SliceWithin(s, a + b + c + 1 + d);
  }

  lemma {:induction false} AssignmentWithin(line: string)
    ensures AssignmentOf(line).Some? ==> Within(AssignmentOf(line).value.value, line)
  {
    if AssignmentOf(line).Some? {
      var s := line[Spaces(line)..];
      var dot := if s != "" && s[0] == '.' then 1 else 0;
      var t := s[dot + WordChars(s[dot..])..];
      var u := t[Spaces(t)..];
      BehindWithin(line, Spaces(line), dot + WordChars(s[dot..]), Spaces(t), Spaces(u[1..]));
    }
  }

  lemma SimpleWithin(v: string)
    ensures Within(Dequote(RTrim(v)), v)
  {
    assert RTrim(v) <= v;
  }

  lemma MultilineWithin(line: string, v: string, rest: seq<string>)
    requires Within(v, line) && |v| >= 3
    ensures Within(Collect(v[3..], rest).0, line + Join(rest))
  {
    CollectWithin(v[3..], rest);
    assert Within(v[3..] + Join(rest), line + Join(rest));
  }

  lemma FirstWithin(lines: seq<string>)
    requires lines != []
    ensures var (e, n) := First(lines);
            e.Some? && e.value.Setting? ==> Within(e.value.value, Join(lines))
  {
    var line, rest := lines[0], lines[1..];
    var a := AssignmentOf(line);
    if a.Some? {
      var v := a.value.value;
      AssignmentWithin(line);
      assert Within(line, Join(lines));
      if StartsTriple(v) {
        MultilineWithin(line, v, rest);
      } else {
        SimpleWithin(v);
        WithinTrans(Dequote(RTrim(v)), v, line);
        WithinTrans(Dequote(RTrim(v)), line, Join(lines));
      }
    }
  }

  lemma {:induction false} JoinSuffix(lines: seq<string>, n: nat)
    requires n <= |lines|
    ensures Within(Join(lines[n..]), Join(lines))
  {
    if n == 0 {
      assert lines[0..] == lines;
    } else {
      JoinSuffix(lines[1..], n - 1);
      assert lines[1..][n - 1..] == lines[n..];
    }
  }

  lemma {:induction false} EventWithin(lines: seq<string>, i: nat)
    requires i < |Lex(lines)| && Lex(lines)[i].Setting?
    ensures Within(Lex(lines)[i].value, Join(lines))
    decreases |lines|
  {
    var (e, n) := First(lines);
    FirstWithin(lines);
    JoinSuffix(lines, n);
    var k := |Optional(e)|;
    if i >= k { EventWithin(lines[n..], i - k); }
  }

  // ----- the round trip -----

  /** The file holds this one global variable and nothing else. */
  function Only(name: string, value: string): Config {
    Config(map[name := One(Text(value))], map[])
  }

  lemma ReadsBack(opts: Settings, name: string, value: string)
    requires ValidName(name) && Quotable(value) && (opts.fixNewlines ==> '\r' !in value)
    ensures Parse(opts, Printed(name, value)) == Only(name, value)
  {
    var after := PrintedLexes(name, value);
    ClosingFound(value);
    PrintedFixed(opts, name, value);
    assert value[..|value|] == value;
    assert after == [];
    Single(Setting(name, value, false));
    RunsToOnly(opts, name, value);
  }

  lemma PrintedFixed(opts: Settings, name: string, value: string)
    requires ValidName(name) && (opts.fixNewlines ==> '\r' !in value)
    ensures Fixed(opts, Printed(name, value)) == Printed(name, value)
  {
    if opts.fixNewlines { FixIsIdentity(Printed(name, value)); }
  }

  lemma RunsToOnly(opts: Settings, name: string, value: string)
    requires ValidName(name)
    ensures Run(opts, START, [Setting(name, value, false)]).config == Only(name, value)
  {
    RunOne(opts, START, Setting(name, value, false));
  }

  lemma {:induction false} ValuesAreRead(opts: Settings, settings: seq<Event>, key: string) returns (i: nat)
    requires ValuesOf(opts, settings, key) != []
    ensures i < |settings| && settings[i].Setting?
    ensures var values := ValuesOf(opts, settings, key);
            values[|values| - 1] == ScalarOf(opts, settings[i].value, settings[i].plain)
  {
    var last := |settings| - 1;
    if KeyOf(opts, settings[last]) == Some(key) {
      i := last;
    } else {
      assert ValuesOf(opts, settings, key) == ValuesOf(opts, settings[..last], key);
      i := ValuesAreRead(opts, settings[..last], key);
    }
  }

  lemma {:induction false} BelongingIsRead(opts: Settings, events: seq<Event>, place: Place, i: nat) returns (k: nat)
    requires i < |Belonging(opts, events, place)|
    ensures k < |events| && events[k] == Belonging(opts, events, place)[i]
  {
    var last := |events| - 1;
    if i < |Belonging(opts, events[..last], place)| {
      k := BelongingIsRead(opts, events[..last], place, i);
    } else {
      k := last;
    }
  }

  /** A stored text is the value of some assignment of the file. */
  lemma StoredIsRead(opts: Settings, contents: string, name: string, value: string) returns (k: nat)
    requires Parse(opts, contents) == Only(name, value)
    ensures var events := Lex(SplitLines(Fixed(opts, contents)));
            k < |events| && events[k].Setting? && events[k].value == value
  {
    ParsedValues(opts, contents, name);
    k := ExpectedIsRead(opts, Lex(SplitLines(Fixed(opts, contents))), name, value);
  }

  lemma ExpectedIsRead(opts: Settings, events: seq<Event>, name: string, value: string) returns (k: nat)
    requires Expected(opts, events, Globals, name) == Some(One(Text(value)))
    ensures k < |events| && events[k].Setting? && events[k].value == value
  {
    var i := ValuesAreRead(opts, Belonging(opts, events, Globals), name);
    k := BelongingIsRead(opts, events, Globals, i);
  }

  lemma NotQuotableIsShorter(name: string, value: string, k: nat)
    requires ValidName(name) && !Quotable(value)
    requires k < |Lex(SplitLines(Printed(name, value)))| && Lex(SplitLines(Printed(name, value)))[k].Setting?
    ensures |Lex(SplitLines(Printed(name, value)))[k].value| < |value|
  {
    var first, after := PrintedShorter(name, value);
    LaterIsShorter(first, after, |value|, k);
  }

  lemma PrintedShorter(name: string, value: string) returns (first: Event, after: seq<string>)
    requires ValidName(name) && !Quotable(value)
    ensures Lex(SplitLines(Printed(name, value))) == [first] + Lex(after)
    ensures first.Setting? && |first.value| < |value| && (after == [] || |Join(after)| < |value|)
  {
    after := PrintedLexes(name, value);
    ClosingFound(value);
    first := Setting(name, value[..FindTriple(value + TRIPLE).value], false);
  }

  lemma LaterIsShorter(first: Event, after: seq<string>, left: nat, k: nat)
    requires first.Setting? && |first.value| < left && (after == [] || |Join(after)| < left)
    requires k < |[first] + Lex(after)| && ([first] + Lex(after))[k].Setting?
    ensures |([first] + Lex(after))[k].value| < left
  {
    if k > 0 {
      Cons(first, Lex(after));
      EventWithin(after, k - 1);
    }
  }

  lemma ReturnsLost(opts: Settings, name: string, value: string)
    requires opts.fixNewlines && '\r' in value
    ensures Parse(opts, Printed(name, value)) != Only(name, value)
  {
    if Parse(opts, Printed(name, value)) == Only(name, value) {
      var k := StoredIsRead(opts, Printed(name, value), name, value);
      var text := Fixed(opts, Printed(name, value));
      FixRemoves(Printed(name, value));
      EventWithin(SplitLines(text), k);
      SplitIsProper(text);
      assert false;
    }
  }

  lemma QuotesCut(opts: Settings, name: string, value: string)
    requires ValidName(name) && !Quotable(value) && (opts.fixNewlines ==> '\r' !in value)
    ensures Parse(opts, Printed(name, value)) != Only(name, value)
  {
    if Parse(opts, Printed(name, value)) == Only(name, value) {
      var k := StoredIsRead(opts, Printed(name, value), name, value);
      PrintedFixed(opts, name, value);
      NotQuotableIsShorter(name, value, k);
      assert false;
    }
  }

  /**
   Printing a value between triple quotes and parsing it gives it back, as one
   unbooleanized text, exactly when it is quotable and keeps its line ends.
   */
  lemma MultilineRoundTrip(opts: Settings, name: string, value: string)
    requires ValidName(name)
    ensures Parse(opts, Printed(name, value)) == Only(name, value)
            <==> Quotable(value) && (opts.fixNewlines ==> '\r' !in value)
  {
    if Quotable(value) && (opts.fixNewlines ==> '\r' !in value) {
      ReadsBack(opts, name, value);
    } else if opts.fixNewlines && '\r' in value {
      ReturnsLost(opts, name, value);
    } else {
      QuotesCut(opts, name, value);
    }
  }
}
