/**
 With `read_hidden` off, hidden variables and sections do not influence the
 result: deleting their lines from the file leaves the configuration unchanged.
 Also, how the lines of a file and its contents determine each other.
 */
module ConfigHidden {
  import opened ConfigLexer
  import opened ConfigStore

  // ----- deleting hidden lines -----

  /** The lines that remain; `hidden` says that the most recent header was dot-named. */
  function Keep(lines: seq<string>, hidden: bool): seq<string>
    decreases |lines|
  {
    if lines == [] then []
    else
      var (e, n) := First(lines);
      var here, rest := lines[..n], lines[n..];
      if e.Some? && e.value.Section? then
        if Dotted(e.value.name) then Keep(rest, true) else here + Keep(rest, false)
      else if hidden || (e.Some? && Dotted(e.value.name)) then Keep(rest, hidden)
      else here + Keep(rest, hidden)
  }

  function KeepEvents(events: seq<Event>, hidden: bool): seq<Event>
    decreases |events|
  {
    if events == [] then []
    else
      var e, rest := events[0], events[1..];
      if e.Section? then
        if Dotted(e.name) then KeepEvents(rest, true) else [e] + KeepEvents(rest, false)
      else if hidden || Dotted(e.name) then KeepEvents(rest, hidden)
      else [e] + KeepEvents(rest, hidden)
  }

  /** A value that closes before the last line does not depend on what follows. */
  lemma {:induction false} CollectPrefix(first: string, rest: seq<string>, more: seq<string>)
    requires Collect(first, rest).1 < |rest|
    ensures Collect(first, rest[..Collect(first, rest).1] + more) == Collect(first, rest)
    decreases |rest|
  {
    var n := Collect(first, rest).1;
    if FindTriple(first).None? {
      CollectPrefix(rest[0], rest[1..], more);
      var ahead := rest[..n] + more;
      assert ahead[0] == rest[0];
      assert ahead[1..] == rest[1..][..n - 1] + more;
    }
  }

  lemma TailOver(lines: seq<string>, n: nat, more: seq<string>)
    requires 0 < n <= |lines|
    ensures (lines[..n] + more)[0] == lines[0] && (lines[..n] + more)[1..] == lines[1..][..n - 1] + more
    ensures (lines[..n] + more)[n..] == more
  {}

  /** What the first line says depends only on the lines it takes, unless it takes all. */
  lemma FirstPrefix(lines: seq<string>, more: seq<string>)
    requires lines != [] && First(lines).1 < |lines|
    ensures var ahead := lines[..First(lines).1] + more;
            First(ahead) == First(lines) && ahead[First(lines).1..] == more
  {
    var n := First(lines).1;
    var ahead := lines[..n] + more;
    TailOver(lines, n, more);
    var a := AssignmentOf(lines[0]);
    if a.Some? && StartsTriple(a.value.value) {
      if n > 1 || HeaderOf(lines[0]).None? {
        var first, rest := a.value.value[3..], lines[1..];
        if Collect(first, rest).1 == n - 1 {
          CollectPrefix(first, rest, more);
        }
      }
    }
  }

  /** Lexing a kept stretch of lines and what is kept after it. */
  lemma KeepHere(lines: seq<string>, kept: seq<string>)
    requires lines != [] && (First(lines).1 == |lines| ==> kept == [])
    ensures var (e, n) := First(lines);
            Lex(lines[..n] + kept) == Optional(e) + Lex(kept)
  {
    var (e, n) := First(lines);
    if n == |lines| {
      assert lines[..n] + kept == lines && lines[n..] == kept;
    } else {
      FirstPrefix(lines, kept);
    }
  }

  lemma KeptEvent(e: Event, rest: seq<Event>, hidden: bool)
    ensures KeepEvents([e] + rest, hidden) ==
            if e.Section? then
              if Dotted(e.name) then KeepEvents(rest, true) else [e] + KeepEvents(rest, false)
            else if hidden || Dotted(e.name) then KeepEvents(rest, hidden)
            else [e] + KeepEvents(rest, hidden)
  {
    assert ([e] + rest)[1..] == rest;
  }

  /** The lexing of deleted lines is the lexing without the deleted events. */
  lemma {:induction false} KeepLexes(lines: seq<string>, hidden: bool)
    ensures Lex(Keep(lines, hidden)) == KeepEvents(Lex(lines), hidden)
    decreases |lines|
  {
    if lines != [] {
      var (e, n) := First(lines);
      var rest := lines[n..];
      KeepLexes(rest, true);
      KeepLexes(rest, false);
      if e.None? {
        assert [] + Lex(rest) == Lex(rest);
        if !hidden { KeepHere(lines, Keep(rest, false)); }
      } else {
        KeptEvent(e.value, Lex(rest), hidden);
        if e.value.Section? {
          if !Dotted(e.value.name) { KeepHere(lines, Keep(rest, false)); }
        } else if !hidden && !Dotted(e.value.name) {
          KeepHere(lines, Keep(rest, false));
        }
      }
    }
  }

  /** Readings that agree except that the second has not seen what is hidden. */
  predicate SameButHidden(r: Reading, kept: Reading, hidden: bool) {
    && r.config == kept.config
    && (if hidden then r.place == Nowhere else r.place == kept.place)
    && (r.place.InSection? ==> r.place.name in r.config.sections)
  }

  lemma {:induction false} HiddenEventsIrrelevant(
    opts: Settings, events: seq<Event>, r: Reading, kept: Reading, hidden: bool)
    requires !opts.readHidden && SameButHidden(r, kept, hidden)
    ensures Run(opts, r, events).config == Run(opts, kept, KeepEvents(events, hidden)).config
    decreases |events|
  {
    if events != [] {
      var e, rest := events[0], events[1..];
      var next := Step(opts, r, e);
      if e.Section? {
        if Dotted(e.name) {
          HiddenEventsIrrelevant(opts, rest, next, kept, true);
        } else {
          HiddenEventsIrrelevant(opts, rest, next, Step(opts, kept, e), false);
          assert ([e] + KeepEvents(rest, false))[1..] == KeepEvents(rest, false);
        }
      } else if hidden || Dotted(e.name) {
        assert next.config == r.config;
        HiddenEventsIrrelevant(opts, rest, next, kept, hidden);
      } else {
        HiddenEventsIrrelevant(opts, rest, next, Step(opts, kept, e), hidden);
        assert ([e] + KeepEvents(rest, hidden))[1..] == KeepEvents(rest, hidden);
      }
    }
  }

  /** On lines: what is hidden does not influence the configuration. */
  lemma HiddenLinesIrrelevant(opts: Settings, lines: seq<string>)
    requires !opts.readHidden
    ensures ParseLines(opts, Keep(lines, false)) == ParseLines(opts, lines)
  {
    KeepLexes(lines, false);
    HiddenEventsIrrelevant(opts, Lex(lines), START, START, false);
  }

  // ----- lines and contents -----

  predicate Ended(line: string) {
    line != "" && line[|line| - 1] == '\n' && '\n' !in line[..|line| - 1]
  }

  /** Lines as a file has them: only the last may lack its newline. */
  predicate Proper(lines: seq<string>) {
    lines == []
    || (if |lines| == 1 then Ended(lines[0]) || (lines[0] != "" && '\n' !in lines[0])
        else Ended(lines[0]) && Proper(lines[1..]))
  }

  lemma {:induction false} LineLengthFirst(s: string)
    requires s != ""
    ensures var n := LineLength(s);
            if n < |s| then Ended(s[..n]) else Ended(s) || '\n' !in s
  {
    var n := LineLength(s);
    if s[0] == '\n' {
      assert s[..1] == "\n";
      assert '\n' !in s[..1][..0];
    } else if |s| > 1 {
      LineLengthFirst(s[1..]);
      assert s[..n] == [s[0]] + s[1..][..n - 1];
      assert s == [s[0]] + s[1..];
      if Ended(s[1..][..n - 1]) {
        assert s[..n][..n - 1] == [s[0]] + s[1..][..n - 1][..n - 2];
      }
      if n == |s| { assert s[1..][..n - 1] == s[1..] && s[..n] == s; }
    }
  }

  lemma {:induction false} LineLengthOf(line: string, rest: string)
    requires line != "" && (Ended(line) || ('\n' !in line && rest == ""))
    ensures LineLength(line + rest) == |line|
    decreases |line|
  {
    var s := line + rest;
    if line[0] != '\n' && |line| > 1 {
      assert s[1..] == line[1..] + rest;
      if Ended(line) { assert line[1..][..|line| - 2] == line[..|line| - 1][1..]; }
      LineLengthOf(line[1..], rest);
    } else if line[0] != '\n' {
      assert s[1..] == rest;
    }
  }

  lemma {:induction false} SplitIsProper(s: string)
    ensures Proper(SplitLines(s)) && Join(SplitLines(s)) == s
    decreases |s|
  {
    if s != "" {
      var n := LineLength(s);
      LineLengthFirst(s);
      SplitIsProper(s[n..]);
      assert s[..n] + s[n..] == s;
      if n == |s| { assert s[..n] == s; }
    }
  }

  lemma {:induction false} SplitJoin(lines: seq<string>)
    requires Proper(lines)
    ensures SplitLines(Join(lines)) == lines
    decreases |lines|
  {
    if lines != [] {
      var s, rest := Join(lines), Join(lines[1..]);
      SplitJoin(lines[1..]);
      if |lines| == 1 { assert rest == ""; }
      LineLengthOf(lines[0], rest);
      assert s[..|lines[0]|] == lines[0] && s[|lines[0]|..] == rest;
      assert lines == [lines[0]] + lines[1..];
    }
  }

  predicate AllEnded(lines: seq<string>) {
    lines == [] || (Ended(lines[0]) && AllEnded(lines[1..]))
  }

  lemma {:induction false} ProperParts(lines: seq<string>, n: nat)
    requires Proper(lines) && n <= |lines|
    ensures Proper(lines[n..]) && (n < |lines| ==> AllEnded(lines[..n])) && Proper(lines[..n])
  {
    if n > 0 {
      ProperParts(lines[1..], n - 1);
      assert lines[1..][n - 1..] == lines[n..];
      assert lines[..n][0] == lines[0] && lines[..n][1..] == lines[1..][..n - 1];
    } else {
      assert lines[0..] == lines;
    }
  }

  lemma {:induction false} ProperAppend(a: seq<string>, b: seq<string>)
    requires AllEnded(a) && Proper(b)
    ensures Proper(a + b)
    decreases |a|
  {
    if a == [] {
      assert a + b == b;
    } else {
      assert (a + b)[0] == a[0] && (a + b)[1..] == a[1..] + b;
      ProperAppend(a[1..], b);
    }
  }

  lemma HereIsProper(lines: seq<string>, n: nat, kept: seq<string>)
    requires Proper(lines) && n <= |lines| && Proper(kept) && (n == |lines| ==> kept == [])
    ensures Proper(lines[..n] + kept)
  {
    ProperParts(lines, n);
    if n < |lines| {
      ProperAppend(lines[..n], kept);
    } else {
      assert lines[..n] + [] == lines;
    }
  }

  lemma {:induction false} KeepIsProper(lines: seq<string>, hidden: bool)
    requires Proper(lines)
    ensures Proper(Keep(lines, hidden))
    decreases |lines|
  {
    if lines != [] {
      var n := First(lines).1;
      ProperParts(lines, n);
      KeepIsProper(lines[n..], true);
      KeepIsProper(lines[n..], false);
      HereIsProper(lines, n, Keep(lines[n..], false));
    }
  }

  lemma {:induction false} FixIsIdentity(s: string)
    requires '\r' !in s
    ensures FixNewlines(s) == s
  {
    if s != "" {
      assert forall c :: c in s[1..] ==> c in s;
      FixIsIdentity(s[1..]);
    }
  }

  lemma {:induction false} FixRemoves(s: string)
    ensures '\r' !in FixNewlines(s)
    decreases |s|
  {
    if s != "" { FixRemoves(if s[0] == '\r' && |s| > 1 && s[1] == '\n' then s[2..] else s[1..]); }
  }

  predicate NoReturns(lines: seq<string>) {
    forall i :: 0 <= i < |lines| ==> '\r' !in lines[i]
  }

  lemma {:induction false} SplitNoReturns(s: string)
    requires '\r' !in s
    ensures NoReturns(SplitLines(s))
    decreases |s|
  {
    if s != "" {
      var n := LineLength(s);
      assert forall c :: c in s[..n] || c in s[n..] ==> c in s;
      SplitNoReturns(s[n..]);
    }
  }

  lemma {:induction false} JoinNoReturns(lines: seq<string>)
    requires NoReturns(lines)
    ensures '\r' !in Join(lines)
  {
    if lines != [] { JoinNoReturns(lines[1..]); }
  }

  lemma {:induction false} KeepNoReturns(lines: seq<string>, hidden: bool)
    requires NoReturns(lines)
    ensures NoReturns(Keep(lines, hidden))
    decreases |lines|
  {
    if lines != [] {
      var n := First(lines).1;
      KeepNoReturns(lines[n..], true);
      KeepNoReturns(lines[n..], false);
    }
  }

  /** The contents without their hidden lines. */
  function WithoutHidden(opts: Settings, contents: string): string {
    Join(Keep(SplitLines(Fixed(opts, contents)), false))
  }

  /** Written back as a file, the kept lines are split into themselves again. */
  lemma KeptLines(opts: Settings, contents: string)
    ensures var kept := Keep(SplitLines(Fixed(opts, contents)), false);
            SplitLines(Fixed(opts, Join(kept))) == kept
  {
    var lines := SplitLines(Fixed(opts, contents));
    var kept := Keep(lines, false);
    SplitIsProper(Fixed(opts, contents));
    KeepIsProper(lines, false);
    SplitJoin(kept);
    if opts.fixNewlines {
      FixRemoves(contents);
      SplitNoReturns(Fixed(opts, contents));
      KeepNoReturns(lines, false);
      JoinNoReturns(kept);
      FixIsIdentity(Join(kept));
    }
  }

  /**
   With `read_hidden` off, for every file: deleting every dot-named assignment with its
   multiline body, and every dot-named section up to the next header, leaves the parsed
   configuration unchanged.
   */
  lemma HiddenIrrelevant(opts: Settings, contents: string)
    requires !opts.readHidden
    ensures Parse(opts, WithoutHidden(opts, contents)) == Parse(opts, contents)
  {
    KeptLines(opts, contents);
    HiddenLinesIrrelevant(opts, SplitLines(Fixed(opts, contents)));
  }

  // ----- nothing hidden remains -----

  predicate NoneDotted(events: seq<Event>) {
    forall i :: 0 <= i < |events| ==> !Dotted(events[i].name)
  }

  lemma {:induction false} KeptNotDotted(events: seq<Event>, hidden: bool)
    ensures NoneDotted(KeepEvents(events, hidden))
    decreases |events|
  {
    if events != [] {
      KeptNotDotted(events[1..], true);
      KeptNotDotted(events[1..], false);
    }
  }

  lemma {:induction false} ReadHiddenUnused(opts: Settings, events: seq<Event>, r: Reading)
    requires NoneDotted(events)
    ensures Run(opts, r, events) == Run(opts.(readHidden := true), r, events)
    decreases |events|
  {
    if events != [] {
      assert NoneDotted(events[1..]);
      ReadHiddenUnused(opts, events[1..], Step(opts, r, events[0]));
    }
  }

  /**
   `read_hidden` off is the same as deleting the hidden lines and then reading
   everything: what remains of a file has no hidden name or section left.
   */
  lemma HiddenIsDeletion(opts: Settings, contents: string)
    requires !opts.readHidden
    ensures Parse(opts, contents) == Parse(opts.(readHidden := true), WithoutHidden(opts, contents))
  {
    var lines := SplitLines(Fixed(opts, contents));
    HiddenIrrelevant(opts, contents);
    KeptLines(opts, contents);
    KeepLexes(lines, false);
    KeptNotDotted(Lex(lines), false);
    ReadHiddenUnused(opts, Lex(Keep(lines, false)), START);
  }
}
