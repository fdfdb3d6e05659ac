/**
 What an ordinary assignment says: the name, and behind the equals sign the value
 without white space around it, without quotes around that, and as a truth value if it
 is one of the words for it.
 */
module PlainValues {
  import opened Options
  import opened ConfigLexer
  import opened ConfigStore
  import opened ConfigLaws
  import opened PlainLines

  // ----- what a value means -----

  /** The word in small or capital letters. */
  predicate InAnyCase(s: string, word: string) {
    |s| == |word| && forall i :: 0 <= i < |s| ==> s[i] == word[i] || s[i] as int + 32 == word[i] as int
  }

  function Meant(opts: Settings, text: string): Scalar {
    if opts.booleanize && (InAnyCase(text, "on") || InAnyCase(text, "true") || InAnyCase(text, "yes")) then Truth(true)
    else if opts.booleanize && (InAnyCase(text, "off") || InAnyCase(text, "false") || InAnyCase(text, "no")) then
      Truth(false)
    else Text(text)
  }

  // ----- storing it -----

  lemma CaseIgnored(s: string)
    ensures InAnyCase(s, "on") <==> Same(s, "on")
    ensures InAnyCase(s, "true") <==> Same(s, "true")
    ensures InAnyCase(s, "yes") <==> Same(s, "yes")
    ensures InAnyCase(s, "off") <==> Same(s, "off")
    ensures InAnyCase(s, "false") <==> Same(s, "false")
    ensures InAnyCase(s, "no") <==> Same(s, "no")
  {}

  /** The table after such an assignment, if there was nothing before. */
  function Held(opts: Settings, a: Spelled): Table
    requires Word(a.name)
  {
    if (a.hidden && !opts.readHidden) || '0' <= a.name[0] <= '9' then map[]
    else map[a.name := One(Meant(opts, Inner(a.body)))]
  }

  lemma StoredAsMeant(opts: Settings, a: Spelled)
    requires WellSpelled(opts, a)
    ensures Store(opts, map[], Key(a), Inner(a.body), true) == Held(opts, a)
  {
    CaseIgnored(Inner(a.body));
    if a.hidden { TakeDrop(".", a.name); } else { Nothing(a.name); }
  }

  /**
   For every name, value and white space: a file with one assignment holds just that
   variable, and its value is what its author means by it. It holds nothing if the name
   begins with a digit, or with a dot while hidden data is not read.
   */
  lemma AssignmentRead(opts: Settings, a: Spelled, eol: string)
    requires WellSpelled(opts, a) && (eol == "" || LineEnd(eol))
    ensures Parse(opts, Spell(a) + eol) == Config(Held(opts, a), map[])
  {
    NoNewline(opts, a);
    OneLineFile(opts, Spell(a), eol);
    LineLexed(opts, a, EndFixed(opts, eol));
    RunOne(opts, START, Setting(Key(a), Inner(a.body), true));
    StoredAsMeant(opts, a);
  }

  /** The same behind a header: the variable is in that section. */
  lemma SectionRead(opts: Settings, header: string, a: Spelled, eol: string)
    requires ']' !in header && '\n' !in header && (opts.fixNewlines ==> '\r' !in header) && !Dotted(header)
    requires WellSpelled(opts, a) && LineEnd(eol)
    ensures Parse(opts, "[" + header + "]" + (eol + (Spell(a) + eol))) == Config(map[], map[header := Held(opts, a)])
  {
    NoNewline(opts, a);
    TwoLines(opts, "[" + header + "]", Spell(a), eol);
    LineLexed(opts, a, EndFixed(opts, eol));
    HeaderLexed(header, EndFixed(opts, eol), Spell(a) + EndFixed(opts, eol));
    StoredAsMeant(opts, a);
    TwoEvents(opts, header, Setting(Key(a), Inner(a.body), true));
  }

  /** A header is what is between the brackets, up to the first closing one; the rest of the line does not matter. */
  lemma HeaderRead(opts: Settings, header: string, rest: string, eol: string)
    requires ']' !in header && '\n' !in header && '\n' !in rest && !Dotted(header)
    requires (opts.fixNewlines ==> '\r' !in header && '\r' !in rest) && (eol == "" || LineEnd(eol))
    ensures Parse(opts, "[" + header + "]" + rest + eol) == Config(map[], map[header := map[]])
  {
    var line, end := "[" + header + "]" + rest, EndFixed(opts, eol);
    OneLineFile(opts, line, eol);
    Assoc("[" + header + "]", rest, end);
    BracketWithin(header, rest + end);
    var whole := "[" + header + "]" + (rest + end);
    assert whole[1..] == header + "]" + (rest + end) && whole[1..][..|header|] == header;
    Cons(whole, []);
    assert Lex([whole]) == [Section(header)];
    RunOne(opts, START, Section(header));
  }

  lemma TwoEvents(opts: Settings, header: string, e: Event)
    requires e.Setting? && !Dotted(header)
    ensures Run(opts, START, [Section(header)] + [e]).config
         == Config(map[], map[header := Store(opts, map[], e.name, e.value, e.plain)])
  {
    Cons(Section(header), [e]);
    var r := Step(opts, START, Section(header));
    RunOne(opts, r, e);
    assert r.config.sections == map[header := map[]];
  }

  /** A line whose first visible character is no letter, digit, underscore, dot or bracket says nothing. */
  lemma CommentIgnored(opts: Settings, gap: string, c: char, rest: string, eol: string)
    requires Gap(gap) && !Letter(c) && c != '.' && c != '['
    requires c != ' ' && c != '\t' && c != '\n' && c != '\r' && c != 12 as char
    requires '\n' !in rest && (opts.fixNewlines ==> '\r' !in rest) && (eol == "" || LineEnd(eol))
    ensures Parse(opts, gap + ([c] + rest) + eol) == Config(map[], map[])
  {
    var line, end := gap + ([c] + rest), EndFixed(opts, eol);
    Cons(c, rest);
    assert '\n' !in gap && '\r' !in gap;
    OneLineFile(opts, line, eol);
    Assoc(gap, [c] + rest, end);
    Assoc([c], rest, end);
    SaysNothing(gap, c, rest + end);
    assert First([line + end]) == (None, 1);
    Cons(line + end, []);
    Nothing<Event>([]);
    assert Lex([line + end]) == [];
  }

  /** A further value of a variable replaces the ones before, or is put behind them. */
  lemma StoredAgain(opts: Settings, t: Table, name: string, value: string, plain: bool)
    requires Word(name) && !('0' <= name[0] <= '9') && name in t
    ensures var v := if plain then Meant(opts, value) else Text(value);
            Store(opts, t, name, value, plain) ==
            t[name := if opts.overwrite then One(v)
                      else match t[name] case One(first) => Many([first, v]) case Many(more) => Many(more + [v])]
  {
    CaseIgnored(value);
    assert !Dotted(name) && ValidName(name);
    var v := if plain then Meant(opts, value) else Text(value);
    assert ScalarOf(opts, value, plain) == v;
    match t[name]
    case One(first) => assert [first] + [v] == [first, v];
    case Many(_) =>
  }
}
