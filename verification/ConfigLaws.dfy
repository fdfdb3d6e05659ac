/**
 What a parsed configuration is: each table holds exactly the assignments under
 its headers, and a repeated name keeps its last value or all of them.
 */
module ConfigLaws {
  import opened Options
  import opened ConfigLexer
  import opened ConfigStore
  import opened ConfigHidden

  // ----- which assignments belong where -----

  /** Where the most recent header of these events leads; the globals if there is none. */
  function PlaceAfter(opts: Settings, events: seq<Event>): Place {
    if events == [] then Globals
    else
      var last := events[|events| - 1];
      if last.Section? then Opens(opts, last.name) else PlaceAfter(opts, events[..|events| - 1])
  }

  /** The assignments whose most recent header leads to `place`, in order. */
  function Belonging(opts: Settings, events: seq<Event>, place: Place): seq<Event> {
    if events == [] then []
    else
      var before, last := events[..|events| - 1], events[|events| - 1];
      Belonging(opts, before, place) + if last.Setting? && PlaceAfter(opts, before) == place then [last] else []
  }

  /** Some header leads to section s. */
  predicate Mentioned(opts: Settings, events: seq<Event>, s: string) {
    exists i :: 0 <= i < |events| && events[i].Section? && Opens(opts, events[i].name) == InSection(s)
  }

  /** Storing one assignment. */
  function StoreEvent(opts: Settings, t: Table, e: Event): Table {
    if e.Section? then t else Store(opts, t, e.name, e.value, e.plain)
  }

  /** Storing assignments one after the other. */
  function StoreAll(opts: Settings, t: Table, settings: seq<Event>): Table
    decreases |settings|
  {
    if settings == [] then t
    else
      StoreEvent(opts, StoreAll(opts, t, settings[..|settings| - 1]), settings[|settings| - 1])
  }

  lemma StoreAllAppend(opts: Settings, t: Table, settings: seq<Event>, e: Event)
    ensures StoreAll(opts, t, settings + [e]) == StoreEvent(opts, StoreAll(opts, t, settings), e)
  {
    assert (settings + [e])[..|settings|] == settings;
  }

  lemma RunOne(opts: Settings, r: Reading, e: Event)
    ensures Run(opts, r, [e]) == Step(opts, r, e)
  {
    assert [e][1..] == [];
  }

  /** The table of `place` is what storing the assignments that belong there gives. */
  predicate Holds(opts: Settings, events: seq<Event>, c: Config, place: Place) {
    TableAt(c, place) == StoreAll(opts, map[], Belonging(opts, events, place))
  }

  /** What the fold has done after reading some events. */
  ghost predicate Faithful(opts: Settings, events: seq<Event>, r: Reading) {
    && r.place == PlaceAfter(opts, events)
    && (forall place: Place :: place != Nowhere ==> Holds(opts, events, r.config, place))
    && (forall s :: s in r.config.sections <==> Mentioned(opts, events, s))
  }

  lemma MentionedAppend(opts: Settings, events: seq<Event>, e: Event, s: string)
    ensures Mentioned(opts, events + [e], s) <==>
            Mentioned(opts, events, s) || (e.Section? && Opens(opts, e.name) == InSection(s))
  {
    var all := events + [e];
    if Mentioned(opts, events, s) {
      var i :| 0 <= i < |events| && events[i].Section? && Opens(opts, events[i].name) == InSection(s);
      assert all[i] == events[i];
    }
    if e.Section? && Opens(opts, e.name) == InSection(s) {
      assert all[|events|] == e;
    }
  }

  lemma BelongingAppend(opts: Settings, events: seq<Event>, e: Event, place: Place)
    ensures Belonging(opts, events + [e], place) ==
            Belonging(opts, events, place) + if e.Setting? && PlaceAfter(opts, events) == place then [e] else []
    ensures PlaceAfter(opts, events + [e]) == if e.Section? then Opens(opts, e.name) else PlaceAfter(opts, events)
  {
    assert (events + [e])[..|events|] == events;
  }

  lemma EnterKeepsTables(c: Config, place: Place, other: Place)
    ensures TableAt(Enter(c, place), other) == TableAt(c, other)
  {}

  lemma SetOneTable(c: Config, place: Place, t: Table, other: Place)
    requires place != Nowhere
    ensures TableAt(SetTable(c, place, t), other) == if other == place then t else TableAt(c, other)
  {}

  /** A header does not change what any table holds. */
  lemma HeaderHolds(opts: Settings, events: seq<Event>, r: Reading, e: Event, place: Place)
    requires e.Section? && Holds(opts, events, r.config, place)
    ensures Holds(opts, events + [e], Step(opts, r, e).config, place)
  {
    BelongingAppend(opts, events, e, place);
    assert Belonging(opts, events, place) + [] == Belonging(opts, events, place);
    EnterKeepsTables(r.config, Opens(opts, e.name), place);
  }

  /** An assignment changes the table of the current place, and that one as StoreEvent does. */
  lemma SettingHolds(opts: Settings, events: seq<Event>, r: Reading, e: Event, place: Place)
    requires e.Setting? && Holds(opts, events, r.config, place) && place != Nowhere
    requires r.place == PlaceAfter(opts, events)
    ensures Holds(opts, events + [e], Step(opts, r, e).config, place)
  {
    BelongingAppend(opts, events, e, place);
    var mine := Belonging(opts, events, place);
    if r.place == place {
      StoreAllAppend(opts, map[], mine, e);
    } else {
      assert mine + [] == mine;
    }
    var stored := Store(opts, TableAt(r.config, r.place), e.name, e.value, e.plain);
    if r.place != Nowhere {
      SetOneTable(r.config, r.place, stored, place);
    }
  }

  lemma StepMentions(opts: Settings, events: seq<Event>, r: Reading, e: Event, s: string)
    requires s in r.config.sections <==> Mentioned(opts, events, s)
    requires r.place.InSection? ==> r.place.name in r.config.sections
    ensures s in Step(opts, r, e).config.sections <==> Mentioned(opts, events + [e], s)
  {
    MentionedAppend(opts, events, e, s);
  }

  lemma {:induction false} PlaceMentioned(opts: Settings, events: seq<Event>)
    ensures PlaceAfter(opts, events).InSection? ==> Mentioned(opts, events, PlaceAfter(opts, events).name)
  {
    if events != [] {
      var before, last := events[..|events| - 1], events[|events| - 1];
      assert events == before + [last];
      PlaceMentioned(opts, before);
      var place := PlaceAfter(opts, events);
      if place.InSection? {
        MentionedAppend(opts, before, last, place.name);
      }
    }
  }

  lemma StepFaithful(opts: Settings, events: seq<Event>, r: Reading, e: Event)
    requires Faithful(opts, events, r)
    ensures Faithful(opts, events + [e], Step(opts, r, e))
  {
    PlaceMentioned(opts, events);
    BelongingAppend(opts, events, e, Globals);
    forall place: Place | place != Nowhere
      ensures Holds(opts, events + [e], Step(opts, r, e).config, place)
    {
      if e.Section? { HeaderHolds(opts, events, r, e, place); } else { SettingHolds(opts, events, r, e, place); }
    }
    forall s ensures s in Step(opts, r, e).config.sections <==> Mentioned(opts, events + [e], s) {
      StepMentions(opts, events, r, e, s);
    }
  }

  lemma {:induction false} RunFaithful(opts: Settings, events: seq<Event>)
    ensures Faithful(opts, events, Run(opts, START, events))
    decreases |events|
  {
    if events != [] {
      var before, last := events[..|events| - 1], events[|events| - 1];
      assert events == before + [last];
      RunFaithful(opts, before);
      RunAppend(opts, START, before, [last]);
      RunOne(opts, Run(opts, START, before), last);
      StepFaithful(opts, before, Run(opts, START, before), last);
    }
  }

  /**
   For every file: the globals are the assignments before any header, the sections are
   those some header names, and each holds exactly the assignments whose most recent
   header names it, in order.
   */
  lemma ParsedTables(opts: Settings, contents: string)
    ensures var c := Parse(opts, contents);
            var events := Lex(SplitLines(Fixed(opts, contents)));
            && c.vars == StoreAll(opts, map[], Belonging(opts, events, Globals))
            && (forall s :: s in c.sections <==> Mentioned(opts, events, s))
            && (forall s :: s in c.sections ==>
                  c.sections[s] == StoreAll(opts, map[], Belonging(opts, events, InSection(s))))
  {
    var events := Lex(SplitLines(Fixed(opts, contents)));
    RunFaithful(opts, events);
    var c := Parse(opts, contents);
    assert Holds(opts, events, c, Globals);
    forall s | s in c.sections ensures c.sections[s] == StoreAll(opts, map[], Belonging(opts, events, InSection(s))) {
      assert Holds(opts, events, c, InSection(s));
    }
  }

  // ----- repeated names -----

  /** The key an assignment is stored under, if it is stored. */
  function KeyOf(opts: Settings, e: Event): Option<string> {
    if e.Section? || (Dotted(e.name) && !opts.readHidden) then None
    else
      var key := if Dotted(e.name) then e.name[1..] else e.name;
      if ValidName(key) then Some(key) else None
  }

  /** The values given to a key, in order. */
  function ValuesOf(opts: Settings, settings: seq<Event>, key: string): seq<Scalar> {
    if settings == [] then []
    else
      var last := settings[|settings| - 1];
      ValuesOf(opts, settings[..|settings| - 1], key)
        + if KeyOf(opts, last) == Some(key) then [ScalarOf(opts, last.value, last.plain)] else []
  }

  /** What a table is to hold for a key given these values. */
  function Kept(opts: Settings, values: seq<Scalar>): Value
    requires values != []
  {
    if opts.overwrite || |values| == 1 then One(values[|values| - 1]) else Many(values)
  }

  /**
   Overwriting keeps the last value of each name. Accumulating keeps the single value
   of a name that occurs once, and the list of all its values, in order, if it occurs
   twice or more; whether values were read as booleans makes no difference.
   */
  lemma {:induction false} RepeatedNames(opts: Settings, settings: seq<Event>, key: string)
    ensures var t, values := StoreAll(opts, map[], settings), ValuesOf(opts, settings, key);
            && (key in t <==> values != [])
            && (values != [] ==> t[key] == Kept(opts, values))
    decreases |settings|
  {
    if settings != [] {
      RepeatedNames(opts, settings[..|settings| - 1], key);
    }
  }

  // ----- the tables, name by name -----

  /** What is to be stored under a key in this place: nothing, or what its values come to. */
  function Expected(opts: Settings, events: seq<Event>, place: Place, key: string): Option<Value> {
    var values := ValuesOf(opts, Belonging(opts, events, place), key);
    if values == [] then None else Some(Kept(opts, values))
  }

  function Lookup(t: Table, key: string): Option<Value> {
    if key in t then Some(t[key]) else None
  }

  /**
   For every file, every section it names and every key: what is stored under the key is
   the last value, or the single value or the list of all values, of the assignments to
   it whose most recent header names that section; likewise for the globals.
   */
  lemma ParsedValues(opts: Settings, contents: string, key: string)
    ensures var c, events := Parse(opts, contents), Lex(SplitLines(Fixed(opts, contents)));
            && Lookup(c.vars, key) == Expected(opts, events, Globals, key)
            && forall s :: Mentioned(opts, events, s) ==>
                 s in c.sections && Lookup(c.sections[s], key) == Expected(opts, events, InSection(s), key)
  {
    var c, events := Parse(opts, contents), Lex(SplitLines(Fixed(opts, contents)));
    ParsedTables(opts, contents);
    RepeatedNames(opts, Belonging(opts, events, Globals), key);
    forall s | Mentioned(opts, events, s)
      ensures s in c.sections && Lookup(c.sections[s], key) == Expected(opts, events, InSection(s), key)
    {
      RepeatedNames(opts, Belonging(opts, events, InSection(s)), key);
    }
  }

  // ----- the section of a header -----

  lemma OwnPlace(opts: Settings, header: string)
    ensures Opens(opts, header) == InSection(if Dotted(header) then header[1..] else header)
            <==> !(Dotted(header) && (!opts.readHidden || header == "."))
  {
    if Dotted(header) && header == "." { assert header[1..] == ""; }
  }

  /** The name up to the first bracket, if there is no line end in front of it. */
  lemma {:induction false} BracketFound(name: string)
    requires ']' !in name && '\n' !in name
    ensures ToBracket(name + "]") == Some(|name|)
  {
    if name != "" {
      assert (name + "]")[1..] == name[1..] + "]";
      BracketFound(name[1..]);
    }
  }

  /** A file that is one header. */
  lemma HeaderAlone(opts: Settings, header: string)
    requires ']' !in header && '\n' !in header && (opts.fixNewlines ==> '\r' !in header)
    ensures Parse(opts, "[" + header + "]") == Enter(EMPTY, Opens(opts, header))
  {
    var line := "[" + header + "]";
    OneLine(opts, line);
    BracketFound(header);
    assert line[1..] == header + "]" && line[1..][..|header|] == header;
    assert HeaderOf(line) == Some(header);
    Cons(line, []);
    assert Lex([line]) == [Section(header)];
    RunOne(opts, START, Section(header));
  }

  lemma OneLine(opts: Settings, line: string)
    requires line != "" && '\n' !in line && (opts.fixNewlines ==> '\r' !in line)
    ensures SplitLines(Fixed(opts, line)) == [line]
  {
    if opts.fixNewlines { FixIsIdentity(line); }
    LineLengthOf(line, "");
    Nothing(line);
    assert line[..|line|] == line && line[|line|..] == "";
  }

  /**
   A file with one header, whatever name is between the brackets, has just the section of
   that name, without its dot, unless the name has a dot and hidden data is not read or
   the name is just a dot.
   */
  lemma OpensOwnSection(opts: Settings, header: string)
    requires ']' !in header && '\n' !in header && (opts.fixNewlines ==> '\r' !in header)
    ensures var name := if Dotted(header) then header[1..] else header;
            Parse(opts, "[" + header + "]") == Config(map[], map[name := map[]])
            <==> !(Dotted(header) && (!opts.readHidden || header == "."))
  {
    HeaderAlone(opts, header);
    OwnPlace(opts, header);
    var name := if Dotted(header) then header[1..] else header;
    match Opens(opts, header)
    case InSection(s) =>
      assert Parse(opts, "[" + header + "]").sections == map[s := map[]];
      OnlyName(s, name);
    case _ => OnlyName(name, name);
  }

  lemma OnlyName(a: string, b: string)
    ensures var empty: Table := map[]; map[a := empty] == map[b := empty] <==> a == b
    ensures var empty: Table := map[]; map[a := empty] != map[]
  {
    var empty: Table := map[];
    assert a in map[a := empty];
  }

  /** The file `[.]`: with hidden data read, its one section is named 0. */
  lemma DotSection(opts: Settings)
    ensures Parse(opts, "[.]") == Config(map[], if opts.readHidden then map["0" := map[]] else map[])
  {
    assert "[" + "." + "]" == "[.]";
    HeaderAlone(opts, ".");
  }
}
