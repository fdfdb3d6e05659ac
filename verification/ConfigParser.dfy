/**
 `Config_File`: the parser with its reference to the section being filled. The
 reference may be any of the tables of the result, or a table of its own that is
 thrown away; what it is stored through is what the fold of ConfigStore says.
 */
module ConfigParser {
  import opened Options
  import opened PhpStrings
  import opened ConfigLexer
  import opened ConfigStore

  /** A container of variables, which several references may share. */
  class VarTable {
    var vars: Table

    constructor ()
      ensures vars == map[]
    {
      vars := map[];
    }
  }

  /** The result under construction, and the reference `$vars` into it. */
  class ConfigData {
    const globals: VarTable
    var sections: map<string, VarTable>
    var current: VarTable
    ghost var place: Place

    /** Every table that is part of the result, or that the reference is to. */
    ghost function Tables(): (ts: set<VarTable>)
      reads this
      ensures globals in ts && current in ts && forall s :: s in sections ==> sections[s] in ts
    {
      {globals, current} + set s | s in sections :: sections[s]
    }

    /** The tables are distinct objects, and the reference is to the table of `place`. */
    ghost predicate Valid()
      reads this
    {
      && (forall s :: s in sections ==> sections[s] != globals)
      && (forall s, t :: s in sections && t in sections && s != t ==> sections[s] != sections[t])
      && match place
         case Globals => current == globals
         case InSection(s) => s in sections && current == sections[s]
         case Nowhere => current != globals && forall s :: s in sections ==> sections[s] != current
    }

    ghost function Contents(): Config
      reads this, Tables()
    {
      Config(globals.vars, map s | s in sections :: sections[s].vars)
    }

    ghost function Now(): Reading
      reads this, Tables()
    {
      Reading(Contents(), place)
    }

    constructor ()
      ensures Valid() && Now() == START && fresh(Tables())
    {
      var table := new VarTable();
      globals, current, sections := table, table, map[];
      place := Globals;
    }

    /** `$vars` is unset and set to an array of its own: what is stored is lost. */
    method Detach()
      requires Valid()
      modifies this`current, this`place
      ensures Valid() && fresh(current)
      ensures sections == old(sections) && Now() == Reading(old(Contents()), Nowhere)
    {
      var table := new VarTable();
      current := table;
      place := Nowhere;
      assert Contents().sections == old(Contents().sections);
    }

    /** A new section with an empty table. */
    method AddSection(name: string)
      requires Valid() && name !in sections
      modifies this`sections
      ensures Valid() && fresh(Tables() - old(Tables())) && name in sections
      ensures Contents() == SetTable(old(Contents()), InSection(name), map[])
    {
      var table := new VarTable();
      sections := sections[name := table];
      assert Contents().sections == old(Contents().sections)[name := map[]];
    }

    /** The section is created if it is new, and the reference is set to its table. */
    method Attach(name: string)
      requires Valid()
      modifies this`sections, this`current, this`place
      ensures Valid() && fresh(Tables() - old(Tables()))
      ensures Now() == Reading(Enter(old(Contents()), InSection(name)), InSection(name))
    {
      if name !in sections {
        AddSection(name);
      }
      PointTo(name);
    }

    /** The reference is set to the table of a section there is. */
    method PointTo(name: string)
      requires Valid() && name in sections
      modifies this`current, this`place
      ensures Valid() && Tables() <= old(Tables())
      ensures Now() == Reading(old(Contents()), InSection(name))
    {
      current := sections[name];
      place := InSection(name);
    }

    /** A header: the reference moves to the section's table, or to one that is dropped. */
    method OpenSection(opts: Settings, header: string)
      requires Valid()
      modifies this`sections, this`current, this`place
      ensures Valid() && fresh(Tables() - old(Tables()))
      ensures Now() == Step(opts, old(Now()), Section(header))
    {
      if header != "" && header[0] == '.' {
        if opts.readHidden {
          Attach(if header == "." then "0" else header[1..]);
        } else {
          Detach();
        }
      } else {
        Attach(header);
      }
    }

    /** Storing through the reference changes the table of `place` and no other. */
    twostate lemma OnlyCurrent()
      requires old(Valid()) && unchanged(this)
      requires globals != current ==> globals.vars == old(globals.vars)
      requires forall s :: s in sections && sections[s] != current ==> sections[s].vars == old(sections[s].vars)
      ensures Valid() && Now() == Reading(SetTable(old(Contents()), place, current.vars), place)
    {
      assert forall s :: s in sections && sections[s] != current
                    ==> Contents().sections[s] == old(Contents().sections[s]);
      match place
      case Globals => assert Contents().sections == old(Contents().sections);
      case Nowhere => assert Contents().sections == old(Contents().sections);
      case InSection(n) => assert Contents().sections == old(Contents().sections)[n := current.vars];
    }

    /** An assignment through the reference. */
    method Assign(opts: Settings, name: string, value: string, plain: bool)
      requires Valid()
      modifies current
      ensures Valid() && Now() == Step(opts, old(Now()), Setting(name, value, plain))
    {
      assert place != Nowhere ==> current.vars == TableAt(Contents(), place);
      SetConfigVar(opts, current, name, value, plain && opts.booleanize);
      OnlyCurrent();
    }

    /** Acts on what a line says, if anything, which turns reading `r` into `after`. */
    method Take(opts: Settings, event: Option<Event>, ghost r: Reading, ghost after: Reading)
      requires Valid() && r == Now() && after == Taken(opts, r, event)
      modifies this`sections, this`current, this`place, current
      ensures Valid() && fresh(Tables() - old(Tables()))
      ensures Now() == after
    {
      match event
      case None =>
      case Some(Section(header)) => OpenSection(opts, header);
      case Some(Setting(name, value, plain)) => Assign(opts, name, value, plain);
    }

    /** The body of the loop over the lines. */
    method TakeNext(opts: Settings, lines: seq<string>, i: nat, ghost r: Reading, ghost known: set<VarTable>)
      returns (newLines: seq<string>, next: nat, ghost after: Reading, ghost tables: set<VarTable>)
      requires Valid() && r == Now() && i < |lines| && Tables() <= known
      modifies this`sections, this`current, this`place, current
      ensures Valid() && Tables() <= tables && fresh(tables - known) && Now() == after
      ensures |newLines| == |lines| && next > i
      ensures Run(opts, after, Lex(Rest(newLines, next))) == Run(opts, r, Lex(Rest(lines, i)))
    {
      var event;
      event, newLines, next, after := NextEvent(opts, lines, i, r);
      Take(opts, event, r, after);
      tables := known + Tables();
    }
  }

  /** What a reading becomes when its next event, if any, has been taken. */
  function Taken(opts: Settings, r: Reading, e: Option<Event>): Reading {
    match e
    case None => r
    case Some(event) => Step(opts, r, event)
  }

  /** `_set_config_var` on the container it is given. */
  method SetConfigVar(opts: Settings, container: VarTable, name: string, value: string, booleanize: bool)
    modifies container
    ensures container.vars == Store(opts.(booleanize := true), old(container.vars), name, value, booleanize)
  {
    var key := name;
    if name != "" && name[0] == '.' {
      if !opts.readHidden { return; }
      key := name[1..];
    }
    if !ValidName(key) { return; }
    var v := Text(value);
    if booleanize { v := Booleanize(value); }
    if key !in container.vars || opts.overwrite {
      container.vars := container.vars[key := One(v)];
    } else {
      container.vars := container.vars[key := Many(AsList(container.vars[key]) + [v])];
    }
  }

  // ----- the loops -----

  /** The lines from i on; the loop counter may be one past the end after an unclosed value. */
  function Rest(lines: seq<string>, i: nat): seq<string> {
    if i <= |lines| then lines[i..] else []
  }

  /** Line i has no closing quotes, so the value goes on with the next one. */
  lemma CollectOn(lines: seq<string>, i: nat, value: string)
    requires i < |lines| && FindTriple(lines[i]).None?
    ensures var (text, n) := Collect(lines[i], lines[i + 1..]);
            if i + 1 == |lines| then value + text == value + lines[i] && n == 0
            else
              var (more, k) := Collect(lines[i + 1], lines[i + 2..]);
              value + text == (value + lines[i]) + more && n == k + 1
  {
    if i + 1 < |lines| {
      SliceOfSlice(lines, i + 1, 1);
      Assoc(value, lines[i], Collect(lines[i + 1], lines[i + 2..]).0);
    }
  }

  /** The inner loop: gathers a multiline value whose first line, without its opening quotes, is at `from`. */
  method CollectLines(lines: seq<string>, from: nat) returns (value: string, i: nat)
    requires from < |lines|
    ensures from <= i <= |lines|
    ensures var (text, n) := Collect(lines[from], lines[from + 1..]);
            value == text && Rest(lines, i + 1) == lines[from + 1 + n..]
  {
    value, i := "", from;
    ghost var goal := Collect(lines[from], lines[from + 1..]);
    assert "" + goal.0 == goal.0;
    while i < |lines|
      invariant from <= i <= |lines|
      invariant i < |lines| ==>
                  var (text, n) := Collect(lines[i], lines[i + 1..]);
                  goal == (value + text, i - from + n)
      invariant i == |lines| ==> goal == (value, |lines| - from - 1)
      decreases |lines| - i
    {
      match FindTriple(lines[i])
      case None =>
        CollectOn(lines, i, value);
        value := value + lines[i];
        i := i + 1;
      case Some(pos) =>
        /* the closing quotes */
        value := value + lines[i][..pos];
        break;
    }
  }

  lemma LexFirst(lines: seq<string>, e: Option<Event>, n: nat, opts: Settings, r: Reading)
    requires lines != [] && First(lines) == (e, n)
    ensures Run(opts, r, Lex(lines)) == Run(opts, Taken(opts, r, e), Lex(lines[n..]))
  {
    match e
    case None => assert [] + Lex(lines[n..]) == Lex(lines[n..]);
    case Some(event) => assert ([event] + Lex(lines[n..]))[1..] == Lex(lines[n..]);
  }

  /** The value of an assignment, and the line list and position after it. */
  method ReadValue(lines: seq<string>, i: nat, name: string, text: string)
    returns (newLines: seq<string>, last: nat, value: string, plain: bool)
    requires i < |lines| && HeaderOf(lines[i]) == None && lines[i] != "" && lines[i] != "0"
    requires AssignmentOf(lines[i]) == Some(Assignment(name, text))
    ensures |newLines| == |lines| && last >= i
    ensures var (e, n) := First(lines[i..]);
            e == Some(Setting(name, value, plain)) && Rest(newLines, last + 1) == lines[i..][n..]
  {
    assert lines[i..][0] == lines[i] && lines[i..][1..] == lines[i + 1..];
    newLines, last := lines, i;
    if StartsTriple(text) {
      newLines := lines[i := text[3..]];
      assert newLines[i + 1..] == lines[i + 1..];
      value, last := CollectLines(newLines, i);
      plain := false;
      ghost var n := Collect(text[3..], lines[i + 1..]).1;
      assert lines[i..][1 + n..] == lines[i + 1 + n..];
      assert newLines[i + 1 + n..] == lines[i + 1 + n..];
    } else {
      value, plain := Dequote(RTrim(text)), true;
    }
  }

  /** What the line at i says, and the line list and position after it. */
  method ReadEvent(lines: seq<string>, i: nat) returns (event: Option<Event>, newLines: seq<string>, next: nat)
    requires i < |lines|
    ensures |newLines| == |lines| && next > i
    ensures var (e, n) := First(lines[i..]);
            e == event && Rest(newLines, next) == lines[i..][n..]
  {
    var line := lines[i];
    event, newLines, next := None, lines, i + 1;
    assert lines[i..][0] == line && lines[i..][1..] == lines[i + 1..];
    if line == "" || line == "0" {
      return;
    }
    var header := HeaderOf(line);
    if header.Some? {
      event := Some(Section(header.value));
      return;
    }
    var assignment := AssignmentOf(line);
    if assignment.Some? {
      var Assignment(name, text) := assignment.value;
      var last, value, plain;
      newLines, last, value, plain := ReadValue(lines, i, name, text);
      event := Some(Setting(name, value, plain));
      next := last + 1;
    }
  }

  /** Taking the next event does not change what the whole file comes to. */
  lemma TakeFirst(opts: Settings, lines: seq<string>, event: Option<Event>, rest: seq<string>, r: Reading)
    requires lines != [] && First(lines).0 == event && rest == lines[First(lines).1..]
    ensures Run(opts, r, Lex(lines)) == Run(opts, Taken(opts, r, event), Lex(rest))
  {
    LexFirst(lines, event, First(lines).1, opts, r);
  }

  /** ReadEvent, with what the event makes of a reading. */
  method NextEvent(opts: Settings, lines: seq<string>, i: nat, ghost r: Reading)
    returns (event: Option<Event>, newLines: seq<string>, next: nat, ghost after: Reading)
    requires i < |lines|
    ensures |newLines| == |lines| && next > i
    ensures after == Taken(opts, r, event)
    ensures Run(opts, after, Lex(Rest(newLines, next))) == Run(opts, r, Lex(Rest(lines, i)))
  {
    event, newLines, next := ReadEvent(lines, i);
    after := Taken(opts, r, event);
    TakeFirst(opts, lines[i..], event, Rest(newLines, next), r);
  }

  /** The loop over the lines, which overwrites the line a multiline value begins on. Every line is consumed once. */
  method ReadLines(opts: Settings, all: seq<string>) returns (data: ConfigData)
    ensures fresh(data) && data.Valid() && data.Contents() == ParseLines(opts, all)
  {
    data := new ConfigData();
    var lines := all;
    ghost var r, known := START, data.Tables();
    ghost var goal := Run(opts, r, Lex(lines));
    assert lines[0..] == lines;
    var i := 0;
    while i < |lines|
      invariant fresh(data) && data.Valid() && data.Tables() <= known && fresh(known) && r == data.Now()
      invariant Run(opts, r, Lex(Rest(lines, i))) == goal
      decreases |lines| - i
    {
      lines, i, r, known := data.TakeNext(opts, lines, i, r, known);
    }
  }

  /** `parse_contents`: line ends are fixed if that is wanted, and the lines are read. */
  method ParseContents(opts: Settings, contents: string) returns (data: ConfigData)
    ensures fresh(data) && data.Valid() && data.Contents() == Parse(opts, contents)
  {
    data := ReadLines(opts, SplitLines(Fixed(opts, contents)));
  }
}
