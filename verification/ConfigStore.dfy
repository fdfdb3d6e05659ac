/**
 Storing what a configuration file says: one variable, one event, a whole file.
 A file is folded from left to right over the place its next assignment goes to.
 */
module ConfigStore {
  import opened ConfigLexer

  /** The options of `Config_File`. */
  datatype Settings = Settings(overwrite: bool, booleanize: bool, readHidden: bool, fixNewlines: bool)

  datatype Scalar = Text(s: string) | Truth(b: bool)
  datatype Value = One(v: Scalar) | Many(vs: seq<Scalar>)

  type Table = map<string, Value>

  datatype Config = Config(vars: Table, sections: map<string, Table>)

  // ----- one variable -----

  predicate Dotted(name: string) {
    name != "" && name[0] == '.'
  }

  predicate ValidName(name: string) {
    name != "" && WordChar(name[0]) && !('0' <= name[0] <= '9')
    && forall i :: 0 <= i < |name| ==> WordChar(name[i])
  }

  function Lower(c: char): char {
    if 'A' <= c <= 'Z' then (c as int + 32) as char else c
  }

  predicate Same(s: string, word: string) {
    |s| == |word| && forall i :: 0 <= i < |s| ==> Lower(s[i]) == word[i]
  }

  function Booleanize(v: string): Scalar {
    if Same(v, "on") || Same(v, "true") || Same(v, "yes") then Truth(true)
    else if Same(v, "off") || Same(v, "false") || Same(v, "no") then Truth(false)
    else Text(v)
  }

  /** settype to array. */
  function AsList(v: Value): seq<Scalar> {
    match v
    case One(s) => [s]
    case Many(vs) => vs
  }

  function ScalarOf(opts: Settings, value: string, plain: bool): Scalar {
    if plain && opts.booleanize then Booleanize(value) else Text(value)
  }

  /** `_set_config_var`; a bad name is only warned about. */
  function Store(opts: Settings, t: Table, name: string, value: string, plain: bool): Table {
    if Dotted(name) && !opts.readHidden then t
    else
      var key := if Dotted(name) then name[1..] else name;
      if !ValidName(key) then t
      else
        var v := ScalarOf(opts, value, plain);
        if key !in t || opts.overwrite then t[key := One(v)] else t[key := Many(AsList(t[key]) + [v])]
  }

  // ----- one event -----

  /** Where assignments go: the globals, a section, or nowhere while a hidden section is skipped. */
  datatype Place = Globals | InSection(name: string) | Nowhere

  datatype Reading = Reading(config: Config, place: Place)

  const EMPTY := Config(map[], map[])

  /** The place a header opens. PHP's substr(".", 1) is false, which as an array key is 0. */
  function Opens(opts: Settings, header: string): Place {
    if !Dotted(header) then InSection(header)
    else if !opts.readHidden then Nowhere
    else InSection(if header == "." then "0" else header[1..])
  }

  function TableAt(c: Config, place: Place): Table {
    match place
    case Globals => c.vars
    case InSection(s) => if s in c.sections then c.sections[s] else map[]
    case Nowhere => map[]
  }

  function SetTable(c: Config, place: Place, t: Table): Config {
    match place
    case Globals => c.(vars := t)
    case InSection(s) => c.(sections := c.sections[s := t])
    case Nowhere => c
  }

  /** A new section starts empty, a known one is reopened. */
  function Enter(c: Config, place: Place): Config {
    if place.InSection? && place.name !in c.sections then SetTable(c, place, map[]) else c
  }

  function Step(opts: Settings, r: Reading, e: Event): Reading {
    match e
    case Section(header) =>
      var place := Opens(opts, header);
      Reading(Enter(r.config, place), place)
    case Setting(name, value, plain) =>
      r.(config := SetTable(r.config, r.place, Store(opts, TableAt(r.config, r.place), name, value, plain)))
  }

  function Run(opts: Settings, r: Reading, events: seq<Event>): Reading
    decreases |events|
  {
    if events == [] then r else Run(opts, Step(opts, r, events[0]), events[1..])
  }

  const START := Reading(EMPTY, Globals)

  function ParseLines(opts: Settings, lines: seq<string>): Config {
    Run(opts, START, Lex(lines)).config
  }

  /** The contents as `parse_contents` splits them. */
  function Fixed(opts: Settings, contents: string): string {
    if opts.fixNewlines then FixNewlines(contents) else contents
  }

  /** The configuration a file's contents stand for. */
  function Parse(opts: Settings, contents: string): Config {
    ParseLines(opts, SplitLines(Fixed(opts, contents)))
  }

  lemma {:induction false} RunAppend(opts: Settings, r: Reading, a: seq<Event>, b: seq<Event>)
    ensures Run(opts, r, a + b) == Run(opts, Run(opts, r, a), b)
    decreases |a|
  {
    if a == [] {
      assert a + b == b;
    } else {
      assert (a + b)[0] == a[0] && (a + b)[1..] == a[1..] + b;
      RunAppend(opts, Step(opts, r, a[0]), a[1..], b);
    }
  }
}
