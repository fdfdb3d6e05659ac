/**
 Reading a configuration file: its lines, and the section headers and assignments
 they spell. The patterns are those of `parse_contents`.
 */
module ConfigLexer {
  import opened Options
  import opened PhpStrings

  // ----- lines -----

  /** Mac and DOS line ends become newlines: \r\n? is replaced. */
  function FixNewlines(s: string): string
    decreases |s|
  {
    if s == "" then ""
    else if s[0] == '\r' then "\n" + FixNewlines(if |s| > 1 && s[1] == '\n' then s[2..] else s[1..])
    else [s[0]] + FixNewlines(s[1..])
  }

  /** Length of the first line, counting its newline. */
  function LineLength(s: string): (n: nat)
    ensures n <= |s| && (s != "" ==> n > 0)
  {
    if s == "" then 0
    else if s[0] == '\n' then 1
    else 1 + LineLength(s[1..])
  }

  /** All lines with their newlines. */
  function SplitLines(s: string): seq<string>
    decreases |s|
  {
    if s == "" then [] else [s[..LineLength(s)]] + SplitLines(s[LineLength(s)..])
  }

  function Join(lines: seq<string>): string {
    if lines == [] then "" else lines[0] + Join(lines[1..])
  }

  // ----- character classes -----

  predicate Space(c: char) {
    c == ' ' || c == '\t' || c == '\n' || c == 12 as char || c == '\r'
  }

  predicate WordChar(c: char) {
    'a' <= c <= 'z' || 'A' <= c <= 'Z' || '0' <= c <= '9' || c == '_'
  }

  function Spaces(s: string): (n: nat)
    ensures n <= |s|
  {
    if s != "" && Space(s[0]) then 1 + Spaces(s[1..]) else 0
  }

  function WordChars(s: string): (n: nat)
    ensures n <= |s|
  {
    if s != "" && WordChar(s[0]) then 1 + WordChars(s[1..]) else 0
  }

  // ----- one line -----

  /** Position of the first ] on the line. */
  function ToBracket(s: string): (r: Option<nat>)
    ensures r.Some? ==> r.value < |s|
  {
    if s == "" || s[0] == '\n' then None
    else if s[0] == ']' then Some(0)
    else
      match ToBracket(s[1..])
      case None => None
      case Some(n) => Some(n + 1)
  }

  /** The pattern ^\[(.*?)\]. */
  function HeaderOf(line: string): Option<string> {
    if line == "" || line[0] != '[' then None
    else
      match ToBracket(line[1..])
      case None => None
      case Some(n) => Some(line[1..][..n])
  }

  datatype Assignment = Assignment(name: string, value: string)

  /** The pattern ^\s*(\.?\w+)\s*=\s*(.*), whose parts cannot overlap. */
  function AssignmentOf(line: string): Option<Assignment> {
    var s := line[Spaces(line)..];
    var dot := if s != "" && s[0] == '.' then 1 else 0;
    var word := WordChars(s[dot..]);
    if word == 0 then None
    else
      var name, t := s[..dot + word], s[dot + word..];
      var u := t[Spaces(t)..];
      if u == "" || u[0] != '=' then None
      else Some(Assignment(name, u[1..][Spaces(u[1..])..]))
  }

  const TRIPLE := "\"\"\""

  /** strpos of three double quotes. */
  function FindTriple(s: string): (r: Option<nat>)
    ensures r.Some? ==> r.value + 3 <= |s|
  {
    if |s| < 3 then None
    else if s[..3] == TRIPLE then Some(0)
    else
      match FindTriple(s[1..])
      case None => None
      case Some(n) => Some(n + 1)
  }

  /** A multiline value from behind its opening quotes, and how many further lines it takes. */
  function Collect(first: string, rest: seq<string>): (r: (string, nat))
    ensures r.1 <= |rest|
    decreases |rest|
  {
    match FindTriple(first)
    case Some(p) => (first[..p], 0)
    case None =>
      if rest == [] then (first, 0)
      else
        var (more, n) := Collect(rest[0], rest[1..]);
        (first + more, n + 1)
  }

  /** A value in matching quotes loses them: the pattern ^(['"])(.*)\1$. */
  function Dequote(v: string): string {
    if |v| >= 2 && (v[0] == '\'' || v[0] == '"') && v[|v| - 1] == v[0] && '\n' !in v[1..|v| - 1]
    then v[1..|v| - 1] else v
  }

  // ----- the whole file -----

  /** What a file says, in order. A name keeps its leading dot; `plain` values may be read as booleans. */
  datatype Event =
    | Section(name: string)
    | Setting(name: string, value: string, plain: bool)

  predicate StartsTriple(v: string) {
    |v| >= 3 && v[..3] == TRIPLE
  }

  /** The event at the first line, if any, and how many lines it takes. */
  function First(lines: seq<string>): (r: (Option<Event>, nat))
    requires lines != []
    ensures 1 <= r.1 <= |lines|
  {
    var line := lines[0];
    if line == "" || line == "0" then (None, 1)
    else
      match HeaderOf(line)
      case Some(name) => (Some(Section(name)), 1)
      case None =>
        match AssignmentOf(line)
        case None => (None, 1)
        case Some(Assignment(name, value)) =>
          if StartsTriple(value) then
            var (text, n) := Collect(value[3..], lines[1..]);
            (Some(Setting(name, text, false)), 1 + n)
          else (Some(Setting(name, Dequote(RTrim(value)), true)), 1)
  }

  function Optional(e: Option<Event>): seq<Event> {
    match e case None => [] case Some(event) => [event]
  }

  function Lex(lines: seq<string>): seq<Event>
    decreases |lines|
  {
    if lines == [] then []
    else Optional(First(lines).0) + Lex(lines[First(lines).1..])
  }
}
