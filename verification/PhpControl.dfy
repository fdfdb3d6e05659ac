/**
 What PHP makes of the emitted tokens: the alternative-syntax grammar that nests
 them, and the execution of the nested program.
 */
module PhpControl {
  import opened Options
  import opened Template
  import opened PhpTokens
  import SectionLoop

  // ----- nesting -----

  datatype Php = End | Then(stmt: Stmt, rest: Php)

  datatype Stmt =
    | Basic(simple: Simple)
    | IfElse(test: Test, thn: Php, els: Php)
    | ForSection(section: string, body: Php)
    | ForEntries(each: ForeachArgs, body: Php)
    | PluginBlock(plugin: string, body: Php)

  /** Tokens that end a block of statements. */
  predicate IsTerminator(t: Token) {
    t.OpenElseIf? || t.OpenElse? || t.CloseIf? || t.CloseFor? || t.CloseForeach? || t.CloseBlock?
  }

  /** Statements up to the next terminator, and the tokens from there on. */
  function ParseBlock(tokens: seq<Token>): (r: Option<(Php, seq<Token>)>)
    ensures r.Some? ==> |r.value.1| <= |tokens|
    decreases |tokens|, 1
  {
    if tokens == [] || IsTerminator(tokens[0]) then Some((End, tokens))
    else
      match ParseStmt(tokens)
      case None => None
      case Some((stmt, after)) =>
        match ParseBlock(after)
        case None => None
        case Some((rest, left)) => Some((Php.Then(stmt, rest), left))
  }

  function ParseStmt(tokens: seq<Token>): (r: Option<(Stmt, seq<Token>)>)
    requires tokens != [] && !IsTerminator(tokens[0])
    ensures r.Some? ==> |r.value.1| < |tokens|
    decreases |tokens|, 0
  {
    match tokens[0]
    case Do(simple) => Some((Basic(simple), tokens[1..]))
    case OpenIf(test) =>
      (match ParseBlock(tokens[1..])
       case None => None
       case Some((thn, after)) =>
         match ParseElse(after)
         case None => None
         case Some((els, left)) => Some((IfElse(test, thn, els), left)))
    case OpenFor(name) =>
      (match ParseBlock(tokens[1..])
       case None => None
       case Some((body, after)) =>
         if after != [] && after[0] == CloseFor then Some((ForSection(name, body), after[1..])) else None)
    case OpenForeach(each) =>
      (match ParseBlock(tokens[1..])
       case None => None
       case Some((body, after)) =>
         if after != [] && after[0] == CloseForeach then Some((ForEntries(each, body), after[1..])) else None)
    case OpenBlock(p) =>
      (match ParseBlock(tokens[1..])
       case None => None
       case Some((body, after)) =>
         if after != [] && after[0] == CloseBlock(p) then Some((PluginBlock(p, body), after[1..])) else None)
  }

  /** The rest of an `if:` after its first branch, through `endif`. */
  function ParseElse(tokens: seq<Token>): (r: Option<(Php, seq<Token>)>)
    ensures r.Some? ==> |r.value.1| < |tokens|
    decreases |tokens|, 0
  {
    if tokens == [] then None
    else
      match tokens[0]
      case CloseIf => Some((End, tokens[1..]))
      case OpenElse =>
        (match ParseBlock(tokens[1..])
         case None => None
         case Some((els, after)) => if after != [] && after[0] == CloseIf then Some((els, after[1..])) else None)
      case OpenElseIf(c) =>
        (match ParseBlock(tokens[1..])
         case None => None
         case Some((thn, after)) =>
           match ParseElse(after)
           case None => None
           case Some((els, left)) => Some((Php.Then(IfElse(Holds(c), thn, els), End), left)))
      case _ => None
  }

  /** A whole program is properly nested if parsing uses up all of it. */
  function Parse(tokens: seq<Token>): Option<Php> {
    match ParseBlock(tokens)
    case None => None
    case Some((program, left)) => if left == [] then Some(program) else None
  }

  // ----- execution -----

  /** The environment, and the scratch variable `$_from`. */
  datatype PhpState = PhpState(env: Env, from: Option<seq<Entry>>)
  datatype Outcome = Outcome(state: PhpState, output: string)

  /** `settype($_from, 'array')`. */
  function AsArray(v: Value): seq<Entry> {
    match v
    case Null => []
    case Scalar(_) => [Entry("0", v)]
    case Array(entries) => entries
  }

  function SetSection(env: Env, name: string, rec: SectionRecord): Env {
    env.(sections := env.sections[name := rec])
  }

  function SetCounter(env: Env, name: Option<string>, c: Counter): Env {
    match name
    case None => env
    case Some(n) => env.(loops := env.loops[n := c])
  }

  /** `unset($this->_sections[name])`. */
  function Unset(env: Env, name: string): Env {
    env.(sections := env.sections - {name})
  }

  function BindEntry(env: Env, each: ForeachArgs, e: Entry): Env {
    var withItem := env.vars[each.item := e.value];
    env.(vars := if each.key.None? then withItem else withItem[each.key.value := Scalar(e.key)])
  }

  function ExecSimple(s: Simple, st: PhpState): Outcome {
    match s
    case Echo(text) => Outcome(st, text(st.env))
    case Run(action) =>
      var effect := action(st.env);
      Outcome(st.(env := st.env.(vars := effect.vars)), effect.output)
    case SectionSetup(name, args) =>
      var env := Unset(st.env, name);
      Outcome(st.(env := SetSection(env, name, SectionRecord(SectionLoop.Setup(args(env)), None, None))), "")
    case ForeachSetup(each) =>
      var from := AsArray(each.from(st.env));
      Outcome(PhpState(SetCounter(st.env, each.name, Counter(|from|, 0)), Some(from)), "")
    case UnsetFrom => Outcome(st.(from := None), "")
  }

  function ExecTest(t: Test, st: PhpState): bool {
    match t
    case Holds(c) => c(st.env)
    case Shown(name) => name in st.env.sections && st.env.sections[name].props.show
    case NonEmpty(None) => st.from.Some? && |st.from.value| > 0
    case NonEmpty(Some(n)) => n in st.env.loops && st.env.loops[n].total > 0
  }

  /** The assignments at the top of each pass of an emitted `for`. */
  function BeginPass(rec: SectionRecord): SectionRecord
    requires rec.cursor.Some?
  {
    var Cursor(index, iteration) := rec.cursor.value;
    rec.(pass := Some(Pass(
      iteration, index - rec.props.step, index + rec.props.step,
      iteration == 1, iteration == rec.props.total)))
  }

  /** The increment of an emitted `for`. What is not set counts as 0. */
  function Advance(rec: SectionRecord): SectionRecord {
    var Cursor(index, iteration) := if rec.cursor.None? then Cursor(0, 0) else rec.cursor.value;
    rec.(cursor := Some(Cursor(index + rec.props.step, iteration + 1)))
  }

  /**
   Execution. A `for` gives up with None after `fuel` passes, since nothing in
   PHP bounds it; everything else is bounded by the program or the array.
   */
  function Exec(p: Php, st: PhpState, fuel: nat): Option<Outcome>
    decreases p, 0, 0
  {
    match p
    case End => Some(Outcome(st, ""))
    case Then(stmt, rest) =>
      match ExecStmt(stmt, st, fuel)
      case None => None
      case Some(Outcome(st1, out1)) =>
        match Exec(rest, st1, fuel)
        case None => None
        case Some(Outcome(st2, out2)) => Some(Outcome(st2, out1 + out2))
  }

  function ExecStmt(s: Stmt, st: PhpState, fuel: nat): Option<Outcome>
    decreases s, 0, 0
  {
    match s
    case Basic(simple) => Some(ExecSimple(simple, st))
    case IfElse(test, thn, els) => if ExecTest(test, st) then Exec(thn, st, fuel) else Exec(els, st, fuel)
    case ForSection(name, body) =>
      if name !in st.env.sections then None
      else
        var rec := st.env.sections[name];
        var begun := rec.(cursor := Some(Cursor(rec.props.start, 1)));
        ExecFor(name, body, st.(env := SetSection(st.env, name, begun)), fuel, fuel)
    case ForEntries(each, body) =>
      if st.from.None? then None else ExecForeach(each, body, st.from.value, st, fuel)
    case PluginBlock(_, _) => None
  }

  function ExecFor(name: string, body: Php, st: PhpState, fuel: nat, passes: nat): Option<Outcome>
    decreases body, 1, passes
  {
    if name !in st.env.sections || st.env.sections[name].cursor.None? then None
    else
      var rec := st.env.sections[name];
      if !(rec.cursor.value.iteration <= rec.props.total) then Some(Outcome(st, ""))
      else if passes == 0 then None
      else
        match Exec(body, st.(env := SetSection(st.env, name, BeginPass(rec))), fuel)
        case None => None
        case Some(Outcome(st1, out1)) =>
          if name !in st1.env.sections then None
          else
            var next := st1.(env := SetSection(st1.env, name, Advance(st1.env.sections[name])));
            match ExecFor(name, body, next, fuel, passes - 1)
            case None => None
            case Some(Outcome(st2, out2)) => Some(Outcome(st2, out1 + out2))
  }

  /** `foreach` walks the array `$_from` held when the loop began. */
  function ExecForeach(each: ForeachArgs, body: Php, entries: seq<Entry>, st: PhpState, fuel: nat): Option<Outcome>
    decreases body, 1, |entries|
  {
    if entries == [] then Some(Outcome(st, ""))
    else
      var bound := BindEntry(st.env, each, entries[0]);
      if each.name.Some? && each.name.value !in bound.loops then None
      else
        var counted :=
          if each.name.None? then bound
          else
            var c := bound.loops[each.name.value];
            SetCounter(bound, each.name, c.(iteration := c.iteration + 1));
        match Exec(body, st.(env := counted), fuel)
        case None => None
        case Some(Outcome(st1, out1)) =>
          match ExecForeach(each, body, entries[1..], st1, fuel)
          case None => None
          case Some(Outcome(st2, out2)) => Some(Outcome(st2, out1 + out2))
  }

  /** The program ends in this state, having printed `output`, with `enough` passes or more. */
  ghost predicate EndsIn(p: Php, st: PhpState, enough: nat, end: PhpState, output: string) {
    forall fuel: nat :: fuel >= enough ==> Exec(p, st, fuel) == Some(Outcome(end, output))
  }

  /** The program prints `output` and leaves `env`, whatever the amount of fuel beyond some point. */
  ghost predicate Yields(p: Php, st: PhpState, env: Env, output: string) {
    exists enough: nat, end: PhpState :: EndsIn(p, st, enough, end, output) && end.env == env
  }
}
