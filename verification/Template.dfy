/**
 Templates: the environment they read, the flat list of tags the compiler is
 given, and the trees a template author has in mind.
 */
module Template {
  import opened Options
  import SectionLoop

  // ----- run-time environment -----

  datatype Value = Null | Scalar(text: string) | Array(entries: seq<Entry>)
  datatype Entry = Entry(key: string, value: Value)

  /** Loop position of a section, and the properties refreshed at the top of each pass. */
  datatype Cursor = Cursor(index: int, iteration: int)
  datatype Pass = Pass(rownum: int, indexPrev: int, indexNext: int, first: bool, last: bool)
  datatype SectionRecord = SectionRecord(props: SectionLoop.Props, cursor: Option<Cursor>, pass: Option<Pass>)

  /** Properties of a named foreach. */
  datatype Counter = Counter(total: int, iteration: int)

  /** Template variables, `$this->_sections` and `$this->_foreach`. */
  datatype Env = Env(
    vars: map<string, Value>,
    sections: map<string, SectionRecord>,
    loops: map<string, Counter>)

  /** Expressions, already compiled: arbitrary functions of the environment. */
  type Condition = Env -> bool
  type Expression = Env -> Value
  type Printer = Env -> string
  type SectionArgs = Env -> SectionLoop.Attributes

  /** A plugin call may change template variables and prints something. */
  datatype Effect = Effect(vars: map<string, Value>, output: string)
  type Action = Env -> Effect

  datatype ForeachArgs = ForeachArgs(from: Expression, item: string, key: Option<string>, name: Option<string>)

  // ----- tags -----

  /** One template tag. Text between tags and `{$variable}` tags are Output. */
  datatype Tag =
    | Output(text: Printer)
    | Function(plugin: string, action: Action)
    | If(cond: Condition) | ElseIf(cond: Condition) | Else | EndIf
    | Section(name: string, args: SectionArgs) | SectionElse | EndSection
    | Foreach(each: ForeachArgs) | ForeachElse | EndForeach
    | Strip | EndStrip
    | BlockOpen(plugin: string) | BlockClose(plugin: string)

  // ----- trees -----

  datatype Block = Done | Then(node: Node, rest: Block)

  datatype Node =
    | Print(text: Printer)
    | Call(plugin: string, action: Action)
    | Choice(cond: Condition, body: Block, tail: Tail)
    | SectionNode(name: string, args: SectionArgs, body: Block, elses: Elses)
    | ForeachNode(each: ForeachArgs, body: Block, elses: Elses)
    | StripNode(body: Block)
    | PluginNode(plugin: string, body: Block)

  /** What follows the first branch of an `{if}`: elseifs, then at most one else. */
  datatype Tail = NoTail | ElseIfTail(cond: Condition, body: Block, tail: Tail) | ElseTail(body: Block)

  /** Any number of else bodies: the tag stack does not limit them. */
  datatype Elses = NoElse | ElseBody(body: Block, more: Elses)

  // ----- the tags of a tree, in order -----

  function Flatten(b: Block): seq<Tag>
    decreases b, 0
  {
    match b
    case Done => []
    case Then(n, rest) => FlattenNode(n) + Flatten(rest)
  }

  function FlattenNode(n: Node): seq<Tag>
    decreases n, 1
  {
    OpenText(n) + CloseText(n)
  }

  /** The tags of a node up to its closing tag. */
  function OpenText(n: Node): seq<Tag>
    decreases n, 0
  {
    match n
    case Print(text) => [Output(text)]
    case Call(p, action) => [Function(p, action)]
    case Choice(c, body, tail) => [If(c)] + Flatten(body) + FlattenTail(tail)
    case SectionNode(name, args, body, elses) => [Section(name, args)] + Flatten(body)
      + FlattenElses(SectionElse, elses)
    case ForeachNode(each, body, elses) => [Foreach(each)] + Flatten(body) + FlattenElses(ForeachElse, elses)
    case StripNode(body) => [Strip] + Flatten(body)
    case PluginNode(p, body) => [BlockOpen(p)] + Flatten(body)
  }

  function CloseText(n: Node): seq<Tag> {
    match n
    case Print(_) => []
    case Call(_, _) => []
    case Choice(_, _, _) => [EndIf]
    case SectionNode(_, _, _, _) => [EndSection]
    case ForeachNode(_, _, _) => [EndForeach]
    case StripNode(_) => [EndStrip]
    case PluginNode(p, _) => [BlockClose(p)]
  }

  function FlattenTail(t: Tail): seq<Tag>
    decreases t, 0
  {
    match t
    case NoTail => []
    case ElseIfTail(c, body, tail) => [ElseIf(c)] + Flatten(body) + FlattenTail(tail)
    case ElseTail(body) => [Else] + Flatten(body)
  }

  function FlattenElses(tag: Tag, e: Elses): seq<Tag>
    decreases e, 0
  {
    match e
    case NoElse => []
    case ElseBody(body, more) => [tag] + Flatten(body) + FlattenElses(tag, more)
  }

  function Append(b: Block, n: Node): Block {
    match b
    case Done => Then(n, Done)
    case Then(m, rest) => Then(m, Append(rest, n))
  }

  lemma {:induction false} FlattenAppend(b: Block, n: Node)
    ensures Flatten(Append(b, n)) == Flatten(b) + FlattenNode(n)
  {
    match b
    case Done =>
    case Then(m, rest) => FlattenAppend(rest, n);
  }
}
