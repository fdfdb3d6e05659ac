/**
 The code the tag compiler emits for the text of a tree, and how PHP nests it.
 */
module Emission {
  import opened Options
  import opened Template
  import opened PhpTokens
  import opened TagMachine
  import opened TagStack
  import opened PhpControl

  // ----- the code of a tree -----

  function Emit(b: Block): seq<Token>
    decreases b, 0
  {
    match b
    case Done => []
    case Then(n, rest) => EmitNode(n) + Emit(rest)
  }

  function EmitNode(n: Node): seq<Token>
    decreases n, 1
  {
    EmitOpen(n) + EmitClose(n)
  }

  function EmitOpen(n: Node): seq<Token>
    decreases n, 0
  {
    match n
    case Print(text) => [Do(Echo(text))]
    case Call(_, action) => [Do(Run(action))]
    case Choice(c, body, tail) => [OpenIf(Holds(c))] + Emit(body) + EmitTail(tail)
    case SectionNode(name, args, body, elses) =>
      [Do(SectionSetup(name, args)), OpenIf(Shown(name)), OpenFor(name)] + Emit(body) + EmitElses(CloseFor, elses)
    case ForeachNode(each, body, elses) =>
      [Do(ForeachSetup(each)), OpenIf(NonEmpty(each.name)), OpenForeach(each)] + Emit(body)
        + EmitElses(CloseForeach, elses)
    case StripNode(body) => Emit(body)
    case PluginNode(p, body) => [OpenBlock(p)] + Emit(body)
  }

  function EmitClose(n: Node): seq<Token> {
    match n
    case Print(_) => []
    case Call(_, _) => []
    case Choice(_, _, _) => [CloseIf]
    case SectionNode(_, _, _, elses) => if elses == NoElse then [CloseFor, CloseIf] else [CloseIf]
    case ForeachNode(_, _, elses) =>
      if elses == NoElse then [CloseForeach, CloseIf, Do(UnsetFrom)] else [CloseIf, Do(UnsetFrom)]
    case StripNode(_) => []
    case PluginNode(p, _) => [CloseBlock(p)]
  }

  function EmitTail(t: Tail): seq<Token>
    decreases t, 0
  {
    match t
    case NoTail => []
    case ElseIfTail(c, body, more) => [OpenElseIf(c)] + Emit(body) + EmitTail(more)
    case ElseTail(body) => [OpenElse] + Emit(body)
  }

  function EmitElses(close: Token, e: Elses): seq<Token>
    decreases e, 0
  {
    match e
    case NoElse => []
    case ElseBody(body, more) => [close, OpenElse] + Emit(body) + EmitElses(close, more)
  }

  // ----- the compiler emits it -----

  /** Code emitted for a list of tags, starting with this stack. */
  function RunCode(stack: Stack, tags: seq<Tag>): seq<Token>
    decreases |tags|
  {
    if tags == [] then []
    else
      match NextStack(stack, tags[0])
      case None => []
      case Some(next) => CodeOf(stack, tags[0]) + RunCode(next, tags[1..])
  }

  /** All the code in a list of compiled tags. */
  function Code(outs: seq<Compiled>): seq<Token> {
    if outs == [] then [] else outs[0].code + Code(outs[1..])
  }

  lemma {:induction false} StepsEmitCode(reg: Registry, s: State, tags: seq<Tag>)
    requires Steps(reg, s, tags).Some?
    ensures Code(Steps(reg, s, tags).value.1) == RunCode(s.stack, tags)
    decreases |tags|
  {
    if tags != [] {
      var (s1, out) := Step(reg, s, tags[0]).value;
      StepEmits(reg, s, tags[0]);
      StepsEmitCode(reg, s1, tags[1..]);
      CodeFirst(out, Steps(reg, s1, tags[1..]).value.1);
    }
  }

  lemma StepEmits(reg: Registry, s: State, tag: Tag)
    requires Step(reg, s, tag).Some?
    ensures var (s1, out) := Step(reg, s, tag).value;
            NextStack(s.stack, tag) == Some(s1.stack) && out.code == CodeOf(s.stack, tag)
  {}

  lemma CodeFirst(out: Compiled, outs: seq<Compiled>)
    ensures Code([out] + outs) == out.code + Code(outs)
  {
    Cons(out, outs);
  }

  lemma {:induction false} RunCodeAppend(stack: Stack, a: seq<Tag>, mid: Stack, b: seq<Tag>)
    requires RunStack(stack, a) == Some(mid)
    ensures RunCode(stack, a + b) == RunCode(stack, a) + RunCode(mid, b)
    decreases |a|
  {
    if a == [] {
      assert a + b == b;
    } else {
      assert (a + b)[0] == a[0] && (a + b)[1..] == a[1..] + b;
      RunCodeAppend(NextStack(stack, a[0]).value, a[1..], mid, b);
    }
  }

  lemma RunCodeOne(stack: Stack, tag: Tag)
    requires NextStack(stack, tag).Some?
    ensures RunCode(stack, [tag]) == CodeOf(stack, tag)
  {
    assert [tag][1..] == [];
    assert CodeOf(stack, tag) + [] == CodeOf(stack, tag);
  }

  lemma {:induction false} BlockCode(b: Block, stack: Stack)
    ensures RunCode(stack, Flatten(b)) == Emit(b)
    decreases b, 0
  {
    match b
    case Done =>
    case Then(n, rest) =>
      OpenTextRuns(n, stack);
      OpenCode(n, stack);
      CloseTextRuns(n, stack);
      CloseCode(n, stack);
      RunStackAppend(stack, OpenText(n), stack + Entries(n), CloseText(n));
      RunCodeAppend(stack, OpenText(n), stack + Entries(n), CloseText(n));
      RunCodeAppend(stack, FlattenNode(n), stack, Flatten(rest));
      BlockCode(rest, stack);
  }

  /** Which code a closing tag emits depends on what `_pop_tag` reports. */
  lemma CloseCode(n: Node, stack: Stack)
    ensures RunCode(stack + Entries(n), CloseText(n)) == EmitClose(n)
  {
    if !IsLeaf(n) {
      var full := stack + Entries(n);
      CloseOwnBlock(stack, n);
      ClosingTag(n, full);
      ClosingCode(n, full, stack);
      RunCodeOne(full, CloseText(n)[0]);
      assert CloseText(n) == [CloseText(n)[0]];
    }
  }

  lemma ClosingCode(n: Node, stack: Stack, base: Stack)
    requires !IsLeaf(n) && Pop(stack, Closer(n)) == Some((base, ReportFor(n)))
    ensures CodeOf(stack, CloseText(n)[0]) == EmitClose(n)
  {}

  lemma {:induction false} HeadCode(stack: Stack, tag: Tag, entry: Stack, body: Block)
    requires NextStack(stack, tag) == Some(stack + entry)
    ensures RunCode(stack, [tag] + Flatten(body)) == CodeOf(stack, tag) + Emit(body)
    decreases body, 1
  {
    RunStackOne(stack, tag);
    RunCodeOne(stack, tag);
    RunCodeAppend(stack, [tag], stack + entry, Flatten(body));
    BlockCode(body, stack + entry);
  }

  lemma {:induction false} OpenCode(n: Node, stack: Stack)
    ensures RunCode(stack, OpenText(n)) == EmitOpen(n)
    decreases n, 0
  {
    match n
    case Print(text) => RunCodeOne(stack, Output(text));
    case Call(p, action) => RunCodeOne(stack, Function(p, action));
    case Choice(c, body, tail) =>
      HeadRuns(stack, If(c), [InIf], body);
      HeadCode(stack, If(c), [InIf], body);
      TailCode(tail, stack + [InIf], false);
      RunCodeAppend(stack, [If(c)] + Flatten(body), stack + [InIf], FlattenTail(tail));
    case SectionNode(name, args, body, elses) =>
      HeadRuns(stack, Section(name, args), [InSection], body);
      HeadCode(stack, Section(name, args), [InSection], body);
      ElsesCode(elses, stack + [InSection], SectionElse, InSectionElse, CloseFor);
      RunCodeAppend(stack, [Section(name, args)] + Flatten(body), stack + [InSection],
                    FlattenElses(SectionElse, elses));
    case ForeachNode(each, body, elses) =>
      HeadRuns(stack, Foreach(each), [InForeach], body);
      HeadCode(stack, Foreach(each), [InForeach], body);
      ElsesCode(elses, stack + [InForeach], ForeachElse, InForeachElse, CloseForeach);
      RunCodeAppend(stack, [Foreach(each)] + Flatten(body), stack + [InForeach], FlattenElses(ForeachElse, elses));
    case StripNode(body) =>
      HeadCode(stack, Strip, [InStrip], body);
      assert [] + Emit(body) == Emit(body);
    case PluginNode(p, body) => HeadCode(stack, BlockOpen(p), [InPlugin(p)], body);
  }

  lemma {:induction false} TailCode(t: Tail, stack: Stack, seen: bool)
    requires stack != [] && stack[|stack| - 1] == if seen then InElseIf else InIf
    ensures RunCode(stack, FlattenTail(t)) == EmitTail(t)
    decreases t, 0
  {
    match t
    case NoTail =>
    case ElseTail(body) => HeadCode(stack, Else, [InElse], body);
    case ElseIfTail(c, body, more) =>
      var entry := if seen then [] else [InElseIf];
      if seen { assert stack + [] == stack; }
      HeadRuns(stack, ElseIf(c), entry, body);
      HeadCode(stack, ElseIf(c), entry, body);
      TailCode(more, stack + entry, true);
      RunCodeAppend(stack, [ElseIf(c)] + Flatten(body), stack + entry, FlattenTail(more));
  }

  lemma {:induction false} ElsesCode(e: Elses, stack: Stack, tag: Tag, mark: Open, close: Token)
    requires (tag == SectionElse && mark == InSectionElse && close == CloseFor)
          || (tag == ForeachElse && mark == InForeachElse && close == CloseForeach)
    ensures RunCode(stack, FlattenElses(tag, e)) == EmitElses(close, e)
    decreases e, 0
  {
    match e
    case NoElse =>
    case ElseBody(body, more) =>
      HeadRuns(stack, tag, [mark], body);
      HeadCode(stack, tag, [mark], body);
      ElsesCode(more, stack + [mark], tag, mark, close);
      RunCodeAppend(stack, [tag] + Flatten(body), stack + [mark], FlattenElses(tag, more));
  }

  /** Compiling the text of a tree succeeds, keeps the stack, and emits the code of the tree. */
  lemma TreeCompiles(reg: Registry, s: State, b: Block)
    ensures match Steps(reg, s, Flatten(b))
            case None => false
            case Some((end, outs)) => end.stack == s.stack && Code(outs) == Emit(b)
  {
    BlockKeepsStack(b, s.stack);
    StepsFollowStack(reg, s, Flatten(b));
    StepsEmitCode(reg, s, Flatten(b));
    BlockCode(b, s.stack);
  }

  // ----- PHP nests it -----

  /** At most one else on every section and foreach. */
  predicate OneElse(b: Block)
    decreases b, 0
  {
    match b
    case Done => true
    case Then(n, rest) => OneElseNode(n) && OneElse(rest)
  }

  predicate OneElseNode(n: Node)
    decreases n, 0
  {
    match n
    case Print(_) => true
    case Call(_, _) => true
    case Choice(_, body, tail) => OneElse(body) && OneElseTail(tail)
    case SectionNode(_, _, body, elses) => OneElse(body) && OneElseElses(elses)
    case ForeachNode(_, body, elses) => OneElse(body) && OneElseElses(elses)
    case StripNode(body) => OneElse(body)
    case PluginNode(_, body) => OneElse(body)
  }

  predicate OneElseTail(t: Tail)
    decreases t, 0
  {
    match t
    case NoTail => true
    case ElseIfTail(_, body, more) => OneElse(body) && OneElseTail(more)
    case ElseTail(body) => OneElse(body)
  }

  predicate OneElseElses(e: Elses)
    decreases e, 0
  {
    match e
    case NoElse => true
    case ElseBody(body, more) => OneElse(body) && more == NoElse
  }

  /** The nested program of a tree, in front of a program `p`. */
  function Nest(b: Block, p: Php): Php
    decreases b, 0
  {
    match b
    case Done => p
    case Then(n, rest) => NestNode(n, Nest(rest, p))
  }

  function NestNode(n: Node, p: Php): Php
    decreases n, 0
  {
    match n
    case Print(text) => Php.Then(Basic(Echo(text)), p)
    case Call(_, action) => Php.Then(Basic(Run(action)), p)
    case Choice(c, body, tail) => Php.Then(IfElse(Holds(c), Nest(body, End), NestTail(tail)), p)
    case SectionNode(name, args, body, elses) =>
      Php.Then(Basic(SectionSetup(name, args)),
        Php.Then(IfElse(Shown(name), Php.Then(ForSection(name, Nest(body, End)), End), NestElses(elses)), p))
    case ForeachNode(each, body, elses) =>
      Php.Then(Basic(ForeachSetup(each)),
        Php.Then(IfElse(NonEmpty(each.name), Php.Then(ForEntries(each, Nest(body, End)), End), NestElses(elses)),
          Php.Then(Basic(UnsetFrom), p)))
    case StripNode(body) => Nest(body, p)
    case PluginNode(plugin, body) => Php.Then(PluginBlock(plugin, Nest(body, End)), p)
  }

  function NestTail(t: Tail): Php
    decreases t, 0
  {
    match t
    case NoTail => End
    case ElseIfTail(c, body, more) => Php.Then(IfElse(Holds(c), Nest(body, End), NestTail(more)), End)
    case ElseTail(body) => Nest(body, End)
  }

  function NestElses(e: Elses): Php
    decreases e, 0
  {
    match e
    case NoElse => End
    case ElseBody(body, _) => Nest(body, End)
  }

  /** A parsed remainder with the program of `b` in front. */
  function InFront(b: Block, r: Option<(Php, seq<Token>)>): Option<(Php, seq<Token>)> {
    match r
    case None => None
    case Some((p, left)) => if OneElse(b) then Some((Nest(b, p), left)) else None
  }

  // ----- parsing token lists of known shape -----

  /** The result of parsing a block that is known to end at `after`, or to be ill nested. */
  function Ended(p: Option<Php>, after: seq<Token>): Option<(Php, seq<Token>)> {
    match p
    case None => None
    case Some(php) => Some((php, after))
  }

  function NestIf(b: Block): Option<Php> {
    if OneElse(b) then Some(Nest(b, End)) else None
  }

  /** if (test): inner, where `inner` is a block and then `after`, which finishes the if. */
  lemma ParseIfShape(
    test: Test, inner: seq<Token>, after: seq<Token>, thn: Option<Php>, els: Option<Php>, rest: seq<Token>)
    requires ParseBlock(inner) == Ended(thn, after)
    requires ParseElse(after) == Ended(els, rest)
    ensures ParseStmt([OpenIf(test)] + inner) ==
            if thn.Some? && els.Some? then Some((IfElse(test, thn.value, els.value), rest)) else None
  {
    assert ([OpenIf(test)] + inner)[1..] == inner;
  }

  function LoopStmt(open: Token, body: Php): Stmt
    requires open.OpenFor? || open.OpenForeach?
  {
    if open.OpenFor? then ForSection(open.section, body) else ForEntries(open.each, body)
  }

  predicate Closes(open: Token, close: Token) {
    (open.OpenFor? && close == CloseFor) || (open.OpenForeach? && close == CloseForeach)
  }

  /** for/foreach: body endfor/endforeach, as the only statement of a block. */
  lemma ParseLoopShape(open: Token, close: Token, body: seq<Token>, after: seq<Token>, p: Option<Php>)
    requires Closes(open, close)
    requires ParseBlock(body + ([close] + after)) == Ended(p, [close] + after)
    requires after != [] && IsTerminator(after[0])
    ensures ParseBlock([open] + (body + ([close] + after))) ==
            Ended(if p.None? then None else Some(Php.Then(LoopStmt(open, p.value), End)), after)
  {
    var tokens := [open] + (body + ([close] + after));
    assert tokens[1..] == body + ([close] + after);
    assert ([close] + after)[1..] == after;
    assert ParseStmt(tokens) == if p.None? then None else Some((LoopStmt(open, p.value), after));
  }

  /** A block whose first statement is known. */
  lemma ParseFirst(tokens: seq<Token>, stmt: Option<Stmt>, rest: seq<Token>)
    requires tokens != [] && !IsTerminator(tokens[0])
    requires ParseStmt(tokens) == match stmt case None => None case Some(s) => Some((s, rest))
    ensures ParseBlock(tokens) ==
            match ParseBlock(rest)
            case None => None
            case Some((p, left)) => if stmt.None? then None else Some((Php.Then(stmt.value, p), left))
  {}

  // ----- parsing emitted code -----

  /** A block of statements in front of anything. */
  lemma {:induction false} ParseEmitted(b: Block, rest: seq<Token>)
    ensures ParseBlock(Emit(b) + rest) == InFront(b, ParseBlock(rest))
    decreases b, 0
  {
    match b
    case Done => assert [] + rest == rest;
    case Then(n, more) =>
      ParseNode(n, Emit(more) + rest);
      ParseEmitted(more, rest);
      Assoc(EmitNode(n), Emit(more), rest);
  }

  /** A block of statements in front of a terminator. */
  lemma {:induction false} ParseBody(b: Block, rest: seq<Token>)
    requires rest != [] && IsTerminator(rest[0])
    ensures ParseBlock(Emit(b) + rest) == Ended(NestIf(b), rest)
    decreases b, 1
  {
    ParseEmitted(b, rest);
  }

  /** A node in front of anything. */
  ghost predicate NodeParses(n: Node, rest: seq<Token>) {
    ParseBlock(EmitNode(n) + rest) ==
    match ParseBlock(rest)
    case None => None
    case Some((p, left)) => if OneElseNode(n) then Some((NestNode(n, p), left)) else None
  }

  lemma {:induction false} ParseNode(n: Node, rest: seq<Token>)
    ensures NodeParses(n, rest)
    decreases n, 0
  {
    match n
    case Print(text) => ParseSimple(Echo(text), rest);
    case Call(_, action) => ParseSimple(Run(action), rest);
    case Choice(c, body, tail) =>
      ParseTail(tail, rest);
      TailStartsClause(tail, rest);
      ParseBody(body, EmitTail(tail) + [CloseIf] + rest);
      ParseChoice(c, body, tail, rest);
    case SectionNode(name, args, body, elses) =>
      ParseElses(CloseFor, elses, rest);
      ParseBody(body, [CloseFor] + (AfterLoop(CloseFor, elses) + rest));
      ParseSection(name, args, body, elses, rest);
    case ForeachNode(each, body, elses) =>
      var unset := [Do(UnsetFrom)] + rest;
      ParseElses(CloseForeach, elses, unset);
      ParseBody(body, [CloseForeach] + (AfterLoop(CloseForeach, elses) + unset));
      ParseForeach(each, body, elses, rest);
    case StripNode(body) =>
      ParseEmitted(body, rest);
      assert EmitNode(n) == Emit(body);
    case PluginNode(p, body) =>
      ParseBody(body, [CloseBlock(p)] + rest);
      ParsePlugin(p, body, rest);
  }

  lemma ParseSimple(s: Simple, rest: seq<Token>)
    ensures ParseBlock([Do(s)] + [] + rest) ==
            match ParseBlock(rest)
            case None => None
            case Some((p, left)) => Some((Php.Then(Basic(s), p), left))
  {
    var tokens := [Do(s)] + [] + rest;
    assert tokens[1..] == rest;
    ParseFirst(tokens, Some(Basic(s)), rest);
  }

  lemma TailStartsClause(t: Tail, rest: seq<Token>)
    ensures var tokens := EmitTail(t) + [CloseIf] + rest; tokens != [] && IsTerminator(tokens[0])
  {}

  lemma ParseChoice(c: Condition, body: Block, tail: Tail, rest: seq<Token>)
    requires var after := EmitTail(tail) + [CloseIf] + rest;
             && ParseBlock(Emit(body) + after) == Ended(NestIf(body), after)
             && ParseElse(after) == Ended(if OneElseTail(tail) then Some(NestTail(tail)) else None, rest)
    ensures NodeParses(Choice(c, body, tail), rest)
  {
    var n := Choice(c, body, tail);
    var after := EmitTail(tail) + [CloseIf] + rest;
    var els := if OneElseTail(tail) then Some(NestTail(tail)) else None;
    var tokens := [OpenIf(Holds(c))] + (Emit(body) + after);
    ParseIfShape(Holds(c), Emit(body) + after, after, NestIf(body), els, rest);
    ParseFirst(tokens, if OneElseNode(n) then Some(IfElse(Holds(c), Nest(body, End), NestTail(tail))) else None, rest);
    ChoiceOrder(c, body, tail, rest);
  }

  lemma ChoiceOrder(c: Condition, body: Block, tail: Tail, rest: seq<Token>)
    ensures EmitNode(Choice(c, body, tail)) + rest
         == [OpenIf(Holds(c))] + (Emit(body) + (EmitTail(tail) + [CloseIf] + rest))
  {
    Regroup([OpenIf(Holds(c))], Emit(body), EmitTail(tail), [CloseIf] + rest);
    Regroup([OpenIf(Holds(c))] + Emit(body), EmitTail(tail), [CloseIf], rest);
    Regroup(EmitTail(tail), [CloseIf], rest, []);
  }

  lemma ParsePlugin(plugin: string, body: Block, rest: seq<Token>)
    requires ParseBlock(Emit(body) + ([CloseBlock(plugin)] + rest)) == Ended(NestIf(body), [CloseBlock(plugin)] + rest)
    ensures NodeParses(PluginNode(plugin, body), rest)
  {
    var inner := Emit(body) + ([CloseBlock(plugin)] + rest);
    ParsePluginShape(plugin, inner, NestIf(body), rest);
    Regroup([OpenBlock(plugin)], Emit(body), [CloseBlock(plugin)], rest);
  }

  lemma ParsePluginShape(plugin: string, inner: seq<Token>, p: Option<Php>, rest: seq<Token>)
    requires ParseBlock(inner) == Ended(p, [CloseBlock(plugin)] + rest)
    ensures ParseBlock([OpenBlock(plugin)] + inner) ==
            match ParseBlock(rest)
            case None => None
            case Some((q, left)) => if p.None? then None else Some((Php.Then(PluginBlock(plugin, p.value), q), left))
  {
    var tokens := [OpenBlock(plugin)] + inner;
    assert tokens[1..] == inner && ([CloseBlock(plugin)] + rest)[1..] == rest;
    ParseFirst(tokens, if p.None? then None else Some(PluginBlock(plugin, p.value)), rest);
  }

  lemma {:induction false} ParseTail(t: Tail, rest: seq<Token>)
    ensures ParseElse(EmitTail(t) + [CloseIf] + rest) == Ended(if OneElseTail(t) then Some(NestTail(t)) else None, rest)
    decreases t, 0
  {
    match t
    case NoTail => assert ([] + [CloseIf] + rest)[1..] == rest;
    case ElseIfTail(c, body, more) =>
      var after := EmitTail(more) + [CloseIf] + rest;
      TailStartsClause(more, rest);
      ParseBody(body, after);
      ParseTail(more, rest);
      ParseElseIfClause(c, Emit(body), after, NestIf(body),
                        if OneElseTail(more) then Some(NestTail(more)) else None, rest);
      Regroup([OpenElseIf(c)] + Emit(body), EmitTail(more), [CloseIf], rest);
      Assoc(EmitTail(more), [CloseIf], rest);
      Assoc([OpenElseIf(c)], Emit(body), after);
    case ElseTail(body) =>
      var after := [CloseIf] + rest;
      ParseBody(body, after);
      ParseElseClause(Emit(body), NestIf(body), rest);
      Regroup([OpenElse], Emit(body), [CloseIf], rest);
  }

  lemma ParseElseIfClause(
    c: Condition, body: seq<Token>, after: seq<Token>, p: Option<Php>, els: Option<Php>, rest: seq<Token>)
    requires ParseBlock(body + after) == Ended(p, after) && ParseElse(after) == Ended(els, rest)
    ensures ParseElse([OpenElseIf(c)] + (body + after)) ==
            Ended(if p.Some? && els.Some? then Some(Php.Then(IfElse(Holds(c), p.value, els.value), End)) else None,
                  rest)
  {
    assert ([OpenElseIf(c)] + (body + after))[1..] == body + after;
  }

  lemma ParseElseClause(body: seq<Token>, p: Option<Php>, rest: seq<Token>)
    requires ParseBlock(body + ([CloseIf] + rest)) == Ended(p, [CloseIf] + rest)
    ensures ParseElse([OpenElse] + (body + ([CloseIf] + rest))) == Ended(p, rest)
  {
    var after := [CloseIf] + rest;
    assert ([OpenElse] + (body + after))[1..] == body + after && after[1..] == rest;
  }

  // ----- the loops, section and foreach alike -----

  /** Tokens of a loop tag after its first loop end, through the `endif`. */
  function AfterLoop(close: Token, elses: Elses): seq<Token> {
    match elses
    case NoElse => [CloseIf]
    case ElseBody(body, more) => [OpenElse] + Emit(body) + EmitElses(close, more) + [CloseIf]
  }

  function NestElsesIf(elses: Elses): Option<Php> {
    if OneElseElses(elses) then Some(NestElses(elses)) else None
  }

  /** After the loop: `endif`, or `else` with one body. A second else body meets a stray loop end. */
  lemma {:induction false} ParseElses(close: Token, elses: Elses, rest: seq<Token>)
    requires close == CloseFor || close == CloseForeach
    ensures ElsesParse(close, elses, rest)
    decreases elses, 0
  {
    var after := AfterLoop(close, elses) + rest;
    match elses
    case NoElse => assert after[1..] == rest;
    case ElseBody(b, more) =>
      var tail := EmitElses(close, more) + [CloseIf] + rest;
      ElsesHead(close, more, rest);
      ParseBody(b, tail);
      ParseElseShape(Emit(b), EmitElses(close, more) + [CloseIf], NestIf(b), more == NoElse, rest);
      Regroup([OpenElse], Emit(b), EmitElses(close, more), [CloseIf]);
      assert AfterLoop(close, elses) == [OpenElse] + (Emit(b) + (EmitElses(close, more) + [CloseIf]));
  }

  /** What follows a loop parses as the rest of its guard. */
  ghost predicate ElsesParse(close: Token, elses: Elses, rest: seq<Token>) {
    var after := AfterLoop(close, elses) + rest;
    && after != [] && IsTerminator(after[0])
    && ParseElse(after) == Ended(NestElsesIf(elses), rest)
  }

  lemma ElsesHead(close: Token, more: Elses, rest: seq<Token>)
    ensures var tail := EmitElses(close, more) + [CloseIf];
            && tail != [] && tail[0] == (if more == NoElse then CloseIf else close)
            && (more == NoElse ==> tail == [CloseIf])
  {}

  /** else: body, then `endif` or something else. */
  lemma ParseElseShape(body: seq<Token>, end: seq<Token>, p: Option<Php>, closed: bool, rest: seq<Token>)
    requires ParseBlock(body + (end + rest)) == Ended(p, end + rest)
    requires if closed then end == [CloseIf] else end != [] && end[0] != CloseIf
    ensures ParseElse([OpenElse] + (body + end) + rest) == Ended(if closed then p else None, rest)
  {
    Assoc([OpenElse], body + end, rest);
    Assoc(body, end, rest);
    TakeDrop(end, rest);
    ParseElseBlock(body + (end + rest), p, end + rest);
  }

  lemma ParseElseBlock(tokens: seq<Token>, p: Option<Php>, after: seq<Token>)
    requires ParseBlock(tokens) == Ended(p, after) && after != []
    ensures ParseElse([OpenElse] + tokens) == if after[0] == CloseIf then Ended(p, after[1..]) else None
  {
    Cons(OpenElse, tokens);
  }

  lemma Regroup(a: seq<Token>, b: seq<Token>, c: seq<Token>, d: seq<Token>)
    ensures a + b + c + d == a + (b + (c + d))
    ensures a + b + (c + d) == a + (b + (c + d))
  {}

  /** if (test): loop, then the else part. */
  lemma ParseGuardedLoop(test: Test, open: Token, close: Token, body: seq<Token>, after: seq<Token>,
                         p: Option<Php>, els: Option<Php>, rest: seq<Token>)
    requires Closes(open, close)
    requires after != [] && IsTerminator(after[0])
    requires ParseBlock(body + ([close] + after)) == Ended(p, [close] + after)
    requires ParseElse(after) == Ended(els, rest)
    ensures ParseStmt([OpenIf(test), open] + (body + ([close] + after))) ==
            if p.Some? && els.Some?
            then Some((IfElse(test, Php.Then(LoopStmt(open, p.value), End), els.value), rest))
            else None
  {
    ParseLoopShape(open, close, body, after, p);
    var thn := if p.Some? then Some(Php.Then(LoopStmt(open, p.value), End)) else None;
    ParseIfShape(test, [open] + (body + ([close] + after)), after, thn, els, rest);
    assert [OpenIf(test), open] == [OpenIf(test)] + [open];
    Assoc([OpenIf(test)], [open], body + ([close] + after));
  }

  /** Setup code, then a guarded loop. */
  lemma ParseSetup(setup: Simple, loop: seq<Token>, stmt: Option<Stmt>, rest: seq<Token>)
    requires loop != [] && !IsTerminator(loop[0])
    requires ParseStmt(loop) == match stmt case None => None case Some(s) => Some((s, rest))
    ensures ParseBlock([Do(setup)] + loop) ==
            match ParseBlock(rest)
            case None => None
            case Some((p, left)) =>
              if stmt.None? then None else Some((Php.Then(Basic(setup), Php.Then(stmt.value, p)), left))
  {
    ParseFirst(loop, stmt, rest);
    assert ([Do(setup)] + loop)[1..] == loop;
    ParseFirst([Do(setup)] + loop, Some(Basic(setup)), loop);
  }

  function LoopEnd(close: Token, elses: Elses): seq<Token> {
    if elses == NoElse then [close, CloseIf] else [CloseIf]
  }

  lemma ElsesThenClose(close: Token, elses: Elses)
    ensures EmitElses(close, elses) + LoopEnd(close, elses) == [close] + AfterLoop(close, elses)
  {
    match elses
    case NoElse =>
    case ElseBody(b, more) =>
      Regroup([close] + [OpenElse], Emit(b), EmitElses(close, more), [CloseIf]);
      Regroup([close], [OpenElse], Emit(b), EmitElses(close, more) + [CloseIf]);
      Regroup([OpenElse], Emit(b), EmitElses(close, more), [CloseIf]);
      assert [close, OpenElse] == [close] + [OpenElse];
  }

  /** setup, guard, body and loop end, in the order the parser meets them. */
  lemma LoopOrder(
    setup: Token, guard: seq<Token>, body: seq<Token>, elses: seq<Token>, end: seq<Token>, rest: seq<Token>)
    ensures [setup] + guard + body + elses + end + rest == [setup] + (guard + (body + (elses + end + rest)))
  {}

  lemma ParseSection(name: string, args: SectionArgs, body: Block, elses: Elses, rest: seq<Token>)
    requires ElsesParse(CloseFor, elses, rest)
    requires var after := [CloseFor] + (AfterLoop(CloseFor, elses) + rest);
             ParseBlock(Emit(body) + after) == Ended(NestIf(body), after)
    ensures NodeParses(SectionNode(name, args, body, elses), rest)
  {
    var n := SectionNode(name, args, body, elses);
    var guard := [OpenIf(Shown(name)), OpenFor(name)];
    var setup := SectionSetup(name, args);
    var after := AfterLoop(CloseFor, elses) + rest;
    ParseGuardedLoop(Shown(name), OpenFor(name), CloseFor, Emit(body), after, NestIf(body), NestElsesIf(elses), rest);
    var stmt := IfElse(Shown(name), Php.Then(ForSection(name, Nest(body, End)), End), NestElses(elses));
    ParseSetup(setup, guard + (Emit(body) + ([CloseFor] + after)), if OneElseNode(n) then Some(stmt) else None, rest);
    SectionOrder(name, args, body, elses, rest);
  }

  lemma SectionOrder(name: string, args: SectionArgs, body: Block, elses: Elses, rest: seq<Token>)
    ensures EmitNode(SectionNode(name, args, body, elses)) + rest
         == [Do(SectionSetup(name, args))]
            + ([OpenIf(Shown(name)), OpenFor(name)] + (Emit(body) + ([CloseFor] + (AfterLoop(CloseFor, elses) + rest))))
  {
    var guard := [OpenIf(Shown(name)), OpenFor(name)];
    LoopOrder(Do(SectionSetup(name, args)), guard, Emit(body), EmitElses(CloseFor, elses),
              LoopEnd(CloseFor, elses), rest);
    ElsesThenClose(CloseFor, elses);
    Regroup([CloseFor], AfterLoop(CloseFor, elses), rest, []);
    assert [Do(SectionSetup(name, args)), OpenIf(Shown(name)), OpenFor(name)] == [Do(SectionSetup(name, args))] + guard;
  }

  lemma ParseForeach(each: ForeachArgs, body: Block, elses: Elses, rest: seq<Token>)
    requires ElsesParse(CloseForeach, elses, [Do(UnsetFrom)] + rest)
    requires var after := [CloseForeach] + (AfterLoop(CloseForeach, elses) + ([Do(UnsetFrom)] + rest));
             ParseBlock(Emit(body) + after) == Ended(NestIf(body), after)
    ensures NodeParses(ForeachNode(each, body, elses), rest)
  {
    var n := ForeachNode(each, body, elses);
    var test, open := NonEmpty(each.name), OpenForeach(each);
    var setup := ForeachSetup(each);
    var unset := [Do(UnsetFrom)] + rest;
    var after := AfterLoop(CloseForeach, elses) + unset;
    ParseGuardedLoop(test, open, CloseForeach, Emit(body), after, NestIf(body), NestElsesIf(elses), unset);
    var stmt := IfElse(test, Php.Then(ForEntries(each, Nest(body, End)), End), NestElses(elses));
    ParseSetup(setup, [OpenIf(test), open] + (Emit(body) + ([CloseForeach] + after)),
               if OneElseNode(n) then Some(stmt) else None, unset);
    ParseUnset(rest);
    ForeachOrder(each, body, elses, rest);
  }

  lemma ParseUnset(rest: seq<Token>)
    ensures ParseBlock([Do(UnsetFrom)] + rest) ==
            match ParseBlock(rest)
            case None => None
            case Some((p, left)) => Some((Php.Then(Basic(UnsetFrom), p), left))
  {
    TakeDrop([Do(UnsetFrom)], rest);
    ParseFirst([Do(UnsetFrom)] + rest, Some(Basic(UnsetFrom)), rest);
  }

  lemma ForeachPieces(each: ForeachArgs, body: Block, elses: Elses)
    ensures EmitNode(ForeachNode(each, body, elses))
         == [Do(ForeachSetup(each))] + [OpenIf(NonEmpty(each.name)), OpenForeach(each)] + Emit(body)
           + EmitElses(CloseForeach, elses)
            + (LoopEnd(CloseForeach, elses) + [Do(UnsetFrom)])
  {
    assert [Do(ForeachSetup(each)), OpenIf(NonEmpty(each.name)), OpenForeach(each)]
        == [Do(ForeachSetup(each))] + [OpenIf(NonEmpty(each.name)), OpenForeach(each)];
  }

  lemma LoopOrderThen(setup: Token, guard: seq<Token>, body: seq<Token>, elses: seq<Token>, end: seq<Token>,
                      unset: seq<Token>, rest: seq<Token>)
    ensures [setup] + guard + body + elses + (end + unset) + rest
         == [setup] + (guard + (body + (elses + end + (unset + rest))))
  {
    var front := [setup] + guard + body + elses;
    Assoc(front, end, unset);
    Assoc(front + end, unset, rest);
    LoopOrder(setup, guard, body, elses, end, unset + rest);
  }

  lemma ForeachOrder(each: ForeachArgs, body: Block, elses: Elses, rest: seq<Token>)
    ensures EmitNode(ForeachNode(each, body, elses)) + rest
         == [Do(ForeachSetup(each))]
            + ([OpenIf(NonEmpty(each.name)), OpenForeach(each)]
               + (Emit(body) + ([CloseForeach] + (AfterLoop(CloseForeach, elses) + ([Do(UnsetFrom)] + rest)))))
  {
    var guard := [OpenIf(NonEmpty(each.name)), OpenForeach(each)];
    var unset := [Do(UnsetFrom)];
    ForeachPieces(each, body, elses);
    ElsesThenClose(CloseForeach, elses);
    LoopOrderThen(Do(ForeachSetup(each)), guard, Emit(body), EmitElses(CloseForeach, elses),
                  LoopEnd(CloseForeach, elses), unset, rest);
    Assoc([CloseForeach], AfterLoop(CloseForeach, elses), unset + rest);
  }

  /**
   The code the compiler emits for the text of a tree is properly nested exactly
   when no section or foreach has two else tags; then it is the program of the tree.
   */
  lemma NestedExactly(b: Block)
    ensures Parse(Emit(b)) == if OneElse(b) then Some(Nest(b, End)) else None
  {
    ParseEmitted(b, []);
    assert Emit(b) + [] == Emit(b);
  }
}
