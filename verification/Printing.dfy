/** What a compiled template prints, and when that is what its tree means. */
module Printing {
  import opened Options
  import opened Template
  import opened TagMachine
  import opened PhpControl
  import opened Emission
  import opened Meaning
  import opened Sharing
  import opened Running

  /** Compiling tags and letting PHP nest the result. */
  function CompileToPhp(reg: Registry, tags: seq<Tag>): Option<Php> {
    match CompileAll(reg, INITIAL, tags)
    case None => None
    case Some((_, outs)) => Parse(Code(outs))
  }

  function Alone(n: Node): Block {
    Block.Then(n, Done)
  }

  lemma OnlyNode(n: Node, env: Env)
    ensures EvalBlock(Alone(n), env).output == EvalNode(n, env).output
    ensures SharedBlock(Alone(n), env).output == SharedNode(n, env).output
  {
    Nothing(EvalNode(n, env).output);
    Nothing(SharedNode(n, env).output);
  }

  ghost predicate EndsPrinting(php: Php, st: PhpState, output: string) {
    exists enough: nat, end: PhpState :: EndsIn(php, st, enough, end, output)
  }

  /** The compiled template ends and prints this. */
  ghost predicate Prints(reg: Registry, b: Block, env: Env, output: string) {
    match CompileToPhp(reg, Flatten(b))
    case None => false
    case Some(php) => EndsPrinting(php, PhpState(env, None), output)
  }

  /** The compiled template prints what the tree means. */
  ghost predicate OutputPreserved(reg: Registry, b: Block, env: Env) {
    Prints(reg, b, env, EvalBlock(b, env).output)
  }

  /** The compiled template prints what the tree means, and leaves the environment the tree leaves. */
  ghost predicate MeaningPreserved(reg: Registry, b: Block, env: Env) {
    match CompileToPhp(reg, Flatten(b))
    case None => false
    case Some(php) =>
      var r := EvalBlock(b, env);
      Yields(php, PhpState(env, None), r.env, r.output)
  }

  lemma CompiledIsNested(reg: Registry, b: Block)
    requires Control(b)
    ensures CompileToPhp(reg, Flatten(b)) == Some(Nest(b, End))
  {
    TreeCompiles(reg, INITIAL, b);
    NestedExactly(b);
    ControlHasOneElse(b);
  }

  /** A program has one end and prints one thing. */
  lemma EndsOnce(php: Php, st: PhpState, n1: nat, end1: PhpState, out1: string, n2: nat, end2: PhpState, out2: string)
    requires EndsIn(php, st, n1, end1, out1) && EndsIn(php, st, n2, end2, out2)
    ensures end1 == end2 && out1 == out2
  {
    var fuel := Max(n1, n2);
    assert Exec(php, st, fuel) == Some(Outcome(end1, out1));
    assert Exec(php, st, fuel) == Some(Outcome(end2, out2));
  }

  /**
   For every tree of control structure, whatever its sections and foreachs are called and
   however they are nested: the compiled code ends and does what evaluation with shared
   records does. So the meaning is preserved exactly if that is the meaning of the tree,
   and the output exactly if it has the same output.
   */
  lemma CompiledSharesRecords(reg: Registry, b: Block, env: Env)
    requires Control(b)
    ensures Prints(reg, b, env, SharedBlock(b, env).output)
    ensures MeaningPreserved(reg, b, env) <==> SharedBlock(b, env) == EvalBlock(b, env)
    ensures OutputPreserved(reg, b, env) <==> SharedBlock(b, env).output == EvalBlock(b, env).output
  {
    CompiledIsNested(reg, b);
    var php, st, meant, shared := Nest(b, End), PhpState(env, None), EvalBlock(b, env), SharedBlock(b, env);
    var enough, end := BodyRuns(b, st);
    assert EndsPrinting(php, st, shared.output);
    if OutputPreserved(reg, b, env) {
      var n: nat, e: PhpState :| EndsIn(php, st, n, e, meant.output);
      EndsOnce(php, st, n, e, meant.output, enough, end, shared.output);
    }
    if MeaningPreserved(reg, b, env) {
      var n: nat, e: PhpState :| EndsIn(php, st, n, e, meant.output) && e.env == meant.env;
      EndsOnce(php, st, n, e, meant.output, enough, end, shared.output);
    }
    if shared == meant { assert EndsIn(php, st, enough, end, meant.output) && end.env == meant.env; }
  }

  /**
   Compilation preserves meaning: the text of every plain tree compiles to properly
   nested PHP which, in every environment, prints what the tree means and leaves
   the environment the tree leaves.
   */
  lemma CompilationPreservesMeaning(reg: Registry, b: Block, env: Env)
    requires Plain(b)
    ensures MeaningPreserved(reg, b, env) && OutputPreserved(reg, b, env)
  {
    CompiledSharesRecords(reg, b, env);
    SharedIsMeant(b, {}, {}, env);
  }

  /** The tags of a block plugin become the two ends of its block, around the program of what is inside. */
  lemma PluginBlockCompiles(reg: Registry, plugin: string, b: Block)
    requires OneElse(b)
    ensures CompileToPhp(reg, [BlockOpen(plugin)] + Flatten(b) + [BlockClose(plugin)])
         == Some(Php.Then(PluginBlock(plugin, Nest(b, End)), End))
  {
    var tree := Alone(PluginNode(plugin, b));
    assert OneElse(tree) by { assert OneElse(Done) && OneElseNode(tree.node); }
    TreeCompiles(reg, INITIAL, tree);
    NestedExactly(tree);
    Nothing(FlattenNode(tree.node));
    assert OpenText(tree.node) == [BlockOpen(plugin)] + Flatten(b) && CloseText(tree.node) == [BlockClose(plugin)];
    assert Flatten(Done) == [] && Flatten(tree) == FlattenNode(tree.node);
    assert Nest(tree, End) == Php.Then(PluginBlock(plugin, Nest(b, End)), End);
  }
}
