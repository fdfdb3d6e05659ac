/**
 Why nested sections need different names: the inner loop overwrites the record by
 which the outer one is controlled.
 */
module NameClash {
  import opened Options
  import opened Template
  import opened TagMachine
  import opened PhpControl
  import opened Meaning
  import opened Sharing
  import opened Printing
  import SectionLoop

  // ----- the passes that are not run -----

  /** What the tree's meaning has in the passes behind that one. */
  function LostPasses(name: string, body: Block, props: SectionLoop.Props, plan: seq<int>, k: nat, env: Env): string
    requires k <= |plan|
    decreases |plan| - k
  {
    if k == |plan| then ""
    else
      var rec := PassRecord(props, plan, k);
      var r1 := EvalBlock(body, SetSection(env, name, rec));
      var left := rec.(cursor := Some(Cursor(plan[k] + props.step, k + 2)));
      var next := SetSection(r1.env, name, left);
      if SpentAt(r1.env, name) then EvalPasses(name, body, props, plan, k + 1, next).output
      else LostPasses(name, body, props, plan, k + 1, next)
  }

  /** The first of the passes, whose result is r1. */
  lemma PassesStep(
    name: string, body: Block, props: SectionLoop.Props, plan: seq<int>, k: nat, env: Env, r1: Result, next: Env)
    requires k < |plan| && Apart(body, {}, {})
    requires r1 == EvalBlock(body, SetSection(env, name, PassRecord(props, plan, k)))
    requires next == SetSection(r1.env, name,
                                PassRecord(props, plan, k).(cursor := Some(Cursor(plan[k] + props.step, k + 2))))
    ensures EvalPasses(name, body, props, plan, k, env).output
         == r1.output + EvalPasses(name, body, props, plan, k + 1, next).output
    ensures if SpentAt(r1.env, name) then
              && SharedPasses(name, body, props, plan, k, env).output == r1.output
              && LostPasses(name, body, props, plan, k, env) == EvalPasses(name, body, props, plan, k + 1, next).output
            else
              && SharedPasses(name, body, props, plan, k, env).output
                 == r1.output + SharedPasses(name, body, props, plan, k + 1, next).output
              && LostPasses(name, body, props, plan, k, env) == LostPasses(name, body, props, plan, k + 1, next)
  {
    SharedIsMeant(body, {}, {}, SetSection(env, name, PassRecord(props, plan, k)));
  }

  /** The meaning of the passes is what is printed and then what is lost. */
  predicate Accounted(name: string, body: Block, props: SectionLoop.Props, plan: seq<int>, k: nat, env: Env)
    requires k <= |plan|
  {
    EvalPasses(name, body, props, plan, k, env).output
    == SharedPasses(name, body, props, plan, k, env).output + LostPasses(name, body, props, plan, k, env)
  }

  lemma {:induction false} SharedThenLost(
    name: string, body: Block, props: SectionLoop.Props, plan: seq<int>, k: nat, env: Env)
    requires k <= |plan| && Apart(body, {}, {})
    ensures Accounted(name, body, props, plan, k, env)
    decreases |plan| - k
  {
    if k < |plan| {
      var spent, next := FirstPass(name, body, props, plan, k, env);
      if !spent { SharedThenLost(name, body, props, plan, k + 1, next); }
    }
  }

  lemma FirstPass(name: string, body: Block, props: SectionLoop.Props, plan: seq<int>, k: nat, env: Env)
    returns (spent: bool, next: Env)
    requires k < |plan| && Apart(body, {}, {})
    ensures spent || Accounted(name, body, props, plan, k + 1, next) ==> Accounted(name, body, props, plan, k, env)
  {
    var rec := PassRecord(props, plan, k);
    var r1 := EvalBlock(body, SetSection(env, name, rec));
    spent := SpentAt(r1.env, name);
    next := SetSection(r1.env, name, rec.(cursor := Some(Cursor(plan[k] + props.step, k + 2))));
    PassesStep(name, body, props, plan, k, env, r1, next);
    Assoc(r1.output, SharedPasses(name, body, props, plan, k + 1, next).output,
          LostPasses(name, body, props, plan, k + 1, next));
  }

  // ----- a section and its body -----

  /** What the meaning of a section has in the passes that are not run. */
  function LostOutput(name: string, args: SectionArgs, body: Block, env: Env): string {
    var attrs := args(Unset(env, name));
    var plan := SectionLoop.Planned(attrs);
    var begun := SetSection(env, name, SectionRecord(PropsFor(attrs, plan), None, None));
    LostPasses(name, body, PropsFor(attrs, plan), plan, 0, begun)
  }

  /**
   For every section whose body is named apart in itself, but may use the name of the
   section: the output is preserved exactly if the passes behind the first one that runs
   a section of that name print nothing.
   */
  lemma SectionPreservedExactly(reg: Registry, name: string, args: SectionArgs, body: Block, elses: Elses, env: Env)
    requires Control(body) && Apart(body, {}, {}) && ControlElses(elses) && ApartElses(elses, {}, {})
    ensures OutputPreserved(reg, Alone(SectionNode(name, args, body, elses)), env)
            <==> LostOutput(name, args, body, env) == ""
  {
    CompiledSharesRecords(reg, Alone(SectionNode(name, args, body, elses)), env);
    MeaningIsSharedThenLost(name, args, body, elses, env);
  }

  lemma MeaningIsSharedThenLost(name: string, args: SectionArgs, body: Block, elses: Elses, env: Env)
    requires Apart(body, {}, {}) && ApartElses(elses, {}, {})
    ensures var tree := Alone(SectionNode(name, args, body, elses));
            EvalBlock(tree, env).output == SharedBlock(tree, env).output + LostOutput(name, args, body, env)
  {
    var n := SectionNode(name, args, body, elses);
    var attrs := args(Unset(env, name));
    var plan := SectionLoop.Planned(attrs);
    var begun := SetSection(env, name, SectionRecord(PropsFor(attrs, plan), None, None));
    OnlyNode(n, env);
    if plan != [] {
      SharedThenLost(name, body, PropsFor(attrs, plan), plan, 0, begun);
      assert Accounted(name, body, PropsFor(attrs, plan), plan, 0, begun);
    } else if elses.ElseBody? {
      SharedIsMeant(elses.body, {}, {}, begun);
    }
  }

  // ----- two sections, one in the other -----

  /** {section name=inner}{/section}text */
  function EmptyThenText(inner: string, args: SectionArgs, text: string): Block {
    Block.Then(SectionNode(inner, args, Done, NoElse), Block.Then(Print(_ => text), Done))
  }

  /** {section name=outer}{section name=inner}{/section}text{/section} */
  function Nested(outer: string, inner: string, outerArgs: SectionArgs, innerArgs: SectionArgs, text: string): Block {
    Alone(SectionNode(outer, outerArgs, EmptyThenText(inner, innerArgs, text), NoElse))
  }

  lemma EmptyThenTextIsApart(inner: string, args: SectionArgs, text: string, sections: set<string>)
    requires inner !in sections
    ensures Control(EmptyThenText(inner, args, text)) && Apart(EmptyThenText(inner, args, text), sections, {})
  {
    assert Apart(Done, sections + {inner}, {});
    assert ApartNode(SectionNode(inner, args, Done, NoElse), sections, {});
    assert Control(Done) && ControlNode(SectionNode(inner, args, Done, NoElse));
    assert Control(Block.Then(Print(_ => text), Done)) && Apart(Block.Then(Print(_ => text), Done), sections, {});
  }

  lemma NestedIsPlain(outer: string, inner: string, outerArgs: SectionArgs, innerArgs: SectionArgs, text: string)
    requires outer != inner
    ensures Plain(Nested(outer, inner, outerArgs, innerArgs, text))
  {
    EmptyThenTextIsApart(inner, innerArgs, text, {outer});
    assert {} + {outer} == {outer};
    var n := Nested(outer, inner, outerArgs, innerArgs, text).node;
    assert ControlNode(n) && ApartNode(n, {}, {});
  }

  lemma {:induction false} EmptyPassesSilent(name: string, props: SectionLoop.Props, plan: seq<int>, k: nat, env: Env)
    requires k <= |plan|
    ensures EvalPasses(name, Done, props, plan, k, env).output == ""
    decreases |plan| - k
  {
    if k < |plan| {
      var rec := PassRecord(props, plan, k);
      var left := rec.(cursor := Some(Cursor(plan[k] + props.step, k + 2)));
      var next := SetSection(SetSection(env, name, rec), name, left);
      EmptyPassesSilent(name, props, plan, k + 1, next);
      Nothing(EvalPasses(name, Done, props, plan, k + 1, next).output);
    }
  }

  lemma BodyPrints(inner: string, args: SectionArgs, text: string, env: Env)
    ensures var r := EvalBlock(EmptyThenText(inner, args, text), env); r.output == text && SpentAt(r.env, inner)
  {
    var n := SectionNode(inner, args, Done, NoElse);
    var attrs := args(Unset(env, inner));
    var plan := SectionLoop.Planned(attrs);
    var begun := SetSection(env, inner, SectionRecord(PropsFor(attrs, plan), None, None));
    EmptyPassesSilent(inner, PropsFor(attrs, plan), plan, 0, begun);
    assert Apart(Done, {inner}, {}) && {} + {inner} == {inner} && ApartNode(n, {}, {});
    SharedNodeIsMeant(n, {}, {}, env);
    NodeKeepsOrSpends(n, inner, env);
    assert EvalNode(n, env).output == "";
    assert EvalBlock(Block.Then(Print(_ => text), Done), EvalNode(n, env).env).output == text + "";
    assert "" + (text + "") == text;
  }

  /** Every pass prints the text. */
  lemma PassesPrint(
    name: string, inner: string, args: SectionArgs, text: string, props: SectionLoop.Props, plan: seq<int>, k: nat,
    env: Env)
    requires k <= |plan| && text != ""
    ensures EvalPasses(name, EmptyThenText(inner, args, text), props, plan, k, env).output == "" <==> k == |plan|
  {
    if k < |plan| { BodyPrints(inner, args, text, SetSection(env, name, PassRecord(props, plan, k))); }
  }

  /**
   For all names, attributes and texts: nesting two sections preserves the output exactly
   if the names differ or the outer section visits at most one index.
   */
  lemma NestingPreservedExactly(
    reg: Registry, outer: string, inner: string, outerArgs: SectionArgs, innerArgs: SectionArgs, text: string, env: Env)
    requires text != ""
    ensures OutputPreserved(reg, Nested(outer, inner, outerArgs, innerArgs, text), env)
            <==> outer != inner || |SectionLoop.Planned(outerArgs(Unset(env, outer)))| <= 1
  {
    var body := EmptyThenText(inner, innerArgs, text);
    if outer != inner {
      NestedIsPlain(outer, inner, outerArgs, innerArgs, text);
      CompilationPreservesMeaning(reg, Nested(outer, inner, outerArgs, innerArgs, text), env);
    } else {
      EmptyThenTextIsApart(inner, innerArgs, text, {});
      SectionPreservedExactly(reg, outer, outerArgs, body, NoElse, env);
      var attrs := outerArgs(Unset(env, outer));
      var plan := SectionLoop.Planned(attrs);
      var begun := SetSection(env, outer, SectionRecord(PropsFor(attrs, plan), None, None));
      AllButOneLost(outer, innerArgs, text, PropsFor(attrs, plan), plan, begun);
    }
  }

  /** The inner section spends the record in the first pass already. */
  lemma AllButOneLost(name: string, args: SectionArgs, text: string, props: SectionLoop.Props, plan: seq<int>, env: Env)
    requires text != ""
    ensures LostPasses(name, EmptyThenText(name, args, text), props, plan, 0, env) == "" <==> |plan| <= 1
  {
    if plan != [] {
      var rec := PassRecord(props, plan, 0);
      var start := SetSection(env, name, rec);
      BodyPrints(name, args, text, start);
      var left := rec.(cursor := Some(Cursor(plan[0] + props.step, 2)));
      var r1 := EvalBlock(EmptyThenText(name, args, text), start);
      var next := SetSection(r1.env, name, left);
      PassesStep(name, EmptyThenText(name, args, text), props, plan, 0, env, r1, next);
      PassesPrint(name, name, args, text, props, plan, 1, next);
    }
  }

  function LoopOver(n: int): SectionArgs {
    _ => SectionLoop.Attributes(Some(SectionLoop.Number(n)), None, None, None, None)
  }

  lemma PlannedTwo()
    ensures SectionLoop.Planned(SectionLoop.Attributes(Some(SectionLoop.Number(2)), None, None, None, None)) == [0, 1]
  {
    assert SectionLoop.Visits(2, 1, 2, 0) == [];
    assert SectionLoop.Visits(1, 1, 2, 1) == [1];
  }

  /** {section name=s loop=2}{section name=s loop=1}{/section}x{/section} means xx, which is not what it prints. */
  lemma SameNameChangesMeaning(reg: Registry, name: string, env: Env)
    ensures !OutputPreserved(reg, Nested(name, name, LoopOver(2), LoopOver(1), "x"), env)
  {
    PlannedTwo();
    NestingPreservedExactly(reg, name, name, LoopOver(2), LoopOver(1), "x", env);
  }

  /** Two names may be used for nested sections, with all attributes and in all environments, exactly if they differ. */
  lemma SectionNamesExactly(reg: Registry, outer: string, inner: string)
    ensures (forall outerArgs: SectionArgs, innerArgs: SectionArgs, text: string, env: Env ::
               OutputPreserved(reg, Nested(outer, inner, outerArgs, innerArgs, text), env))
            <==> outer != inner
  {
    if outer != inner {
      forall outerArgs: SectionArgs, innerArgs: SectionArgs, text: string, env: Env
        ensures OutputPreserved(reg, Nested(outer, inner, outerArgs, innerArgs, text), env)
      {
        NestedIsPlain(outer, inner, outerArgs, innerArgs, text);
        CompilationPreservesMeaning(reg, Nested(outer, inner, outerArgs, innerArgs, text), env);
      }
    } else {
      SameNameChangesMeaning(reg, outer, Env(map[], map[], map[]));
    }
  }
}
