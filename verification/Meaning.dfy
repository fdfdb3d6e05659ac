/**
 The meaning of a template tree, read off the tree itself, and the trees for which
 compiled code can have that meaning.
 */
module Meaning {
  import opened Options
  import opened Template
  import opened PhpControl
  import opened Emission
  import SectionLoop

  // ----- what a template means -----

  datatype Result = Result(env: Env, output: string)

  function EvalBlock(b: Block, env: Env): Result
    decreases b, 0, 0
  {
    match b
    case Done => Result(env, "")
    case Then(n, rest) =>
      var r1 := EvalNode(n, env);
      var r2 := EvalBlock(rest, r1.env);
      Result(r2.env, r1.output + r2.output)
  }

  /** Strip and plugin blocks are not given a meaning here. */
  function EvalNode(n: Node, env: Env): Result
    decreases n, 0, 0
  {
    match n
    case Print(text) => Result(env, text(env))
    case Call(_, action) =>
      var effect := action(env);
      Result(env.(vars := effect.vars), effect.output)
    case Choice(c, body, tail) => if c(env) then EvalBlock(body, env) else EvalTail(tail, env)
    case SectionNode(name, args, body, elses) =>
      var attrs := args(Unset(env, name));
      var plan := SectionLoop.Planned(attrs);
      var begun := SetSection(env, name, SectionRecord(PropsFor(attrs, plan), None, None));
      if plan != [] then EvalPasses(name, body, PropsFor(attrs, plan), plan, 0, begun) else EvalElses(elses, begun)
    case ForeachNode(each, body, elses) =>
      var entries := AsArray(each.from(env));
      var begun := SetCounter(env, each.name, Counter(|entries|, 0));
      if entries != [] then EvalEntries(each, body, entries, 0, begun) else EvalElses(elses, begun)
    case StripNode(_) => Result(env, "")
    case PluginNode(_, _) => Result(env, "")
  }

  function EvalTail(t: Tail, env: Env): Result
    decreases t, 0, 0
  {
    match t
    case NoTail => Result(env, "")
    case ElseIfTail(c, body, more) => if c(env) then EvalBlock(body, env) else EvalTail(more, env)
    case ElseTail(body) => EvalBlock(body, env)
  }

  function EvalElses(e: Elses, env: Env): Result
    decreases e, 0, 0
  {
    match e
    case NoElse => Result(env, "")
    case ElseBody(body, _) => EvalBlock(body, env)
  }

  /** The properties of a section that is to visit the indices in `plan`. */
  function PropsFor(a: SectionLoop.Attributes, plan: seq<int>): SectionLoop.Props {
    SectionLoop.Props(SectionLoop.LoopOf(a), plan != [], SectionLoop.MaxOf(a),
                      SectionLoop.StepOf(a), SectionLoop.StartOf(a), |plan|)
  }

  /** The record a template sees in the pass that visits plan[k]. */
  function PassRecord(props: SectionLoop.Props, plan: seq<int>, k: nat): SectionRecord
    requires k < |plan|
  {
    SectionRecord(props, Some(Cursor(plan[k], k + 1)),
      Some(Pass(k + 1, plan[k] - props.step, plan[k] + props.step, k == 0, k + 1 == |plan|)))
  }

  /** One pass for each planned index, with the section record set for that index. */
  function EvalPasses(name: string, body: Block, props: SectionLoop.Props, plan: seq<int>, k: nat, env: Env): Result
    requires k <= |plan|
    decreases body, 1, |plan| - k
  {
    if k == |plan| then Result(env, "")
    else
      var rec := PassRecord(props, plan, k);
      var r1 := EvalBlock(body, SetSection(env, name, rec));
      var left := rec.(cursor := Some(Cursor(plan[k] + props.step, k + 2)));
      var r2 := EvalPasses(name, body, props, plan, k + 1, SetSection(r1.env, name, left));
      Result(r2.env, r1.output + r2.output)
  }

  /** One pass for each entry, with the item, the key and the counter set for that entry. */
  function EvalEntries(each: ForeachArgs, body: Block, entries: seq<Entry>, k: nat, env: Env): Result
    requires k <= |entries|
    decreases body, 1, |entries| - k
  {
    if k == |entries| then Result(env, "")
    else
      var bound := SetCounter(BindEntry(env, each, entries[k]), each.name, Counter(|entries|, k + 1));
      var r1 := EvalBlock(body, bound);
      var r2 := EvalEntries(each, body, entries, k + 1, r1.env);
      Result(r2.env, r1.output + r2.output)
  }

  // ----- the trees in question -----

  /** Control structure only, and at most one else per loop. */
  predicate Control(b: Block)
    decreases b, 0
  {
    match b
    case Done => true
    case Then(n, rest) => ControlNode(n) && Control(rest)
  }

  predicate ControlNode(n: Node)
    decreases n, 0
  {
    match n
    case Print(_) => true
    case Call(_, _) => true
    case Choice(_, body, tail) => Control(body) && ControlTail(tail)
    case SectionNode(_, _, body, elses) => Control(body) && ControlElses(elses)
    case ForeachNode(_, body, elses) => Control(body) && ControlElses(elses)
    case StripNode(_) => false
    case PluginNode(_, _) => false
  }

  predicate ControlTail(t: Tail)
    decreases t, 0
  {
    match t
    case NoTail => true
    case ElseIfTail(_, body, more) => Control(body) && ControlTail(more)
    case ElseTail(body) => Control(body)
  }

  predicate ControlElses(e: Elses)
    decreases e, 0
  {
    match e
    case NoElse => true
    case ElseBody(body, more) => Control(body) && more == NoElse
  }

  /** No section or named foreach inside the body of another one of the same name, nor of these names. */
  predicate Apart(b: Block, sections: set<string>, loops: set<string>)
    decreases b, 0
  {
    match b
    case Done => true
    case Then(n, rest) => ApartNode(n, sections, loops) && Apart(rest, sections, loops)
  }

  predicate ApartNode(n: Node, sections: set<string>, loops: set<string>)
    decreases n, 0
  {
    match n
    case Print(_) => true
    case Call(_, _) => true
    case Choice(_, body, tail) => Apart(body, sections, loops) && ApartTail(tail, sections, loops)
    case SectionNode(name, _, body, elses) =>
      name !in sections && Apart(body, sections + {name}, loops) && ApartElses(elses, sections, loops)
    case ForeachNode(each, body, elses) =>
      && (each.name.Some? ==> each.name.value !in loops)
      && Apart(body, sections, loops + NameOf(each))
      && ApartElses(elses, sections, loops)
    case StripNode(body) => Apart(body, sections, loops)
    case PluginNode(_, body) => Apart(body, sections, loops)
  }

  predicate ApartTail(t: Tail, sections: set<string>, loops: set<string>)
    decreases t, 0
  {
    match t
    case NoTail => true
    case ElseIfTail(_, body, more) => Apart(body, sections, loops) && ApartTail(more, sections, loops)
    case ElseTail(body) => Apart(body, sections, loops)
  }

  predicate ApartElses(e: Elses, sections: set<string>, loops: set<string>)
    decreases e, 0
  {
    match e
    case NoElse => true
    case ElseBody(body, more) => Apart(body, sections, loops) && ApartElses(more, sections, loops)
  }

  function NameOf(each: ForeachArgs): set<string> {
    if each.name.Some? then {each.name.value} else {}
  }

  /** A tree whose nested loops are named apart. */
  predicate Plain(b: Block) {
    Control(b) && Apart(b, {}, {})
  }

  lemma {:induction false} ControlHasOneElse(b: Block)
    requires Control(b)
    ensures OneElse(b)
    decreases b, 0
  {
    match b
    case Done =>
    case Then(n, rest) =>
      ControlNodeHasOneElse(n);
      ControlHasOneElse(rest);
  }

  lemma {:induction false} ControlNodeHasOneElse(n: Node)
    requires ControlNode(n)
    ensures OneElseNode(n)
    decreases n, 0
  {
    match n
    case Choice(_, body, tail) =>
      ControlHasOneElse(body);
      ControlTailHasOneElse(tail);
    case SectionNode(_, _, body, elses) =>
      ControlHasOneElse(body);
      if elses.ElseBody? { ControlHasOneElse(elses.body); }
    case ForeachNode(_, body, elses) =>
      ControlHasOneElse(body);
      if elses.ElseBody? { ControlHasOneElse(elses.body); }
    case _ =>
  }

  lemma {:induction false} ControlTailHasOneElse(t: Tail)
    requires ControlTail(t)
    ensures OneElseTail(t)
    decreases t, 0
  {
    match t
    case NoTail =>
    case ElseIfTail(_, body, more) =>
      ControlHasOneElse(body);
      ControlTailHasOneElse(more);
    case ElseTail(body) => ControlHasOneElse(body);
  }

  // ----- enclosing loops are left alone -----

  /** The records of these sections and counters of these loops are the same. */
  predicate Agree(a: Env, b: Env, sections: set<string>, loops: set<string>) {
    && (forall s :: s in sections ==>
          (s in a.sections <==> s in b.sections) && (s in a.sections ==> a.sections[s] == b.sections[s]))
    && (forall l :: l in loops ==> (l in a.loops <==> l in b.loops) && (l in a.loops ==> a.loops[l] == b.loops[l]))
  }

  lemma {:induction false} BlockFrame(b: Block, sections: set<string>, loops: set<string>, env: Env)
    requires Apart(b, sections, loops)
    ensures Agree(env, EvalBlock(b, env).env, sections, loops)
    decreases b, 0, 0
  {
    match b
    case Done =>
    case Then(n, rest) =>
      NodeFrame(n, sections, loops, env);
      BlockFrame(rest, sections, loops, EvalNode(n, env).env);
  }

  lemma {:induction false} NodeFrame(n: Node, sections: set<string>, loops: set<string>, env: Env)
    requires ApartNode(n, sections, loops)
    ensures Agree(env, EvalNode(n, env).env, sections, loops)
    decreases n, 0, 0
  {
    match n
    case Print(_) =>
    case Call(_, _) =>
    case Choice(c, body, tail) =>
      if c(env) { BlockFrame(body, sections, loops, env); } else { TailFrame(tail, sections, loops, env); }
    case SectionNode(name, args, body, elses) =>
      var attrs := args(Unset(env, name));
      var plan := SectionLoop.Planned(attrs);
      var begun := SetSection(env, name, SectionRecord(PropsFor(attrs, plan), None, None));
      if plan != [] { PassesFrame(name, body, PropsFor(attrs, plan), plan, 0, sections, loops, begun); }
      else if elses.ElseBody? { BlockFrame(elses.body, sections, loops, begun); }
    case ForeachNode(each, body, elses) =>
      var entries := AsArray(each.from(env));
      var begun := SetCounter(env, each.name, Counter(|entries|, 0));
      if entries != [] { EntriesFrame(each, body, entries, 0, sections, loops, begun); }
      else if elses.ElseBody? { BlockFrame(elses.body, sections, loops, begun); }
    case StripNode(_) =>
    case PluginNode(_, _) =>
  }

  lemma {:induction false} TailFrame(t: Tail, sections: set<string>, loops: set<string>, env: Env)
    requires ApartTail(t, sections, loops)
    ensures Agree(env, EvalTail(t, env).env, sections, loops)
    decreases t, 0, 0
  {
    match t
    case NoTail =>
    case ElseIfTail(c, body, more) =>
      if c(env) { BlockFrame(body, sections, loops, env); } else { TailFrame(more, sections, loops, env); }
    case ElseTail(body) => BlockFrame(body, sections, loops, env);
  }

  lemma {:induction false} PassesFrame(
    name: string, body: Block, props: SectionLoop.Props, plan: seq<int>, k: nat,
    sections: set<string>, loops: set<string>, env: Env)
    requires k <= |plan| && name !in sections && Apart(body, sections + {name}, loops)
    ensures Agree(env, EvalPasses(name, body, props, plan, k, env).env, sections, loops)
    decreases body, 1, |plan| - k
  {
    if k < |plan| {
      var rec := PassRecord(props, plan, k);
      var start := SetSection(env, name, rec);
      BlockFrame(body, sections + {name}, loops, start);
      var r1 := EvalBlock(body, start);
      var left := rec.(cursor := Some(Cursor(plan[k] + props.step, k + 2)));
      PassesFrame(name, body, props, plan, k + 1, sections, loops, SetSection(r1.env, name, left));
    }
  }

  lemma {:induction false} EntriesFrame(
    each: ForeachArgs, body: Block, entries: seq<Entry>, k: nat, sections: set<string>, loops: set<string>, env: Env)
    requires k <= |entries| && (each.name.Some? ==> each.name.value !in loops)
    requires Apart(body, sections, loops + NameOf(each))
    ensures Agree(env, EvalEntries(each, body, entries, k, env).env, sections, loops)
    decreases body, 1, |entries| - k
  {
    if k < |entries| {
      var bound := SetCounter(BindEntry(env, each, entries[k]), each.name, Counter(|entries|, k + 1));
      BlockFrame(body, sections, loops + NameOf(each), bound);
      EntriesFrame(each, body, entries, k + 1, sections, loops, EvalBlock(body, bound).env);
    }
  }

  // ----- the emitted prologue -----

  /** The plan is the arithmetic progression the emitted `for` runs through. */
  predicate Progression(props: SectionLoop.Props, plan: seq<int>) {
    props.total == |plan| && forall k :: 0 <= k < |plan| ==> plan[k] == props.start + k * props.step
  }

  /** The emitted prologue computes the properties of the planned visits. */
  lemma SetupIsPlan(a: SectionLoop.Attributes)
    ensures SectionLoop.Setup(a) == PropsFor(a, SectionLoop.Planned(a))
    ensures Progression(SectionLoop.Setup(a), SectionLoop.Planned(a))
  {
    SectionLoop.TotalExact(a);
    SectionLoop.MaxNonNegative(a);
    var props, plan := SectionLoop.Setup(a), SectionLoop.Planned(a);
    forall k | 0 <= k < |plan|
      ensures plan[k] == props.start + k * props.step
    {
      SectionLoop.VisitAt(SectionLoop.StartOf(a), SectionLoop.StepOf(a), SectionLoop.LoopOf(a),
                          SectionLoop.MaxOf(a), k);
    }
  }
}
