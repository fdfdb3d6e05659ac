/**
 Trees with loop records shared by name, as compiled code shares them. Where names are
 kept apart this is the meaning of the tree.
 */
module Sharing {
  import opened Options
  import opened Template
  import opened PhpControl
  import opened Meaning
  import SectionLoop

  // ----- shared records -----

  /** The record of a loop that is over: its next increment, or that of any other loop on it, ends the loop. */
  predicate Spent(rec: SectionRecord) {
    match rec.cursor
    case None => rec.props.total <= 0
    case Some(Cursor(_, iteration)) => iteration > rec.props.total
  }

  predicate SpentAt(env: Env, name: string) {
    name in env.sections && Spent(env.sections[name])
  }

  predicate SameAt(a: Env, b: Env, name: string) {
    (name in a.sections <==> name in b.sections) && (name in a.sections ==> a.sections[name] == b.sections[name])
  }

  /** The counter of a pass is whatever the pass before it has left, counted up by one. */
  function Counted(env: Env, each: ForeachArgs, e: Entry): Env {
    var bound := BindEntry(env, each, e);
    if each.name.None? || each.name.value !in bound.loops then bound
    else
      var c := bound.loops[each.name.value];
      SetCounter(bound, each.name, c.(iteration := c.iteration + 1))
  }

  // ----- evaluation with shared records -----

  function SharedBlock(b: Block, env: Env): Result
    decreases b, 0, 0
  {
    match b
    case Done => Result(env, "")
    case Then(n, rest) =>
      var r1 := SharedNode(n, env);
      var r2 := SharedBlock(rest, r1.env);
      Result(r2.env, r1.output + r2.output)
  }

  function SharedNode(n: Node, env: Env): Result
    decreases n, 0, 0
  {
    match n
    case Print(_) => EvalNode(n, env)
    case Call(_, _) => EvalNode(n, env)
    case Choice(c, body, tail) => if c(env) then SharedBlock(body, env) else SharedTail(tail, env)
    case SectionNode(name, args, body, elses) =>
      var attrs := args(Unset(env, name));
      var plan := SectionLoop.Planned(attrs);
      var begun := SetSection(env, name, SectionRecord(PropsFor(attrs, plan), None, None));
      if plan != [] then SharedPasses(name, body, PropsFor(attrs, plan), plan, 0, begun) else SharedElses(elses, begun)
    case ForeachNode(each, body, elses) =>
      var entries := AsArray(each.from(env));
      var begun := SetCounter(env, each.name, Counter(|entries|, 0));
      if entries != [] then SharedEntries(each, body, entries, 0, begun) else SharedElses(elses, begun)
    case StripNode(_) => Result(env, "")
    case PluginNode(_, _) => Result(env, "")
  }

  function SharedTail(t: Tail, env: Env): Result
    decreases t, 0, 0
  {
    match t
    case NoTail => Result(env, "")
    case ElseIfTail(c, body, more) => if c(env) then SharedBlock(body, env) else SharedTail(more, env)
    case ElseTail(body) => SharedBlock(body, env)
  }

  function SharedElses(e: Elses, env: Env): Result
    decreases e, 0, 0
  {
    match e
    case NoElse => Result(env, "")
    case ElseBody(body, _) => SharedBlock(body, env)
  }

  /** The passes up to the first in which a section of the same name is run. */
  function SharedPasses(name: string, body: Block, props: SectionLoop.Props, plan: seq<int>, k: nat, env: Env): Result
    requires k <= |plan|
    decreases body, 1, |plan| - k
  {
    if k == |plan| then Result(env, "")
    else
      var rec := PassRecord(props, plan, k);
      var r1 := SharedBlock(body, SetSection(env, name, rec));
      if SpentAt(r1.env, name) then Result(SetSection(r1.env, name, Advance(r1.env.sections[name])), r1.output)
      else
        var left := rec.(cursor := Some(Cursor(plan[k] + props.step, k + 2)));
        var r2 := SharedPasses(name, body, props, plan, k + 1, SetSection(r1.env, name, left));
        Result(r2.env, r1.output + r2.output)
  }

  /** All entries are run, but with the counter as the body leaves it. */
  function SharedEntries(each: ForeachArgs, body: Block, entries: seq<Entry>, k: nat, env: Env): Result
    requires k <= |entries|
    decreases body, 1, |entries| - k
  {
    if k == |entries| then Result(env, "")
    else
      var r1 := SharedBlock(body, Counted(env, each, entries[k]));
      var r2 := SharedEntries(each, body, entries, k + 1, r1.env);
      Result(r2.env, r1.output + r2.output)
  }

  // ----- what running a tree does to the records -----

  /** The record of this section is kept or spent, and no counter is taken away. */
  predicate KeptOrSpent(a: Env, b: Env, name: string) {
    (SameAt(a, b, name) || SpentAt(b, name)) && a.loops.Keys <= b.loops.Keys
  }

  /** Running a tree keeps the record of a section, or leaves it spent by a section of that name. */
  lemma {:induction false} BlockKeepsOrSpends(b: Block, name: string, env: Env)
    ensures KeptOrSpent(env, SharedBlock(b, env).env, name)
    decreases b, 0, 0
  {
    match b
    case Done =>
    case Then(n, rest) =>
      NodeKeepsOrSpends(n, name, env);
      BlockKeepsOrSpends(rest, name, SharedNode(n, env).env);
  }

  lemma {:induction false} NodeKeepsOrSpends(n: Node, name: string, env: Env)
    ensures KeptOrSpent(env, SharedNode(n, env).env, name)
    ensures n.SectionNode? && n.name == name ==> SpentAt(SharedNode(n, env).env, name)
    decreases n, 0, 0
  {
    match n
    case Print(_) =>
    case Call(_, _) =>
    case Choice(c, body, tail) =>
      if c(env) { BlockKeepsOrSpends(body, name, env); } else { TailKeepsOrSpends(tail, name, env); }
    case SectionNode(inner, args, body, elses) =>
      var attrs := args(Unset(env, inner));
      var plan := SectionLoop.Planned(attrs);
      var begun := SetSection(env, inner, SectionRecord(PropsFor(attrs, plan), None, None));
      if plan != [] {
        PassesKeepOrSpend(inner, body, PropsFor(attrs, plan), plan, 0, name, begun);
      } else if elses.ElseBody? {
        BlockKeepsOrSpends(elses.body, name, begun);
      }
    case ForeachNode(each, body, elses) =>
      var entries := AsArray(each.from(env));
      var begun := SetCounter(env, each.name, Counter(|entries|, 0));
      if entries != [] {
        EntriesKeepOrSpend(each, body, entries, 0, name, begun);
      } else if elses.ElseBody? {
        BlockKeepsOrSpends(elses.body, name, begun);
      }
    case StripNode(_) =>
    case PluginNode(_, _) =>
  }

  lemma {:induction false} TailKeepsOrSpends(t: Tail, name: string, env: Env)
    ensures KeptOrSpent(env, SharedTail(t, env).env, name)
    decreases t, 0, 0
  {
    match t
    case NoTail =>
    case ElseIfTail(c, body, more) =>
      if c(env) { BlockKeepsOrSpends(body, name, env); } else { TailKeepsOrSpends(more, name, env); }
    case ElseTail(body) => BlockKeepsOrSpends(body, name, env);
  }

  lemma {:induction false} PassesKeepOrSpend(
    inner: string, body: Block, props: SectionLoop.Props, plan: seq<int>, k: nat, name: string, env: Env)
    requires k <= |plan| && props.total == |plan|
    ensures var end := SharedPasses(inner, body, props, plan, k, env).env;
            && env.loops.Keys <= end.loops.Keys
            && if inner != name then SameAt(env, end, name) || SpentAt(end, name)
               else if k == |plan| then end == env
               else SpentAt(end, name)
    decreases body, 1, |plan| - k
  {
    if k < |plan| {
      var rec := PassRecord(props, plan, k);
      var start := SetSection(env, inner, rec);
      BlockKeepsOrSpends(body, name, start);
      var r1 := SharedBlock(body, start);
      if !SpentAt(r1.env, inner) {
        var left := rec.(cursor := Some(Cursor(plan[k] + props.step, k + 2)));
        PassesKeepOrSpend(inner, body, props, plan, k + 1, name, SetSection(r1.env, inner, left));
      }
    }
  }

  lemma {:induction false} EntriesKeepOrSpend(
    each: ForeachArgs, body: Block, entries: seq<Entry>, k: nat, name: string, env: Env)
    requires k <= |entries|
    ensures KeptOrSpent(env, SharedEntries(each, body, entries, k, env).env, name)
    decreases body, 1, |entries| - k
  {
    if k < |entries| {
      var counted := Counted(env, each, entries[k]);
      BlockKeepsOrSpends(body, name, counted);
      EntriesKeepOrSpend(each, body, entries, k + 1, name, SharedBlock(body, counted).env);
    }
  }

  // ----- where names are kept apart -----

  /** Nothing is shared by loops that are named apart: evaluation is the meaning. */
  lemma {:induction false} SharedIsMeant(b: Block, sections: set<string>, loops: set<string>, env: Env)
    requires Apart(b, sections, loops)
    ensures SharedBlock(b, env) == EvalBlock(b, env)
    decreases b, 0, 0
  {
    match b
    case Done =>
    case Then(n, rest) =>
      SharedNodeIsMeant(n, sections, loops, env);
      SharedIsMeant(rest, sections, loops, EvalNode(n, env).env);
  }

  lemma {:induction false} SharedNodeIsMeant(n: Node, sections: set<string>, loops: set<string>, env: Env)
    requires ApartNode(n, sections, loops)
    ensures SharedNode(n, env) == EvalNode(n, env)
    decreases n, 0, 0
  {
    match n
    case Print(_) =>
    case Call(_, _) =>
    case Choice(c, body, tail) =>
      if c(env) { SharedIsMeant(body, sections, loops, env); } else { SharedTailIsMeant(tail, sections, loops, env); }
    case SectionNode(name, args, body, elses) =>
      var attrs := args(Unset(env, name));
      var plan := SectionLoop.Planned(attrs);
      var begun := SetSection(env, name, SectionRecord(PropsFor(attrs, plan), None, None));
      if plan != [] {
        SharedPassesAreMeant(name, body, PropsFor(attrs, plan), plan, 0, sections, loops, begun);
      } else if elses.ElseBody? {
        SharedIsMeant(elses.body, sections, loops, begun);
      }
    case ForeachNode(each, body, elses) =>
      var entries := AsArray(each.from(env));
      var begun := SetCounter(env, each.name, Counter(|entries|, 0));
      if entries != [] {
        SharedEntriesAreMeant(each, body, entries, 0, sections, loops, begun);
      } else if elses.ElseBody? {
        SharedIsMeant(elses.body, sections, loops, begun);
      }
    case StripNode(_) =>
    case PluginNode(_, _) =>
  }

  lemma {:induction false} SharedTailIsMeant(t: Tail, sections: set<string>, loops: set<string>, env: Env)
    requires ApartTail(t, sections, loops)
    ensures SharedTail(t, env) == EvalTail(t, env)
    decreases t, 0, 0
  {
    match t
    case NoTail =>
    case ElseIfTail(c, body, more) =>
      if c(env) { SharedIsMeant(body, sections, loops, env); } else { SharedTailIsMeant(more, sections, loops, env); }
    case ElseTail(body) => SharedIsMeant(body, sections, loops, env);
  }

  lemma {:induction false} SharedPassesAreMeant(
    name: string, body: Block, props: SectionLoop.Props, plan: seq<int>, k: nat,
    sections: set<string>, loops: set<string>, env: Env)
    requires k <= |plan| && props.total == |plan| && Apart(body, sections + {name}, loops)
    ensures SharedPasses(name, body, props, plan, k, env) == EvalPasses(name, body, props, plan, k, env)
    decreases body, 1, |plan| - k
  {
    if k < |plan| {
      var rec := PassRecord(props, plan, k);
      var start := SetSection(env, name, rec);
      SharedIsMeant(body, sections + {name}, loops, start);
      BlockFrame(body, sections + {name}, loops, start);
      var r1 := EvalBlock(body, start);
      NotSpent(props, plan, k, sections, loops, name, start, r1.env);
      var left := rec.(cursor := Some(Cursor(plan[k] + props.step, k + 2)));
      SharedPassesAreMeant(name, body, props, plan, k + 1, sections, loops, SetSection(r1.env, name, left));
    }
  }

  /** The record of a pass is not spent if it is left alone. */
  lemma NotSpent(
    props: SectionLoop.Props, plan: seq<int>, k: nat, sections: set<string>, loops: set<string>, name: string,
    start: Env, end: Env)
    requires k < |plan| && props.total == |plan| && Agree(start, end, sections + {name}, loops)
    requires name in start.sections && start.sections[name] == PassRecord(props, plan, k)
    ensures !SpentAt(end, name)
  {
    assert name in sections + {name};
  }

  lemma {:induction false} SharedEntriesAreMeant(
    each: ForeachArgs, body: Block, entries: seq<Entry>, k: nat, sections: set<string>, loops: set<string>, env: Env)
    requires k <= |entries| && Apart(body, sections, loops + NameOf(each))
    requires each.name.Some? ==>
               each.name.value in env.loops && env.loops[each.name.value] == Counter(|entries|, k)
    ensures SharedEntries(each, body, entries, k, env) == EvalEntries(each, body, entries, k, env)
    decreases body, 1, |entries| - k
  {
    if k < |entries| {
      var counted := Counted(env, each, entries[k]);
      assert counted == SetCounter(BindEntry(env, each, entries[k]), each.name, Counter(|entries|, k + 1));
      SharedIsMeant(body, sections, loops + NameOf(each), counted);
      BlockFrame(body, sections, loops + NameOf(each), counted);
      assert each.name.Some? ==> each.name.value in loops + NameOf(each);
      SharedEntriesAreMeant(each, body, entries, k + 1, sections, loops, EvalBlock(body, counted).env);
    }
  }
}
