/** What the tags inside a tag see, and so what compiled templates print around plain output. */
module LoopViews {
  import opened Options
  import opened Template
  import opened TagMachine
  import opened PhpControl
  import opened Meaning
  import opened Printing
  import SectionLoop

  function Output(text: Printer): Block {
    Block.Then(Print(text), Done)
  }

  lemma OutputEvals(text: Printer, env: Env)
    ensures EvalBlock(Output(text), env) == Result(env, text(env))
  {
    Nothing(text(env));
  }

  lemma OutputIsPlain(text: Printer, sections: set<string>, loops: set<string>)
    ensures Control(Output(text)) && Apart(Output(text), sections, loops)
  {
    assert Control(Done) && Apart(Done, sections, loops);
  }

  /** The compiled template ends, prints this and leaves this environment. */
  ghost predicate Does(reg: Registry, b: Block, env: Env, end: Env, output: string) {
    match CompileToPhp(reg, Flatten(b))
    case None => false
    case Some(php) => Yields(php, PhpState(env, None), end, output)
  }

  lemma PlainDoes(reg: Registry, n: Node, env: Env)
    requires ControlNode(n) && ApartNode(n, {}, {})
    ensures Does(reg, Alone(n), env, EvalNode(n, env).env, EvalNode(n, env).output)
  {
    assert Control(Done) && Apart(Done, {}, {});
    CompilationPreservesMeaning(reg, Alone(n), env);
    OnlyNode(n, env);
  }

  // ----- if -----

  /** {if c}first{elseif d}second{else}third{/if}, and without the else part. */
  lemma IfDoes(reg: Registry, c: Condition, d: Condition, first: Printer, second: Printer, third: Printer, env: Env)
    ensures Does(reg, Alone(Choice(c, Output(first), ElseIfTail(d, Output(second), ElseTail(Output(third))))), env, env,
                 if c(env) then first(env) else if d(env) then second(env) else third(env))
    ensures Does(reg, Alone(Choice(c, Output(first), NoTail)), env, env, if c(env) then first(env) else "")
  {
    OutputIsPlain(first, {}, {});
    OutputIsPlain(second, {}, {});
    OutputIsPlain(third, {}, {});
    OutputEvals(first, env);
    OutputEvals(second, env);
    OutputEvals(third, env);
    var last := ElseTail(Output(third));
    var tail := ElseIfTail(d, Output(second), last);
    assert ControlTail(last) && ApartTail(last, {}, {});
    assert ControlTail(tail) && ApartTail(tail, {}, {}) && ControlTail(NoTail) && ApartTail(NoTail, {}, {});
    PlainDoes(reg, Choice(c, Output(first), tail), env);
    PlainDoes(reg, Choice(c, Output(first), NoTail), env);
    assert EvalTail(last, env) == EvalBlock(Output(third), env);
    assert EvalTail(tail, env) == if d(env) then EvalBlock(Output(second), env) else EvalTail(last, env);
    assert EvalNode(Choice(c, Output(first), tail), env)
        == Result(env, if c(env) then first(env) else if d(env) then second(env) else third(env));
    assert EvalNode(Choice(c, Output(first), NoTail), env) == Result(env, if c(env) then first(env) else "");
  }

  // ----- function plugins -----

  /** A function plugin prints its output, and what comes behind it sees the variables it leaves. */
  lemma CallDoes(reg: Registry, plugin: string, action: Action, text: Printer, env: Env)
    ensures var end := env.(vars := action(env).vars);
            Does(reg, Block.Then(Call(plugin, action), Output(text)), env, end, action(env).output + text(end))
  {
    var b := Block.Then(Call(plugin, action), Output(text));
    OutputIsPlain(text, {}, {});
    OutputEvals(text, env.(vars := action(env).vars));
    assert ControlNode(b.node) && ApartNode(b.node, {}, {});
    CompilationPreservesMeaning(reg, b, env);
    var end := env.(vars := action(env).vars);
    assert EvalBlock(b, env) == Result(end, action(env).output + text(end));
  }

  // ----- sections -----

  /** What a section shows in its k-th pass, counted from 0. */
  function SectionView(env: Env, name: string, p: SectionLoop.Props, plan: seq<int>, k: nat): Env
    requires k < |plan|
  {
    var pass := Pass(k + 1, plan[k] - p.step, plan[k] + p.step, k == 0, k == |plan| - 1);
    env.(sections := env.sections[name := SectionRecord(p, Some(Cursor(plan[k], k + 1)), Some(pass))])
  }

  /** The index before and after, where there is one, is the one of the neighbouring pass. */
  lemma NeighbouringPasses(a: SectionLoop.Attributes, k: nat)
    requires k < |SectionLoop.Planned(a)|
    ensures var step, plan := SectionLoop.Setup(a).step, SectionLoop.Planned(a);
            (k > 0 ==> plan[k] - step == plan[k - 1]) && (k + 1 < |plan| ==> plan[k] + step == plan[k + 1])
  {
    SetupIsPlan(a);
    var step := SectionLoop.Setup(a).step;
    assert (k + 1) * step == k * step + step && (k - 1) * step == k * step - step;
  }

  function SectionTexts(text: Printer, env: Env, name: string, p: SectionLoop.Props, plan: seq<int>, k: nat): string
    requires k <= |plan|
    decreases |plan| - k
  {
    if k == |plan| then ""
    else text(SectionView(env, name, p, plan, k)) + SectionTexts(text, env, name, p, plan, k + 1)
  }

  /** Two environments that differ in this section only. */
  predicate ButSection(a: Env, b: Env, name: string) {
    a.vars == b.vars && a.loops == b.loops && a.sections - {name} == b.sections - {name}
  }

  lemma SameOnceSet(a: Env, b: Env, name: string, rec: SectionRecord)
    requires ButSection(a, b, name)
    ensures SetSection(a, name, rec) == SetSection(b, name, rec) && ButSection(SetSection(a, name, rec), b, name)
  {
    assert a.sections[name := rec] == (a.sections - {name})[name := rec];
    assert b.sections[name := rec] == (b.sections - {name})[name := rec];
    assert a.sections[name := rec] - {name} == a.sections - {name};
  }

  /** What a section leaves behind: the view of its last pass, gone one step further. */
  function SectionLeft(env: Env, name: string, p: SectionLoop.Props, plan: seq<int>): Env
    requires plan != []
  {
    var n := |plan|;
    var pass := Pass(n, plan[n - 1] - p.step, plan[n - 1] + p.step, n == 1, true);
    env.(sections := env.sections[name := SectionRecord(p, Some(Cursor(plan[n - 1] + p.step, n + 1)), Some(pass))])
  }

  lemma {:induction false} PassesShow(
    text: Printer, env: Env, now: Env, name: string, p: SectionLoop.Props, plan: seq<int>, k: nat)
    requires k <= |plan| && ButSection(now, env, name)
    requires k == |plan| > 0 ==> now == SectionLeft(env, name, p, plan)
    ensures plan != [] ==>
              EvalPasses(name, Output(text), p, plan, k, now)
              == Result(SectionLeft(env, name, p, plan), SectionTexts(text, env, name, p, plan, k))
    decreases |plan| - k
  {
    if k < |plan| {
      var next := PassShows(text, env, now, name, p, plan, k);
      PassesShow(text, env, next, name, p, plan, k + 1);
    }
  }

  /** One pass, and the passes behind it. */
  lemma PassShows(
    text: Printer, env: Env, now: Env, name: string, p: SectionLoop.Props, plan: seq<int>, k: nat)
    returns (next: Env)
    requires k < |plan| && ButSection(now, env, name)
    ensures ButSection(next, env, name) && (k + 1 == |plan| ==> next == SectionLeft(env, name, p, plan))
    ensures var more := EvalPasses(name, Output(text), p, plan, k + 1, next);
            EvalPasses(name, Output(text), p, plan, k, now)
            == Result(more.env, text(SectionView(env, name, p, plan, k)) + more.output)
  {
    var rec := PassRecord(p, plan, k);
    var at := SetSection(now, name, rec);
    SameOnceSet(now, env, name, rec);
    OutputEvals(text, at);
    var left := rec.(cursor := Some(Cursor(plan[k] + p.step, k + 2)));
    SameOnceSet(at, env, name, left);
    next := SetSection(at, name, left);
  }

  /**
   For every section around plain output, with plain output for no pass at all: the
   compiled code prints the output once for each index of the plan, as it is with the
   record of the section for that index, or else the other output.
   */
  lemma SectionDoes(reg: Registry, name: string, args: SectionArgs, text: Printer, other: Printer, env: Env)
    ensures var tree := Alone(SectionNode(name, args, Output(text), ElseBody(Output(other), NoElse)));
            var a := args(env.(sections := env.sections - {name}));
            var p, plan := SectionLoop.Setup(a), SectionLoop.Planned(a);
            var none := env.(sections := env.sections[name := SectionRecord(p, None, None)]);
            if plan == [] then Does(reg, tree, env, none, other(none))
            else Does(reg, tree, env, SectionLeft(env, name, p, plan), SectionTexts(text, env, name, p, plan, 0))
  {
    var elses := ElseBody(Output(other), NoElse);
    var n := SectionNode(name, args, Output(text), elses);
    var a := args(Unset(env, name));
    var p, plan := SectionLoop.Setup(a), SectionLoop.Planned(a);
    var begun := SetSection(env, name, SectionRecord(p, None, None));
    SetupIsPlan(a);
    SameOnceSet(env, env, name, SectionRecord(p, None, None));
    OutputIsPlain(text, {} + {name}, {});
    OutputIsPlain(other, {}, {});
    assert ControlElses(elses) && ApartElses(elses, {}, {}) by {
      assert ControlElses(NoElse) && ApartElses(NoElse, {}, {});
    }
    assert ControlNode(n) && ApartNode(n, {}, {});
    PlainDoes(reg, n, env);
    if plan == [] {
      OutputEvals(other, begun);
      assert EvalNode(n, env) == Result(begun, other(begun));
    } else {
      PassesShow(text, env, begun, name, p, plan, 0);
      assert EvalNode(n, env) == Result(SectionLeft(env, name, p, plan), SectionTexts(text, env, name, p, plan, 0));
    }
  }

  // ----- foreach -----

  /** The entries of what a foreach goes through: nothing, one, or those of an array. */
  function EntriesOf(v: Value): seq<Entry> {
    match v
    case Null => []
    case Scalar(_) => [Entry("0", v)]
    case Array(entries) => entries
  }

  /** What a foreach shows for its k-th entry. */
  function ForeachView(env: Env, each: ForeachArgs, entries: seq<Entry>, k: nat): Env
    requires k < |entries|
  {
    var vars := env.vars[each.item := entries[k].value];
    Env(if each.key.None? then vars else vars[each.key.value := Scalar(entries[k].key)],
        env.sections,
        if each.name.None? then env.loops else env.loops[each.name.value := Counter(|entries|, k + 1)])
  }

  function ForeachTexts(text: Printer, env: Env, each: ForeachArgs, entries: seq<Entry>, k: nat): string
    requires k <= |entries|
    decreases |entries| - k
  {
    if k == |entries| then ""
    else text(ForeachView(env, each, entries, k)) + ForeachTexts(text, env, each, entries, k + 1)
  }

  /** Two environments that differ in what the foreach sets only. */
  predicate ButForeach(a: Env, b: Env, each: ForeachArgs) {
    var own := {each.item} + if each.key.Some? then {each.key.value} else {};
    a.vars - own == b.vars - own && a.sections == b.sections && a.loops - NameOf(each) == b.loops - NameOf(each)
  }

  lemma SameOnceBound(a: Env, b: Env, each: ForeachArgs, entries: seq<Entry>, k: nat)
    requires ButForeach(a, b, each) && k < |entries|
    ensures var bound := SetCounter(BindEntry(a, each, entries[k]), each.name, Counter(|entries|, k + 1));
            bound == ForeachView(b, each, entries, k) && ButForeach(bound, b, each)
  {
    var e := entries[k];
    SameVars(a.vars, b.vars, each.item, each.key, e.value, Scalar(e.key));
    if each.name.Some? {
      SameMap(a.loops, b.loops, each.name.value, Counter(|entries|, k + 1));
    } else {
      assert a.loops == a.loops - {} == b.loops;
    }
  }

  lemma SameMap<T>(a: map<string, T>, b: map<string, T>, key: string, v: T)
    requires a - {key} == b - {key}
    ensures a[key := v] == b[key := v] && a[key := v] - {key} == b - {key}
  {
    assert a[key := v] == (a - {key})[key := v] && b[key := v] == (b - {key})[key := v];
  }

  lemma SameVars(
    a: map<string, Value>, b: map<string, Value>, item: string, key: Option<string>, v: Value, w: Value)
    requires var own := {item} + if key.Some? then {key.value} else {}; a - own == b - own
    ensures var own := {item} + if key.Some? then {key.value} else {};
            var x, y := a[item := v], b[item := v];
            if key.None? then x == y && x - own == b - own
            else x[key.value := w] == y[key.value := w] && x[key.value := w] - own == b - own
  {
    var own := {item} + if key.Some? then {key.value} else {};
    var rest := a - own;
    var x, y := a[item := v], b[item := v];
    if key.None? {
      assert x == rest[item := v] && y == rest[item := v];
    } else {
      assert x[key.value := w] == rest[item := v][key.value := w];
      assert y[key.value := w] == rest[item := v][key.value := w];
    }
  }

  lemma {:induction false} EntriesShow(
    text: Printer, env: Env, now: Env, each: ForeachArgs, entries: seq<Entry>, k: nat)
    requires k <= |entries| && ButForeach(now, env, each)
    requires k == |entries| > 0 ==> now == ForeachView(env, each, entries, k - 1)
    ensures entries != [] ==>
              EvalEntries(each, Output(text), entries, k, now)
              == Result(ForeachView(env, each, entries, |entries| - 1), ForeachTexts(text, env, each, entries, k))
    decreases |entries| - k
  {
    if k < |entries| {
      var bound := SetCounter(BindEntry(now, each, entries[k]), each.name, Counter(|entries|, k + 1));
      SameOnceBound(now, env, each, entries, k);
      OutputEvals(text, bound);
      EntriesShow(text, env, bound, each, entries, k + 1);
    }
  }

  /** The same for every foreach, which leaves what it showed last. */
  lemma ForeachDoes(reg: Registry, each: ForeachArgs, text: Printer, other: Printer, env: Env)
    ensures var tree := Alone(ForeachNode(each, Output(text), ElseBody(Output(other), NoElse)));
            var entries := EntriesOf(each.from(env));
            var none := if each.name.None? then env else env.(loops := env.loops[each.name.value := Counter(0, 0)]);
            if entries == [] then Does(reg, tree, env, none, other(none))
            else Does(reg, tree, env, ForeachView(env, each, entries, |entries| - 1),
                      ForeachTexts(text, env, each, entries, 0))
  {
    var elses := ElseBody(Output(other), NoElse);
    var n := ForeachNode(each, Output(text), elses);
    var entries := EntriesOf(each.from(env));
    var begun := SetCounter(env, each.name, Counter(|entries|, 0));
    OutputIsPlain(text, {}, {} + NameOf(each));
    OutputIsPlain(other, {}, {});
    assert ControlElses(elses) && ApartElses(elses, {}, {}) by {
      assert ControlElses(NoElse) && ApartElses(NoElse, {}, {});
    }
    assert ControlNode(n) && ApartNode(n, {}, {});
    PlainDoes(reg, n, env);
    if entries == [] {
      OutputEvals(other, begun);
      assert EvalNode(n, env) == Result(begun, other(begun));
    } else {
      if each.name.Some? { SameMap(env.loops, env.loops, each.name.value, Counter(|entries|, 0)); }
      EntriesShow(text, env, begun, each, entries, 0);
      assert EvalNode(n, env) == Result(ForeachView(env, each, entries, |entries| - 1),
                                        ForeachTexts(text, env, each, entries, 0));
    }
  }
}
