/**
 Nested foreachs of one name: they share the counter that the name stands for. What
 the compiled code then prints, and when that is what the tree means.
 */
module ForeachClash {
  import opened Options
  import opened Template
  import opened TagMachine
  import opened PhpControl
  import opened Meaning
  import opened Sharing
  import opened Printing

  /**
   For every foreach, whatever is in its body and however that is called: the compiled
   code runs the body for every entry, with the counter as the pass before has left it,
   and the output is preserved exactly if that is the output of the tree.
   */
  lemma ForeachPreservedExactly(reg: Registry, each: ForeachArgs, body: Block, elses: Elses, env: Env)
    requires Control(body) && ControlElses(elses)
    ensures var n := ForeachNode(each, body, elses);
            && Prints(reg, Alone(n), env, SharedNode(n, env).output)
            && (OutputPreserved(reg, Alone(n), env) <==> SharedNode(n, env).output == EvalNode(n, env).output)
  {
    var n := ForeachNode(each, body, elses);
    CompiledSharesRecords(reg, Alone(n), env);
    OnlyNode(n, env);
  }

  // ----- two foreachs, one in the other -----

  /** A way to write numbers that can be told apart. */
  type Writer = int -> string

  ghost predicate Distinct(write: Writer) {
    forall a, b :: write(a) == write(b) ==> a == b
  }

  /** {$smarty.foreach.name.total} */
  function Total(name: string, write: Writer): Printer {
    (env: Env) => if name in env.loops then write(env.loops[name].total) else ""
  }

  /** {$smarty.foreach.outer.total}{foreach from=from item=item name=inner}{/foreach} */
  function TotalThenEmpty(outer: string, inner: ForeachArgs, write: Writer): Block {
    Block.Then(Print(Total(outer, write)), Block.Then(ForeachNode(inner, Done, NoElse), Done))
  }

  function NestedForeach(
    outer: string, inner: string, from: Expression, item: string, innerFrom: Expression, innerItem: string,
    write: Writer): Block {
    Alone(ForeachNode(ForeachArgs(from, item, None, Some(outer)),
      TotalThenEmpty(outer, ForeachArgs(innerFrom, innerItem, None, Some(inner)), write), NoElse))
  }

  function Repeat(s: string, n: nat): string {
    if n == 0 then "" else s + Repeat(s, n - 1)
  }

  lemma {:induction false} RepeatLength(s: string, n: nat)
    ensures |Repeat(s, n)| == n * |s|
  {
    if n > 0 {
      RepeatLength(s, n - 1);
      assert n * |s| == (n - 1) * |s| + |s|;
    }
  }

  lemma SameProduct(n: nat, a: int, b: int)
    requires n > 0 && n * a == n * b
    ensures a == b
  {
    assert n * (a - b) == 0;
  }

  /** A text that is repeated at least once can be read off the repetition. */
  lemma RepeatOnce(s: string, t: string, n: nat)
    requires n > 0 && Repeat(s, n) == Repeat(t, n)
    ensures s == t
  {
    RepeatLength(s, n);
    RepeatLength(t, n);
    SameProduct(n, |s|, |t|);
    assert Repeat(s, n)[..|s|] == s && Repeat(t, n)[..|t|] == t;
  }

  /** An empty foreach prints nothing and leaves its number of entries as the total. */
  lemma {:induction false} EmptyEntries(each: ForeachArgs, entries: seq<Entry>, k: nat, env: Env, name: string)
    requires k <= |entries| && each.name == Some(name)
    requires name in env.loops && env.loops[name].total == |entries|
    ensures var r := EvalEntries(each, Done, entries, k, env);
            r.output == "" && name in r.env.loops && r.env.loops[name].total == |entries|
    decreases |entries| - k
  {
    if k < |entries| {
      var bound := SetCounter(BindEntry(env, each, entries[k]), each.name, Counter(|entries|, k + 1));
      EmptyEntries(each, entries, k + 1, bound, name);
    }
  }

  lemma BodyTotals(outer: string, inner: ForeachArgs, write: Writer, env: Env)
    requires inner.name == Some(outer) && outer in env.loops
    ensures var r := EvalBlock(TotalThenEmpty(outer, inner, write), env);
            && r.output == write(env.loops[outer].total)
            && outer in r.env.loops && r.env.loops[outer].total == |AsArray(inner.from(env))|
  {
    var n := ForeachNode(inner, Done, NoElse);
    var entries := AsArray(inner.from(env));
    var begun := SetCounter(env, inner.name, Counter(|entries|, 0));
    EmptyEntries(inner, entries, 0, begun, outer);
    var r := EvalNode(n, env);
    assert r == if entries != [] then EvalEntries(inner, Done, entries, 0, begun) else EvalElses(NoElse, begun);
    assert r.output == "";
    var rest := Block.Then(n, Done);
    assert EvalBlock(rest, env).env == r.env && EvalBlock(rest, env).output == "" + "";
    var text := Total(outer, write)(env);
    assert text + ("" + "") == text;
  }

  /** The meaning: every pass prints the number of outer entries. */
  lemma {:induction false} MeantTotals(
    outer: string, each: ForeachArgs, inner: ForeachArgs, write: Writer, entries: seq<Entry>, k: nat, env: Env)
    requires k <= |entries| && each.name == Some(outer) && inner.name == Some(outer)
    ensures EvalEntries(each, TotalThenEmpty(outer, inner, write), entries, k, env).output
         == Repeat(write(|entries|), |entries| - k)
    decreases |entries| - k
  {
    if k < |entries| {
      var bound := SetCounter(BindEntry(env, each, entries[k]), each.name, Counter(|entries|, k + 1));
      BodyTotals(outer, inner, write, bound);
      MeantTotals(outer, each, inner, write, entries, k + 1, EvalBlock(TotalThenEmpty(outer, inner, write), bound).env);
    }
  }

  /** The body prints the total that is there, and leaves m. */
  predicate WritesTotal(body: Block, outer: string, write: Writer, m: nat, env: Env) {
    var r := SharedBlock(body, env);
    outer in env.loops ==>
      r.output == write(env.loops[outer].total) && outer in r.env.loops && r.env.loops[outer].total == m
  }

  lemma BodyWritesTotal(outer: string, inner: ForeachArgs, write: Writer, m: nat, env: Env)
    requires inner.name == Some(outer) && |AsArray(inner.from(env))| == m
    ensures WritesTotal(TotalThenEmpty(outer, inner, write), outer, write, m, env)
  {
    if outer in env.loops { BodyTotals(outer, inner, write, env); }
    TotalThenEmptyIsApart(outer, inner, write, {});
    SharedIsMeant(TotalThenEmpty(outer, inner, write), {}, {}, env);
  }

  lemma SharedFirst(
    each: ForeachArgs, body: Block, outer: string, write: Writer, m: nat, entries: seq<Entry>, k: nat, env: Env)
    returns (next: Env)
    requires k < |entries| && each.name == Some(outer) && outer in env.loops
    requires forall e: Env :: WritesTotal(body, outer, write, m, e)
    ensures outer in next.loops && next.loops[outer].total == m
    ensures SharedEntries(each, body, entries, k, env).output
         == write(env.loops[outer].total) + SharedEntries(each, body, entries, k + 1, next).output
  {
    assert WritesTotal(body, outer, write, m, Counted(env, each, entries[k]));
    next := SharedBlock(body, Counted(env, each, entries[k])).env;
  }

  lemma RepeatRest(rest: string, s: string, n: nat)
    requires rest == if n == 0 then "" else s + Repeat(s, n - 1)
    ensures rest == Repeat(s, n)
  {}

  /** All passes: the total that is there, then m again and again. */
  lemma {:induction false} SharedTotals(
    each: ForeachArgs, body: Block, outer: string, write: Writer, m: nat, entries: seq<Entry>, k: nat, env: Env)
    requires k <= |entries| && each.name == Some(outer) && outer in env.loops
    requires forall e: Env :: WritesTotal(body, outer, write, m, e)
    ensures SharedEntries(each, body, entries, k, env).output
         == if k == |entries| then "" else write(env.loops[outer].total) + Repeat(write(m), |entries| - k - 1)
    decreases |entries| - k
  {
    if k < |entries| {
      var next := SharedFirst(each, body, outer, write, m, entries, k, env);
      SharedTotals(each, body, outer, write, m, entries, k + 1, next);
      RepeatRest(SharedEntries(each, body, entries, k + 1, next).output, write(m), |entries| - k - 1);
    }
  }

  lemma TotalThenEmptyIsApart(outer: string, inner: ForeachArgs, write: Writer, loops: set<string>)
    requires inner.name.Some? ==> inner.name.value !in loops
    ensures Control(TotalThenEmpty(outer, inner, write)) && Apart(TotalThenEmpty(outer, inner, write), {}, loops)
  {
    var n := ForeachNode(inner, Done, NoElse);
    assert Apart(Done, {}, loops + NameOf(inner));
    assert Control(Done) && ControlElses(NoElse);
    assert ControlNode(n) && ApartNode(n, {}, loops);
    assert Control(Block.Then(n, Done)) && Apart(Block.Then(n, Done), {}, loops);
  }

  lemma NestedForeachIsPlain(
    outer: string, inner: string, from: Expression, item: string, innerFrom: Expression, innerItem: string,
    write: Writer)
    requires outer != inner
    ensures Plain(NestedForeach(outer, inner, from, item, innerFrom, innerItem, write))
  {
    var n := NestedForeach(outer, inner, from, item, innerFrom, innerItem, write).node;
    TotalThenEmptyIsApart(outer, ForeachArgs(innerFrom, innerItem, None, Some(inner)), write, {outer});
    assert {} + NameOf(ForeachArgs(from, item, None, Some(outer))) == {outer};
    assert ControlNode(n) && ApartNode(n, {}, {});
  }

  /**
   For all names and arrays: nesting two named foreachs preserves the output exactly if the
   names differ, the outer array has at most one entry, or the arrays have the same size.
   */
  lemma ForeachNestingExactly(
    reg: Registry, outer: string, inner: string, from: Expression, item: string, innerFrom: Expression,
    innerItem: string,
    m: nat, write: Writer, env: Env)
    requires Distinct(write) && forall e: Env :: |AsArray(innerFrom(e))| == m
    ensures OutputPreserved(reg, NestedForeach(outer, inner, from, item, innerFrom, innerItem, write), env)
            <==> outer != inner || |AsArray(from(env))| <= 1 || |AsArray(from(env))| == m
  {
    if outer != inner {
      NestedForeachIsPlain(outer, inner, from, item, innerFrom, innerItem, write);
      CompilationPreservesMeaning(reg, NestedForeach(outer, inner, from, item, innerFrom, innerItem, write), env);
    } else {
      var each := ForeachArgs(from, item, None, Some(outer));
      SameNameExactly(reg, outer, each, ForeachArgs(innerFrom, innerItem, None, Some(outer)), m, write, env);
    }
  }

  lemma SameNameExactly(
    reg: Registry, name: string, each: ForeachArgs, inner: ForeachArgs, m: nat, write: Writer, env: Env)
    requires Distinct(write) && forall e: Env :: |AsArray(inner.from(e))| == m
    requires each.name == inner.name == Some(name)
    ensures OutputPreserved(reg, Alone(ForeachNode(each, TotalThenEmpty(name, inner, write), NoElse)), env)
            <==> |AsArray(each.from(env))| <= 1 || |AsArray(each.from(env))| == m
  {
    var body := TotalThenEmpty(name, inner, write);
    TotalThenEmptyIsApart(name, inner, write, {});
    ForeachPreservedExactly(reg, each, body, NoElse, env);
    MeantOutput(name, each, inner, write, env);
    PrintedOutput(name, each, inner, write, m, env);
    TotalsDiffer(write, |AsArray(each.from(env))|, m);
  }

  /** The outer total as often as there are entries. */
  lemma MeantOutput(name: string, each: ForeachArgs, inner: ForeachArgs, write: Writer, env: Env)
    requires each.name == inner.name == Some(name)
    ensures var n := |AsArray(each.from(env))|;
            EvalNode(ForeachNode(each, TotalThenEmpty(name, inner, write), NoElse), env).output == Repeat(write(n), n)
  {
    var entries := AsArray(each.from(env));
    MeantTotals(name, each, inner, write, entries, 0, SetCounter(env, Some(name), Counter(|entries|, 0)));
  }

  /** The outer total once, then the inner one. */
  lemma PrintedOutput(name: string, each: ForeachArgs, inner: ForeachArgs, write: Writer, m: nat, env: Env)
    requires each.name == inner.name == Some(name) && forall e: Env :: |AsArray(inner.from(e))| == m
    ensures var n := |AsArray(each.from(env))|;
            SharedNode(ForeachNode(each, TotalThenEmpty(name, inner, write), NoElse), env).output
            == if n == 0 then "" else write(n) + Repeat(write(m), n - 1)
  {
    var entries := AsArray(each.from(env));
    var body := TotalThenEmpty(name, inner, write);
    forall e: Env ensures WritesTotal(body, name, write, m, e) { BodyWritesTotal(name, inner, write, m, e); }
    SharedTotals(each, body, name, write, m, entries, 0, SetCounter(env, Some(name), Counter(|entries|, 0)));
  }

  lemma TotalsDiffer(write: Writer, n: nat, m: nat)
    requires Distinct(write)
    ensures Repeat(write(n), n) == (if n == 0 then "" else write(n) + Repeat(write(m), n - 1)) <==> n <= 1 || n == m
  {
    if n > 1 {
      var a, b, k := write(n), write(m), n - 1;
      if a + Repeat(a, k) == a + Repeat(b, k) {
        assert (a + Repeat(a, k))[|a|..] == Repeat(a, k) && (a + Repeat(b, k))[|a|..] == Repeat(b, k);
        RepeatOnce(a, b, k);
      }
    }
  }

  function ArrayOf(n: nat): Expression {
    _ => Array(seq(n, _ => Entry("", Null)))
  }

  /**
   {foreach from=$two item=i name=f}{$smarty.foreach.f.total}{foreach from=$one item=j name=f}{/foreach}{/foreach}
   means 22, which is not what it prints.
   */
  lemma SameForeachNameChangesMeaning(reg: Registry, name: string, write: Writer, env: Env)
    requires Distinct(write)
    ensures !OutputPreserved(reg, NestedForeach(name, name, ArrayOf(2), "i", ArrayOf(1), "j", write), env)
  {
    ForeachNestingExactly(reg, name, name, ArrayOf(2), "i", ArrayOf(1), "j", 1, write, env);
  }

  /** Two names may be used for nested foreachs, with all arrays and in all environments, exactly if they differ. */
  lemma ForeachNamesExactly(reg: Registry, outer: string, inner: string, write: Writer)
    requires Distinct(write)
    ensures (forall from: Expression, item: string, innerFrom: Expression, innerItem: string, env: Env ::
               OutputPreserved(reg, NestedForeach(outer, inner, from, item, innerFrom, innerItem, write), env))
            <==> outer != inner
  {
    if outer != inner {
      forall from: Expression, item: string, innerFrom: Expression, innerItem: string, env: Env
        ensures OutputPreserved(reg, NestedForeach(outer, inner, from, item, innerFrom, innerItem, write), env)
      {
        NestedForeachIsPlain(outer, inner, from, item, innerFrom, innerItem, write);
        CompilationPreservesMeaning(reg, NestedForeach(outer, inner, from, item, innerFrom, innerItem, write), env);
      }
    } else {
      SameForeachNameChangesMeaning(reg, outer, write, Env(map[], map[], map[]));
    }
  }
}
