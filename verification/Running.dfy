/**
 Running the nested program of a tree: with enough fuel PHP ends, prints what evaluation
 with shared records prints, and leaves the environment that leaves. This is so for every
 tree of control structure, whatever its loops are called; the lemmas follow the tree.
 */
module Running {
  import opened Options
  import opened Template
  import opened PhpTokens
  import opened PhpControl
  import opened Emission
  import opened Meaning
  import opened Sharing
  import SectionLoop

  // ----- programs put together -----

  /** `output`, and then whatever the rest of the program does. */
  function Prefixed(output: string, r: Option<Outcome>): Option<Outcome> {
    match r
    case None => None
    case Some(Outcome(st, more)) => Some(Outcome(st, output + more))
  }

  /** With enough fuel, `program` prints `output`, reaches `end` and continues with `rest`. */
  ghost predicate Leads(program: Php, st: PhpState, enough: nat, end: PhpState, output: string, rest: Php) {
    forall fuel: nat :: fuel >= enough ==> Exec(program, st, fuel) == Prefixed(output, Exec(rest, end, fuel))
  }

  ghost predicate StmtEnds(s: Stmt, st: PhpState, enough: nat, end: PhpState, output: string) {
    forall fuel: nat :: fuel >= enough ==> ExecStmt(s, st, fuel) == Some(Outcome(end, output))
  }

  /** A program in front of nothing simply ends. */
  lemma LeadsToEnd(program: Php, st: PhpState, enough: nat, end: PhpState, output: string)
    requires Leads(program, st, enough, end, output, End)
    ensures EndsIn(program, st, enough, end, output)
  {
    assert output + "" == output;
  }

  lemma FirstThenRest(s: Stmt, p: Php, st: PhpState, enough: nat, mid: PhpState, output: string)
    requires StmtEnds(s, st, enough, mid, output)
    ensures Leads(Php.Then(s, p), st, enough, mid, output, p)
  {
    forall fuel: nat | fuel >= enough
      ensures Exec(Php.Then(s, p), st, fuel) == Prefixed(output, Exec(p, mid, fuel))
    {
      assert ExecStmt(s, st, fuel) == Some(Outcome(mid, output));
    }
  }

  lemma LeadsOn(
    a: Php, st: PhpState, n1: nat, mid: PhpState, out1: string,
    b: Php, n2: nat, end: PhpState, out2: string, c: Php)
    requires Leads(a, st, n1, mid, out1, b) && Leads(b, mid, n2, end, out2, c)
    ensures Leads(a, st, Max(n1, n2), end, out1 + out2, c)
  {
    forall fuel: nat | fuel >= Max(n1, n2)
      ensures Exec(a, st, fuel) == Prefixed(out1 + out2, Exec(c, end, fuel))
    {
      assert Exec(a, st, fuel) == Prefixed(out1, Exec(b, mid, fuel));
      assert Exec(b, mid, fuel) == Prefixed(out2, Exec(c, end, fuel));
      match Exec(c, end, fuel)
      case None =>
      case Some(Outcome(_, more)) => assert out1 + (out2 + more) == (out1 + out2) + more;
    }
  }

  /** A statement as setup, a statement that needs it, and what follows. */
  lemma AfterSetup(setup: Stmt, s: Stmt, p: Php, st: PhpState, begun: PhpState, enough: nat, end: PhpState, out: string)
    requires StmtEnds(setup, st, 0, begun, "") && StmtEnds(s, begun, enough, end, out)
    ensures Leads(Php.Then(setup, Php.Then(s, p)), st, enough, end, out, p)
  {
    FirstThenRest(s, p, begun, enough, end, out);
    FirstThenRest(setup, Php.Then(s, p), st, 0, begun, "");
    LeadsOn(Php.Then(setup, Php.Then(s, p)), st, 0, begun, "", Php.Then(s, p), enough, end, out, p);
    Nothing(out);
  }

  /** A statement on its own. */
  lemma OneStmt(s: Stmt, st: PhpState, enough: nat, end: PhpState, out: string)
    requires StmtEnds(s, st, enough, end, out)
    ensures EndsIn(Php.Then(s, End), st, enough, end, out)
  {
    FirstThenRest(s, End, st, enough, end, out);
    LeadsToEnd(Php.Then(s, End), st, enough, end, out);
  }

  // ----- the emitted `for` -----

  /** The record at the start of a pass and after it. */
  lemma RecordOfPass(props: SectionLoop.Props, plan: seq<int>, k: nat, was: SectionRecord)
    requires k < |plan| && Progression(props, plan)
    requires was.props == props && was.cursor == Some(Cursor(props.start + k * props.step, k + 1))
    ensures var rec := PassRecord(props, plan, k);
            && k + 1 <= props.total && BeginPass(was) == rec
            && Advance(rec) == rec.(cursor := Some(Cursor(plan[k] + props.step, k + 2)))
            && Advance(rec).cursor == Some(Cursor(props.start + (k + 1) * props.step, k + 2))
  {
    assert plan[k] + props.step == props.start + (k + 1) * props.step;
  }

  /** One pass and the passes behind it. */
  lemma OnePassRuns(
    name: string, p: Php, st: PhpState, begun: PhpState, after: PhpState, out: string, next: PhpState,
    fuel: nat, passes: nat, end: PhpState, more: string)
    requires name in st.env.sections && st.env.sections[name].cursor.Some? && passes >= 1
    requires st.env.sections[name].cursor.value.iteration <= st.env.sections[name].props.total
    requires begun == st.(env := SetSection(st.env, name, BeginPass(st.env.sections[name])))
    requires Exec(p, begun, fuel) == Some(Outcome(after, out)) && name in after.env.sections
    requires next == after.(env := SetSection(after.env, name, Advance(after.env.sections[name])))
    requires ExecFor(name, p, next, fuel, passes - 1) == Some(Outcome(end, more))
    ensures ExecFor(name, p, st, fuel, passes) == Some(Outcome(end, out + more))
  {}

  /** One more pass, which leaves the record spent. */
  lemma StopsWhenSpent(
    name: string, p: Php, st: PhpState, begun: PhpState, after: PhpState, out: string, end: PhpState, fuel: nat,
    passes: nat)
    requires name in st.env.sections && st.env.sections[name].cursor.Some? && passes >= 1
    requires st.env.sections[name].cursor.value.iteration <= st.env.sections[name].props.total
    requires begun == st.(env := SetSection(st.env, name, BeginPass(st.env.sections[name])))
    requires Exec(p, begun, fuel) == Some(Outcome(after, out)) && SpentAt(after.env, name)
    requires end == after.(env := SetSection(after.env, name, Advance(after.env.sections[name])))
    ensures ExecFor(name, p, st, fuel, passes) == Some(Outcome(end, out))
  {
    OverIsOver(name, p, end, fuel, passes - 1);
    OnePassRuns(name, p, st, begun, after, out, end, fuel, passes, end, "");
    assert out + "" == out;
  }

  /** The `for` ends like this with enough fuel and passes. */
  ghost predicate ForEnds(name: string, p: Php, st: PhpState, enough: nat, passes: nat, end: PhpState, output: string) {
    forall fuel: nat, more: nat :: fuel >= enough && more >= passes ==>
      ExecFor(name, p, st, fuel, more) == Some(Outcome(end, output))
  }

  lemma StopsAlways(
    name: string, p: Php, st: PhpState, begun: PhpState, n: nat, after: PhpState, out: string, end: PhpState,
    passes: nat)
    requires name in st.env.sections && st.env.sections[name].cursor.Some? && passes >= 1
    requires st.env.sections[name].cursor.value.iteration <= st.env.sections[name].props.total
    requires begun == st.(env := SetSection(st.env, name, BeginPass(st.env.sections[name])))
    requires EndsIn(p, begun, n, after, out) && SpentAt(after.env, name)
    requires end == after.(env := SetSection(after.env, name, Advance(after.env.sections[name])))
    ensures ForEnds(name, p, st, n, passes, end, out)
  {
    forall fuel: nat, more: nat | fuel >= n && more >= passes
      ensures ExecFor(name, p, st, fuel, more) == Some(Outcome(end, out))
    {
      StopsWhenSpent(name, p, st, begun, after, out, end, fuel, more);
    }
  }

  lemma GoesOnAlways(
    name: string, p: Php, st: PhpState, begun: PhpState, n1: nat, after: PhpState, out1: string, next: PhpState,
    n2: nat, end: PhpState, out2: string, passes: nat)
    requires name in st.env.sections && st.env.sections[name].cursor.Some? && passes >= 1
    requires st.env.sections[name].cursor.value.iteration <= st.env.sections[name].props.total
    requires begun == st.(env := SetSection(st.env, name, BeginPass(st.env.sections[name])))
    requires EndsIn(p, begun, n1, after, out1) && name in after.env.sections
    requires next == after.(env := SetSection(after.env, name, Advance(after.env.sections[name])))
    requires ForEnds(name, p, next, n2, passes - 1, end, out2)
    ensures ForEnds(name, p, st, Max(n1, n2), passes, end, out1 + out2)
  {
    forall fuel: nat, more: nat | fuel >= Max(n1, n2) && more >= passes
      ensures ExecFor(name, p, st, fuel, more) == Some(Outcome(end, out1 + out2))
    {
      OnePassRuns(name, p, st, begun, after, out1, next, fuel, more, end, out2);
    }
  }

  lemma OverIsOver(name: string, p: Php, st: PhpState, fuel: nat, passes: nat)
    requires name in st.env.sections && st.env.sections[name].cursor.Some?
    requires st.env.sections[name].cursor.value.iteration > st.env.sections[name].props.total
    ensures ExecFor(name, p, st, fuel, passes) == Some(Outcome(st, ""))
  {}

  // ----- the tree -----

  /** In front of any program: the output of the tree, and then the program. */
  lemma {:induction false} BlockRuns(b: Block, p: Php, st: PhpState) returns (enough: nat, end: PhpState)
    requires Control(b)
    ensures end.env == SharedBlock(b, st.env).env
    ensures Leads(Nest(b, p), st, enough, end, SharedBlock(b, st.env).output, p)
    decreases b, 1, 0
  {
    match b
    case Done =>
      enough, end := 0, st;
      forall fuel: nat ensures Exec(p, st, fuel) == Prefixed("", Exec(p, st, fuel)) {
        match Exec(p, st, fuel)
        case None =>
        case Some(Outcome(_, more)) => Nothing(more);
      }
    case Then(n, rest) =>
      var n1, mid := NodeRuns(n, Nest(rest, p), st);
      var n2;
      n2, end := BlockRuns(rest, p, mid);
      enough := Max(n1, n2);
      LeadsOn(Nest(b, p), st, n1, mid, SharedNode(n, st.env).output,
              Nest(rest, p), n2, end, SharedBlock(rest, mid.env).output, p);
  }

  /** A body on its own. */
  lemma {:induction false} BodyRuns(b: Block, st: PhpState) returns (enough: nat, end: PhpState)
    requires Control(b)
    ensures end.env == SharedBlock(b, st.env).env
    ensures EndsIn(Nest(b, End), st, enough, end, SharedBlock(b, st.env).output)
    decreases b, 2, 0
  {
    enough, end := BlockRuns(b, End, st);
    LeadsToEnd(Nest(b, End), st, enough, end, SharedBlock(b, st.env).output);
  }

  lemma {:induction false} NodeRuns(n: Node, p: Php, st: PhpState) returns (enough: nat, end: PhpState)
    requires ControlNode(n)
    ensures end.env == SharedNode(n, st.env).env
    ensures Leads(NestNode(n, p), st, enough, end, SharedNode(n, st.env).output, p)
    decreases n, 1, 0
  {
    match n
    case Print(text) =>
      enough, end := 0, st;
      FirstThenRest(Basic(Echo(text)), p, st, 0, end, text(st.env));
    case Call(_, action) =>
      var done := ExecSimple(Run(action), st);
      enough, end := 0, done.state;
      FirstThenRest(Basic(Run(action)), p, st, 0, end, done.output);
    case Choice(c, body, tail) =>
      var s := IfElse(Holds(c), Nest(body, End), NestTail(tail));
      if c(st.env) {
        enough, end := BodyRuns(body, st);
      } else {
        enough, end := TailRuns(tail, st);
      }
      assert StmtEnds(s, st, enough, end, SharedNode(n, st.env).output);
      FirstThenRest(s, p, st, enough, end, SharedNode(n, st.env).output);
    case SectionNode(name, args, body, elses) =>
      enough, end := SectionRuns(name, args, body, elses, p, st);
    case ForeachNode(each, body, elses) =>
      enough, end := ForeachRuns(each, body, elses, p, st);
  }

  lemma {:induction false} TailRuns(t: Tail, st: PhpState) returns (enough: nat, end: PhpState)
    requires ControlTail(t)
    ensures end.env == SharedTail(t, st.env).env
    ensures EndsIn(NestTail(t), st, enough, end, SharedTail(t, st.env).output)
    decreases t, 0, 0
  {
    match t
    case NoTail => enough, end := 0, st;
    case ElseTail(body) => enough, end := BodyRuns(body, st);
    case ElseIfTail(c, body, more) =>
      var s := IfElse(Holds(c), Nest(body, End), NestTail(more));
      if c(st.env) {
        enough, end := BodyRuns(body, st);
      } else {
        enough, end := TailRuns(more, st);
      }
      assert StmtEnds(s, st, enough, end, SharedTail(t, st.env).output);
      OneStmt(s, st, enough, end, SharedTail(t, st.env).output);
  }

  lemma {:induction false} ElsesRun(e: Elses, st: PhpState) returns (enough: nat, end: PhpState)
    requires ControlElses(e)
    ensures end.env == SharedElses(e, st.env).env
    ensures EndsIn(NestElses(e), st, enough, end, SharedElses(e, st.env).output)
    decreases e, 0, 0
  {
    match e
    case NoElse => enough, end := 0, st;
    case ElseBody(body, _) => enough, end := BodyRuns(body, st);
  }

  // ----- sections -----

  /** One pass, which leaves its record as it was or spent. */
  lemma {:induction false} PassRuns(name: string, body: Block, rec: SectionRecord, st: PhpState)
    returns (n: nat, after: PhpState)
    requires Control(body)
    ensures var begun := st.(env := SetSection(st.env, name, rec)); var r := SharedBlock(body, begun.env);
            EndsIn(Nest(body, End), begun, n, after, r.output) && after.env == r.env
    ensures name in after.env.sections && (SpentAt(after.env, name) || after.env.sections[name] == rec)
    decreases body, 3, 0
  {
    var begun := st.(env := SetSection(st.env, name, rec));
    n, after := BodyRuns(body, begun);
    BlockKeepsOrSpends(body, name, begun.env);
  }

  /** The emitted `for` runs just the passes up to one that leaves the record spent. */
  lemma {:induction false} PassesRun(
    name: string, body: Block, props: SectionLoop.Props, plan: seq<int>, k: nat, st: PhpState)
    returns (enough: nat, end: PhpState)
    requires k <= |plan| && Progression(props, plan) && Control(body)
    requires name in st.env.sections && st.env.sections[name].props == props
    requires st.env.sections[name].cursor == Some(Cursor(props.start + k * props.step, k + 1))
    ensures end.env == SharedPasses(name, body, props, plan, k, st.env).env
    ensures ForEnds(name, Nest(body, End), st, enough, |plan| - k, end,
                    SharedPasses(name, body, props, plan, k, st.env).output)
    decreases body, 4, |plan| - k
  {
    if k == |plan| {
      enough, end := 0, st;
    } else {
      var rec := PassRecord(props, plan, k);
      RecordOfPass(props, plan, k, st.env.sections[name]);
      var begun := st.(env := SetSection(st.env, name, rec));
      var n1, after := PassRuns(name, body, rec, st);
      var out1 := SharedBlock(body, begun.env).output;
      if SpentAt(after.env, name) {
        enough, end := n1, after.(env := SetSection(after.env, name, Advance(after.env.sections[name])));
        StopsAlways(name, Nest(body, End), st, begun, n1, after, out1, end, |plan| - k);
      } else {
        var next := after.(env := SetSection(after.env, name, Advance(rec)));
        var n2;
        n2, end := PassesRun(name, body, props, plan, k + 1, next);
        enough := Max(n1, n2);
        var out2 := SharedPasses(name, body, props, plan, k + 1, next.env).output;
        GoesOnAlways(name, Nest(body, End), st, begun, n1, after, out1, next, n2, end, out2, |plan| - k);
        PassThenRest(name, body, props, plan, k, st.env, out1, next.env);
      }
    }
  }

  /** A pass that leaves its record as it was is followed by the passes behind it. */
  lemma PassThenRest(
    name: string, body: Block, props: SectionLoop.Props, plan: seq<int>, k: nat, env: Env, out: string, next: Env)
    requires k < |plan|
    requires var rec := PassRecord(props, plan, k); var r := SharedBlock(body, SetSection(env, name, rec));
             && out == r.output && !SpentAt(r.env, name)
             && next == SetSection(r.env, name, rec.(cursor := Some(Cursor(plan[k] + props.step, k + 2))))
    ensures var more := SharedPasses(name, body, props, plan, k + 1, next);
            SharedPasses(name, body, props, plan, k, env) == Result(more.env, out + more.output)
  {}

  /** The emitted `for` from its initialisation. */
  lemma {:induction false} ForRuns(
    name: string, body: Block, props: SectionLoop.Props, plan: seq<int>, st: PhpState)
    returns (enough: nat, end: PhpState)
    requires Progression(props, plan) && plan != [] && Control(body)
    requires name in st.env.sections && st.env.sections[name] == SectionRecord(props, None, None)
    ensures var r := SharedPasses(name, body, props, plan, 0, st.env);
            end.env == r.env && StmtEnds(ForSection(name, Nest(body, End)), st, enough, end, r.output)
    decreases body, 5, 0
  {
    var init := st.(env := SetSection(st.env, name, SectionRecord(props, Some(Cursor(props.start, 1)), None)));
    FirstPassOverwrites(name, body, props, plan, st.env, init.env);
    var n;
    n, end := PassesRun(name, body, props, plan, 0, init);
    enough := Max(n, |plan|);
  }

  /** Each pass sets the whole record, so what it held before does not matter. */
  lemma FirstPassOverwrites(name: string, body: Block, props: SectionLoop.Props, plan: seq<int>, a: Env, b: Env)
    requires plan != [] && exists rec :: b == SetSection(a, name, rec)
    ensures SharedPasses(name, body, props, plan, 0, a) == SharedPasses(name, body, props, plan, 0, b)
  {
    var rec := PassRecord(props, plan, 0);
    assert SetSection(a, name, rec) == SetSection(b, name, rec);
  }

  lemma {:induction false} SectionRuns(
    name: string, args: SectionArgs, body: Block, elses: Elses, p: Php, st: PhpState)
    returns (enough: nat, end: PhpState)
    requires Control(body) && ControlElses(elses)
    ensures var n := SectionNode(name, args, body, elses);
            && end.env == SharedNode(n, st.env).env
            && Leads(NestNode(n, p), st, enough, end, SharedNode(n, st.env).output, p)
    decreases SectionNode(name, args, body, elses), 0, 0
  {
    var n := SectionNode(name, args, body, elses);
    var attrs := args(Unset(st.env, name));
    var plan, props := SectionLoop.Planned(attrs), SectionLoop.Setup(attrs);
    SetupIsPlan(attrs);
    var setup := Basic(SectionSetup(name, args));
    var begun := ExecSimple(SectionSetup(name, args), st).state;
    assert begun.env == SetSection(st.env, name, SectionRecord(props, None, None));
    var loop := ForSection(name, Nest(body, End));
    var s := IfElse(Shown(name), Php.Then(loop, End), NestElses(elses));
    var out := SharedNode(n, st.env).output;
    if plan != [] {
      enough, end := ForRuns(name, body, props, plan, begun);
      OneStmt(loop, begun, enough, end, out);
    } else {
      enough, end := ElsesRun(elses, begun);
    }
    assert StmtEnds(s, begun, enough, end, out);
    AfterSetup(setup, s, p, st, begun, enough, end, out);
  }

  // ----- foreach -----

  /** The emitted foreach over these entries ends like this with enough fuel. */
  ghost predicate ForeachEnds(
    each: ForeachArgs, p: Php, entries: seq<Entry>, st: PhpState, enough: nat, end: PhpState, output: string)
  {
    forall fuel: nat :: fuel >= enough ==> ExecForeach(each, p, entries, st, fuel) == Some(Outcome(end, output))
  }

  lemma EntryThenRest(
    each: ForeachArgs, p: Php, entries: seq<Entry>, st: PhpState, n1: nat, after: PhpState, out1: string,
    n2: nat, end: PhpState, out2: string)
    requires entries != [] && (each.name.Some? ==> each.name.value in st.env.loops)
    requires EndsIn(p, st.(env := Counted(st.env, each, entries[0])), n1, after, out1)
    requires ForeachEnds(each, p, entries[1..], after, n2, end, out2)
    ensures ForeachEnds(each, p, entries, st, Max(n1, n2), end, out1 + out2)
  {
    forall fuel: nat | fuel >= Max(n1, n2)
      ensures ExecForeach(each, p, entries, st, fuel) == Some(Outcome(end, out1 + out2))
    {
      assert Exec(p, st.(env := Counted(st.env, each, entries[0])), fuel) == Some(Outcome(after, out1));
      assert ExecForeach(each, p, entries[1..], after, fuel) == Some(Outcome(end, out2));
    }
  }

  lemma {:induction false} EntriesRun(each: ForeachArgs, body: Block, entries: seq<Entry>, k: nat, st: PhpState)
    returns (enough: nat, end: PhpState)
    requires k <= |entries| && Control(body)
    requires each.name.Some? ==> each.name.value in st.env.loops
    ensures end.env == SharedEntries(each, body, entries, k, st.env).env
    ensures ForeachEnds(each, Nest(body, End), entries[k..], st, enough, end,
                        SharedEntries(each, body, entries, k, st.env).output)
    decreases body, 3, |entries| - k
  {
    if k == |entries| {
      enough, end := 0, st;
    } else {
      var begun := st.(env := Counted(st.env, each, entries[k]));
      var n1, after := BodyRuns(body, begun);
      BlockKeepsOrSpends(body, "", begun.env);
      var n2;
      n2, end := EntriesRun(each, body, entries, k + 1, after);
      enough := Max(n1, n2);
      SliceOfSlice(entries, k, 1);
      EntryThenRest(each, Nest(body, End), entries[k..], st, n1, after, SharedBlock(body, begun.env).output,
                    n2, end, SharedEntries(each, body, entries, k + 1, after.env).output);
    }
  }

  lemma {:induction false} ForeachRuns(each: ForeachArgs, body: Block, elses: Elses, p: Php, st: PhpState)
    returns (enough: nat, end: PhpState)
    requires Control(body) && ControlElses(elses)
    ensures var n := ForeachNode(each, body, elses);
            && end.env == SharedNode(n, st.env).env
            && Leads(NestNode(n, p), st, enough, end, SharedNode(n, st.env).output, p)
    decreases ForeachNode(each, body, elses), 0, 0
  {
    var n := ForeachNode(each, body, elses);
    var entries := AsArray(each.from(st.env));
    var setup := Basic(ForeachSetup(each));
    var begun := ExecSimple(ForeachSetup(each), st).state;
    var loop := ForEntries(each, Nest(body, End));
    var s := IfElse(NonEmpty(each.name), Php.Then(loop, End), NestElses(elses));
    var out := SharedNode(n, st.env).output;
    assert ExecTest(NonEmpty(each.name), begun) == (entries != []);
    var last: PhpState;
    if entries != [] {
      enough, last := EntriesRun(each, body, entries, 0, begun);
      assert entries[0..] == entries;
      assert StmtEnds(loop, begun, enough, last, out);
      OneStmt(loop, begun, enough, last, out);
    } else {
      enough, last := ElsesRun(elses, begun);
    }
    assert StmtEnds(s, begun, enough, last, out);
    end := last.(from := None);
    ThenUnset(setup, s, p, st, begun, enough, last, out);
  }

  /** Setup, the statement, and the removal of `$_from`. */
  lemma ThenUnset(setup: Stmt, s: Stmt, p: Php, st: PhpState, begun: PhpState, enough: nat, last: PhpState, out: string)
    requires StmtEnds(setup, st, 0, begun, "") && StmtEnds(s, begun, enough, last, out)
    ensures Leads(Php.Then(setup, Php.Then(s, Php.Then(Basic(UnsetFrom), p))), st, enough, last.(from := None), out, p)
  {
    var end, unset := last.(from := None), Php.Then(Basic(UnsetFrom), p);
    AfterSetup(setup, s, unset, st, begun, enough, last, out);
    FirstThenRest(Basic(UnsetFrom), p, last, 0, end, "");
    LeadsOn(Php.Then(setup, Php.Then(s, unset)), st, enough, last, out, unset, 0, end, "", p);
    Nothing(out);
  }
}
