/** The tag stack alone: what trees do to it, and what no tag can undo. */
module TagStack {
  import opened Options
  import opened Template
  import opened TagMachine

  /** The stack after a list of tags. */
  function RunStack(stack: Stack, tags: seq<Tag>): Option<Stack>
    decreases |tags|
  {
    if tags == [] then Some(stack)
    else
      match NextStack(stack, tags[0])
      case None => None
      case Some(next) => RunStack(next, tags[1..])
  }

  lemma {:induction false} RunStackAppend(stack: Stack, a: seq<Tag>, mid: Stack, b: seq<Tag>)
    requires RunStack(stack, a) == Some(mid)
    ensures RunStack(stack, a + b) == RunStack(mid, b)
    decreases |a|
  {
    if a == [] {
      assert a + b == b;
    } else {
      assert (a + b)[0] == a[0] && (a + b)[1..] == a[1..] + b;
      RunStackAppend(NextStack(stack, a[0]).value, a[1..], mid, b);
    }
  }

  /** Acceptance depends on the stack alone. */
  lemma {:induction false} StepsFollowStack(reg: Registry, s: State, tags: seq<Tag>)
    ensures match Steps(reg, s, tags)
            case None => RunStack(s.stack, tags) == None
            case Some((end, _)) => RunStack(s.stack, tags) == Some(end.stack)
    decreases |tags|
  {
    if tags != [] {
      match Step(reg, s, tags[0])
      case None =>
      case Some((s1, _)) => StepsFollowStack(reg, s1, tags[1..]);
    }
  }

  // ----- what an unfinished node keeps on the stack -----

  function ChainEntries(seenElseIf: bool, t: Tail): Stack
    decreases t
  {
    match t
    case NoTail => if seenElseIf then [InElseIf] else []
    case ElseTail(_) => (if seenElseIf then [InElseIf] else []) + [InElse]
    case ElseIfTail(_, _, more) => ChainEntries(true, more)
  }

  function ElseEntries(mark: Open, e: Elses): Stack {
    match e
    case NoElse => []
    case ElseBody(_, more) => ElseEntries(mark, more) + [mark]
  }

  /** Stack entries of a node that has not been closed yet. */
  function Entries(n: Node): Stack {
    match n
    case Print(_) => []
    case Call(_, _) => []
    case Choice(_, _, tail) => [InIf] + ChainEntries(false, tail)
    case SectionNode(_, _, _, elses) => [InSection] + ElseEntries(InSectionElse, elses)
    case ForeachNode(_, _, elses) => [InForeach] + ElseEntries(InForeachElse, elses)
    case StripNode(_) => [InStrip]
    case PluginNode(p, _) => [InPlugin(p)]
  }

  predicate IsLeaf(n: Node) {
    n.Print? || n.Call?
  }

  /** The entry a node's closing tag looks for. */
  function Closer(n: Node): Open
    requires !IsLeaf(n)
  {
    match n
    case Choice(_, _, _) => InIf
    case SectionNode(_, _, _, _) => InSection
    case ForeachNode(_, _, _) => InForeach
    case StripNode(_) => InStrip
    case PluginNode(p, _) => InPlugin(p)
  }

  /** Else marks on top of their own opening entry are popped with it. */
  lemma {:induction false} PopElses(base: Stack, close: Open, mark: Open, e: Elses)
    requires (close == InSection && mark == InSectionElse) || (close == InForeach && mark == InForeachElse)
    ensures Pop(base + [close] + ElseEntries(mark, e), close)
         == Some((base, if e == NoElse then close else mark))
  {
    var stack := base + [close] + ElseEntries(mark, e);
    match e
    case NoElse => assert stack[..|stack| - 1] == base;
    case ElseBody(_, more) =>
      PopElses(base, close, mark, more);
      assert stack[..|stack| - 1] == base + [close] + ElseEntries(mark, more);
  }

  predicate EndsWithElse(t: Tail) {
    match t
    case NoTail => false
    case ElseTail(_) => true
    case ElseIfTail(_, _, more) => EndsWithElse(more)
  }

  lemma {:induction false} ChainShape(seen: bool, t: Tail)
    ensures forall i :: 0 <= i < |ChainEntries(seen, t)| ==>
              ChainEntries(seen, t)[i] == InElse || ChainEntries(seen, t)[i] == InElseIf
    ensures EndsWithElse(t) <==>
            ChainEntries(seen, t) != [] && ChainEntries(seen, t)[|ChainEntries(seen, t)| - 1] == InElse
    ensures !EndsWithElse(t) ==> ChainEntries(seen, t) == (if seen || t != NoTail then [InElseIf] else [])
    decreases t
  {
    match t
    case NoTail =>
    case ElseTail(_) =>
    case ElseIfTail(_, _, more) => ChainShape(true, more);
  }

  /** The entries of an if are its own, so a closing `{/if}` pops down to `{if}`. */
  lemma {:induction false} PopChoice(base: Stack, chain: Stack)
    requires forall i :: 0 <= i < |chain| ==> chain[i] == InElse || chain[i] == InElseIf
    ensures Pop(base + ([InIf] + chain), InIf) == Some((base, InIf))
    decreases |chain|
  {
    var stack := base + ([InIf] + chain);
    var below := stack[..|stack| - 1];
    if chain == [] {
      assert below == base;
    } else {
      assert below == base + ([InIf] + chain[..|chain| - 1]);
      PopChoice(base, chain[..|chain| - 1]);
    }
  }

  lemma PopAssociative(base: Stack, open: Open, marks: Stack, close: Open)
    ensures Pop(base + [open] + marks, close) == Pop(base + ([open] + marks), close)
  {
    assert base + [open] + marks == base + ([open] + marks);
  }

  lemma PopOne(base: Stack, open: Open)
    ensures Pop(base + [open], open) == Some((base, open))
  {
    var stack := base + [open];
    assert stack[..|stack| - 1] == base;
  }

  /** What a closing tag reports: the last else of a section or foreach, otherwise itself. */
  function ReportFor(n: Node): Open
    requires !IsLeaf(n)
  {
    if n.SectionNode? && n.elses != NoElse then InSectionElse
    else if n.ForeachNode? && n.elses != NoElse then InForeachElse
    else Closer(n)
  }

  /**
   A closing tag that fits removes exactly the entries of its own block and leaves
   what is below.
   */
  lemma CloseOwnBlock(base: Stack, n: Node)
    requires !IsLeaf(n)
    ensures Pop(base + Entries(n), Closer(n)) == Some((base, ReportFor(n)))
  {
    match n
    case Choice(_, _, tail) =>
      ChainShape(false, tail);
      PopChoice(base, ChainEntries(false, tail));
    case SectionNode(_, _, _, elses) =>
      PopElses(base, InSection, InSectionElse, elses);
      PopAssociative(base, InSection, ElseEntries(InSectionElse, elses), InSection);
    case ForeachNode(_, _, elses) =>
      PopElses(base, InForeach, InForeachElse, elses);
      PopAssociative(base, InForeach, ElseEntries(InForeachElse, elses), InForeach);
    case StripNode(_) => PopOne(base, InStrip);
    case PluginNode(p, _) => PopOne(base, InPlugin(p));
  }

  lemma ElseEntriesLast(mark: Open, e: Elses)
    ensures e != NoElse ==> ElseEntries(mark, e) != [] && ElseEntries(mark, e)[|ElseEntries(mark, e)| - 1] == mark
  {}

  /** The opening entry that an else mark belongs to. */
  function Opener(open: Open): Open {
    match open
    case InElse => InIf
    case InElseIf => InIf
    case InSectionElse => InSection
    case InForeachElse => InForeach
    case _ => open
  }

  lemma EntriesTop(n: Node)
    requires !IsLeaf(n)
    ensures Entries(n) != [] && Opener(Entries(n)[|Entries(n)| - 1]) == Closer(n)
  {
    match n
    case Choice(_, _, tail) => ChainShape(false, tail);
    case SectionNode(_, _, _, elses) => ElseEntriesLast(InSectionElse, elses);
    case ForeachNode(_, _, elses) => ElseEntriesLast(InForeachElse, elses);
    case StripNode(_) =>
    case PluginNode(_, _) =>
  }

  /** A closing tag whose entry is neither on top nor below else marks of its own is a mismatch. */
  lemma TopDecides(stack: Stack, close: Open)
    requires stack != [] && Opener(close) == close != Opener(stack[|stack| - 1])
    ensures Pop(stack, close) == None
  {}

  /** Any other closing tag is a mismatch. */
  lemma CloseOtherBlock(base: Stack, n: Node, close: Open)
    requires !IsLeaf(n) && close != Closer(n)
    requires close.InIf? || close.InSection? || close.InForeach? || close.InStrip? || close.InPlugin?
    ensures Pop(base + Entries(n), close) == None
  {
    EntriesTop(n);
    TopDecides(base + Entries(n), close);
  }

  // ----- trees are accepted -----

  /** The text of a tree leaves every stack as it found it. */
  lemma {:induction false} BlockKeepsStack(b: Block, stack: Stack)
    ensures RunStack(stack, Flatten(b)) == Some(stack)
    decreases b, 0
  {
    match b
    case Done =>
    case Then(n, rest) =>
      OpenTextRuns(n, stack);
      RunStackAppend(stack, OpenText(n), stack + Entries(n), CloseText(n));
      CloseTextRuns(n, stack);
      RunStackAppend(stack, FlattenNode(n), stack, Flatten(rest));
      BlockKeepsStack(rest, stack);
  }

  lemma Join(stack: Stack, a: seq<Tag>, entry: Stack, b: seq<Tag>, more: Stack)
    requires RunStack(stack, a) == Some(stack + entry)
    requires RunStack(stack + entry, b) == Some(stack + entry + more)
    ensures RunStack(stack, a + b) == Some(stack + (entry + more))
  {
    RunStackAppend(stack, a, stack + entry, b);
    Assoc(stack, entry, more);
  }

  lemma RunStackOne(stack: Stack, tag: Tag)
    ensures RunStack(stack, [tag]) == NextStack(stack, tag)
  {
    assert [tag][1..] == [];
  }

  lemma ClosingTag(n: Node, stack: Stack)
    requires !IsLeaf(n)
    ensures |CloseText(n)| == 1
    ensures NextStack(stack, CloseText(n)[0]) == Popped(stack, Closer(n))
  {}

  lemma RunClosing(stack: Stack, tags: seq<Tag>, base: Stack)
    requires |tags| == 1 && NextStack(stack, tags[0]) == Some(base)
    ensures RunStack(stack, tags) == Some(base)
  {
    assert tags == [tags[0]];
    RunStackOne(stack, tags[0]);
  }

  lemma CloseTextRuns(n: Node, stack: Stack)
    ensures RunStack(stack + Entries(n), CloseText(n)) == Some(stack)
  {
    if IsLeaf(n) {
      assert stack + [] == stack;
    } else {
      CloseOwnBlock(stack, n);
      ClosingTag(n, stack + Entries(n));
      RunClosing(stack + Entries(n), CloseText(n), stack);
    }
  }

  /** An opening tag and the body that follows it. */
  lemma {:induction false} HeadRuns(stack: Stack, tag: Tag, entry: Stack, body: Block)
    requires NextStack(stack, tag) == Some(stack + entry)
    ensures RunStack(stack, [tag] + Flatten(body)) == Some(stack + entry)
    decreases body, 1
  {
    RunStackOne(stack, tag);
    RunStackAppend(stack, [tag], stack + entry, Flatten(body));
    BlockKeepsStack(body, stack + entry);
  }

  lemma {:induction false} OpenTextRuns(n: Node, stack: Stack)
    ensures RunStack(stack, OpenText(n)) == Some(stack + Entries(n))
    decreases n, 0
  {
    match n
    case Print(text) =>
      RunStackOne(stack, Output(text));
      assert stack + [] == stack;
    case Call(p, action) =>
      RunStackOne(stack, Function(p, action));
      assert stack + [] == stack;
    case Choice(c, body, tail) =>
      HeadRuns(stack, If(c), [InIf], body);
      TailRuns(tail, stack + [InIf], false);
      assert ChainEntries(false, tail) == MoreEntries(false, tail) by {
        ChainIsMore(false, tail);
        assert [] + MoreEntries(false, tail) == MoreEntries(false, tail);
      }
      Join(stack, [If(c)] + Flatten(body), [InIf], FlattenTail(tail), MoreEntries(false, tail));
    case SectionNode(name, args, body, elses) =>
      HeadRuns(stack, Section(name, args), [InSection], body);
      ElsesRun(elses, stack + [InSection], SectionElse, InSectionElse);
      Join(stack, [Section(name, args)] + Flatten(body), [InSection],
           FlattenElses(SectionElse, elses), ElseEntries(InSectionElse, elses));
    case ForeachNode(each, body, elses) =>
      HeadRuns(stack, Foreach(each), [InForeach], body);
      ElsesRun(elses, stack + [InForeach], ForeachElse, InForeachElse);
      Join(stack, [Foreach(each)] + Flatten(body), [InForeach],
           FlattenElses(ForeachElse, elses), ElseEntries(InForeachElse, elses));
    case StripNode(body) => HeadRuns(stack, Strip, [InStrip], body);
    case PluginNode(p, body) => HeadRuns(stack, BlockOpen(p), [InPlugin(p)], body);
  }

  /** Entries an elseif or else adds to those already there. */
  function MoreEntries(seen: bool, t: Tail): Stack
    decreases t
  {
    match t
    case NoTail => []
    case ElseTail(_) => [InElse]
    case ElseIfTail(_, _, more) => (if seen then [] else [InElseIf]) + MoreEntries(true, more)
  }

  lemma {:induction false} ChainIsMore(seen: bool, t: Tail)
    ensures ChainEntries(seen, t) == ChainEntries(seen, NoTail) + MoreEntries(seen, t)
    decreases t
  {
    match t
    case NoTail =>
    case ElseTail(_) =>
    case ElseIfTail(_, _, more) => ChainIsMore(true, more);
  }

  lemma {:induction false} TailRuns(t: Tail, stack: Stack, seen: bool)
    requires stack != [] && stack[|stack| - 1] == if seen then InElseIf else InIf
    ensures RunStack(stack, FlattenTail(t)) == Some(stack + MoreEntries(seen, t))
    decreases t, 0
  {
    match t
    case NoTail => assert stack + [] == stack;
    case ElseTail(body) => HeadRuns(stack, Else, [InElse], body);
    case ElseIfTail(c, body, more) =>
      var entry := if seen then [] else [InElseIf];
      if seen { assert stack + [] == stack; }
      HeadRuns(stack, ElseIf(c), entry, body);
      TailRuns(more, stack + entry, true);
      Join(stack, [ElseIf(c)] + Flatten(body), entry, FlattenTail(more), MoreEntries(true, more));
  }

  lemma {:induction false} ElsesRun(e: Elses, stack: Stack, tag: Tag, mark: Open)
    requires forall s: Stack :: NextStack(s, tag) == Some(s + [mark])
    ensures RunStack(stack, FlattenElses(tag, e)) == Some(stack + ElseEntries(mark, e))
    decreases e, 0
  {
    match e
    case NoElse => assert stack + [] == stack;
    case ElseBody(body, more) =>
      HeadRuns(stack, tag, [mark], body);
      ElsesRun(more, stack + [mark], tag, mark);
      Join(stack, [tag] + Flatten(body), [mark], FlattenElses(tag, more), ElseEntries(mark, more));
      MarkFirstOrLast(mark, more);
  }

  lemma {:induction false} MarkFirstOrLast(mark: Open, e: Elses)
    ensures [mark] + ElseEntries(mark, e) == ElseEntries(mark, e) + [mark]
  {
    match e
    case NoElse =>
    case ElseBody(_, more) =>
      MarkFirstOrLast(mark, more);
      assert [mark] + (ElseEntries(mark, more) + [mark]) == ([mark] + ElseEntries(mark, more)) + [mark];
  }

  // ----- a misplaced else of a loop is never forgiven -----

  /** An else mark that does not stand on its own section or foreach. */
  predicate Stray(stack: Stack, i: nat) {
    && i < |stack|
    && (stack[i] == InSectionElse ==> i == 0 || stack[i - 1] !in [InSection, InSectionElse])
    && (stack[i] == InForeachElse ==> i == 0 || stack[i - 1] !in [InForeach, InForeachElse])
    && stack[i] in [InSectionElse, InForeachElse]
  }

  lemma {:induction false} StrayNotPopped(stack: Stack, i: nat, close: Open)
    requires Stray(stack, i) && close !in [InSectionElse, InForeachElse]
    ensures match Pop(stack, close)
            case None => true
            case Some((left, _)) => i < |left| && left[..i + 1] == stack[..i + 1]
    decreases |stack|
  {
    var below := stack[..|stack| - 1];
    if i < |below| {
      assert below[..i + 1] == stack[..i + 1];
      StrayNotPopped(below, i, close);
    } else {
      assert Pop(below, close) == None || close !in [InSection, InForeach] || stack[i] == close
        || (close == InSection && stack[i] == InForeachElse) || (close == InForeach && stack[i] == InSectionElse);
    }
  }

  lemma StrayStays(stack: Stack, i: nat, tag: Tag)
    requires Stray(stack, i)
    ensures match NextStack(stack, tag)
            case None => true
            case Some(next) => Stray(next, i)
  {
    match tag
    case EndIf => StrayNotPopped(stack, i, InIf);
    case EndSection => StrayNotPopped(stack, i, InSection);
    case EndForeach => StrayNotPopped(stack, i, InForeach);
    case EndStrip => StrayNotPopped(stack, i, InStrip);
    case BlockClose(p) => StrayNotPopped(stack, i, InPlugin(p));
    case _ =>
  }

  lemma {:induction false} StrayRejected(stack: Stack, i: nat, tags: seq<Tag>)
    requires Stray(stack, i)
    ensures RunStack(stack, tags) != Some([])
    decreases |tags|
  {
    if tags != [] {
      StrayStays(stack, i, tags[0]);
      match NextStack(stack, tags[0])
      case None =>
      case Some(next) => StrayRejected(next, i, tags[1..]);
    }
  }
}
