/**
 A tree under construction, and how it grows tag by tag: a zipper has the trees that
 are still open, one inside the other, and the tags it has read so far. Its open
 entries are the tag stack. Each step keeps it proper, so that every tag the stack
 accepts has its place in the tree.
 */
module Zippers {
  import opened Options
  import opened Template
  import opened TagMachine
  import opened TagStack

  datatype Zipper = Root(block: Block) | Inside(outer: Zipper, node: Node)

  predicate Proper(z: Zipper) {
    z.Inside? ==> !IsLeaf(z.node) && Proper(z.outer)
  }

  function Consumed(z: Zipper): seq<Tag> {
    match z
    case Root(b) => Flatten(b)
    case Inside(outer, n) => Consumed(outer) + OpenText(n)
  }

  function OpenEntries(z: Zipper): Stack {
    match z
    case Root(_) => []
    case Inside(outer, n) => OpenEntries(outer) + Entries(n)
  }

  function AddToTail(t: Tail, n: Node): Tail
    requires t != NoTail
  {
    match t
    case ElseTail(b) => ElseTail(Append(b, n))
    case ElseIfTail(c, b, NoTail) => ElseIfTail(c, Append(b, n), NoTail)
    case ElseIfTail(c, b, more) => ElseIfTail(c, b, AddToTail(more, n))
  }

  function AddToElses(e: Elses, n: Node): Elses
    requires e != NoElse
  {
    match e
    case ElseBody(b, more) =>
      if more == NoElse then ElseBody(Append(b, n), more) else ElseBody(b, AddToElses(more, n))
  }

  function AddToLoop(b: Block, e: Elses, n: Node): (Block, Elses) {
    if e == NoElse then (Append(b, n), e) else (b, AddToElses(e, n))
  }

  /** Puts a finished node at the end of the body that is being read. */
  function AddChild(m: Node, n: Node): Node
    requires !IsLeaf(m)
  {
    match m
    case Choice(c, b, tail) =>
      if tail == NoTail then Choice(c, Append(b, n), tail) else Choice(c, b, AddToTail(tail, n))
    case SectionNode(name, args, b, elses) =>
      var (b', elses') := AddToLoop(b, elses, n);
      SectionNode(name, args, b', elses')
    case ForeachNode(each, b, elses) =>
      var (b', elses') := AddToLoop(b, elses, n);
      ForeachNode(each, b', elses')
    case StripNode(b) => StripNode(Append(b, n))
    case PluginNode(p, b) => PluginNode(p, Append(b, n))
  }

  lemma NothingMore(text: seq<Tag>)
    ensures text + [] == text
  {}

  lemma AddToBodyText(head: Tag, b: Block, n: Node)
    ensures [head] + Flatten(Append(b, n)) == [head] + Flatten(b) + FlattenNode(n)
  {
    FlattenAppend(b, n);
    Assoc([head], Flatten(b), FlattenNode(n));
  }

  lemma {:induction false} AddToTailText(t: Tail, n: Node, seen: bool)
    requires t != NoTail
    ensures FlattenTail(AddToTail(t, n)) == FlattenTail(t) + FlattenNode(n)
    ensures ChainEntries(seen, AddToTail(t, n)) == ChainEntries(seen, t)
  {
    match t
    case ElseTail(b) => AddToBodyText(Else, b, n);
    case ElseIfTail(c, b, NoTail) => AddToBodyText(ElseIf(c), b, n);
    case ElseIfTail(c, b, more) =>
      AddToTailText(more, n, true);
      Assoc([ElseIf(c)] + Flatten(b), FlattenTail(more), FlattenNode(n));
  }

  lemma ElsesFurther(tag: Tag, b: Block, more: Elses, longer: Elses, text: seq<Tag>)
    requires FlattenElses(tag, longer) == FlattenElses(tag, more) + text
    ensures FlattenElses(tag, ElseBody(b, longer)) == FlattenElses(tag, ElseBody(b, more)) + text
  {
    Assoc([tag] + Flatten(b), FlattenElses(tag, more), text);
  }

  lemma {:induction false} AddToElsesText(e: Elses, n: Node, tag: Tag, mark: Open)
    requires e != NoElse
    ensures FlattenElses(tag, AddToElses(e, n)) == FlattenElses(tag, e) + FlattenNode(n)
    ensures ElseEntries(mark, AddToElses(e, n)) == ElseEntries(mark, e)
  {
    match e
    case ElseBody(b, more) =>
      if more == NoElse {
        AddToBodyText(tag, b, n);
        NothingMore([tag] + Flatten(Append(b, n)));
        NothingMore([tag] + Flatten(b));
      } else {
        AddToElsesText(more, n, tag, mark);
        ElsesFurther(tag, b, more, AddToElses(more, n), FlattenNode(n));
      }
  }

  lemma AddToLoopText(head: Tag, b: Block, e: Elses, n: Node, tag: Tag, mark: Open)
    ensures var (b', e') := AddToLoop(b, e, n);
            && [head] + Flatten(b') + FlattenElses(tag, e')
               == [head] + Flatten(b) + FlattenElses(tag, e) + FlattenNode(n)
            && ElseEntries(mark, e') == ElseEntries(mark, e)
  {
    if e == NoElse {
      AddToBodyText(head, b, n);
      NothingMore([head] + Flatten(Append(b, n)));
      NothingMore([head] + Flatten(b));
    } else {
      AddToElsesText(e, n, tag, mark);
      Assoc([head] + Flatten(b), FlattenElses(tag, e), FlattenNode(n));
    }
  }

  lemma AddToChoiceText(c: Condition, b: Block, tail: Tail, n: Node)
    ensures OpenText(AddChild(Choice(c, b, tail), n)) == OpenText(Choice(c, b, tail)) + FlattenNode(n)
    ensures Entries(AddChild(Choice(c, b, tail), n)) == Entries(Choice(c, b, tail))
  {
    if tail == NoTail {
      AddToBodyText(If(c), b, n);
      NothingMore([If(c)] + Flatten(Append(b, n)));
      NothingMore([If(c)] + Flatten(b));
    } else {
      AddToTailText(tail, n, false);
      Assoc([If(c)] + Flatten(b), FlattenTail(tail), FlattenNode(n));
    }
  }

  lemma AddChildText(m: Node, n: Node)
    requires !IsLeaf(m)
    ensures !IsLeaf(AddChild(m, n))
    ensures OpenText(AddChild(m, n)) == OpenText(m) + FlattenNode(n)
    ensures Entries(AddChild(m, n)) == Entries(m)
  {
    match m
    case Choice(c, b, tail) => AddToChoiceText(c, b, tail, n);
    case SectionNode(name, args, b, elses) =>
      AddToLoopText(Section(name, args), b, elses, n, SectionElse, InSectionElse);
    case ForeachNode(each, b, elses) =>
      AddToLoopText(Foreach(each), b, elses, n, ForeachElse, InForeachElse);
    case StripNode(b) => AddToBodyText(Strip, b, n);
    case PluginNode(p, b) => AddToBodyText(BlockOpen(p), b, n);
  }

  /** Adding a finished node in the innermost open body. */
  lemma Finish(z: Zipper, n: Node) returns (next: Zipper)
    requires Proper(z)
    ensures Proper(next)
    ensures Consumed(next) == Consumed(z) + FlattenNode(n)
    ensures OpenEntries(next) == OpenEntries(z)
  {
    match z
    case Root(b) =>
      FlattenAppend(b, n);
      next := Root(Append(b, n));
    case Inside(outer, m) =>
      AddChildText(m, n);
      next := Inside(outer, AddChild(m, n));
  }

  /** The innermost node is the one a fitting closing tag closes. */
  lemma Close(z: Zipper, close: Open) returns (next: Zipper)
    requires Proper(z)
    requires Popped(OpenEntries(z), close).Some?
    requires close.InIf? || close.InSection? || close.InForeach? || close.InStrip? || close.InPlugin?
    ensures z.Inside? && Closer(z.node) == close
    ensures Proper(next)
    ensures Consumed(next) == Consumed(z) + CloseText(z.node)
    ensures Popped(OpenEntries(z), close) == Some(OpenEntries(next))
  {
    match z
    case Root(_) => next := z;
    case Inside(outer, n) =>
      if close != Closer(n) {
        CloseOtherBlock(OpenEntries(outer), n, close);
      }
      CloseOwnBlock(OpenEntries(outer), n);
      next := Finish(outer, n);
      assert Consumed(outer) + (OpenText(n) + CloseText(n)) == Consumed(outer) + OpenText(n) + CloseText(n);
  }

  function ExtendTail(t: Tail, last: Tail): Tail
    requires !EndsWithElse(t)
  {
    match t
    case NoTail => last
    case ElseIfTail(c, b, more) => ElseIfTail(c, b, ExtendTail(more, last))
  }

  lemma {:induction false} ExtendTailText(t: Tail, last: Tail, seen: bool)
    requires !EndsWithElse(t)
    ensures FlattenTail(ExtendTail(t, last)) == FlattenTail(t) + FlattenTail(last)
    ensures ChainEntries(seen, ExtendTail(t, last)) == ChainEntries(seen || t != NoTail, last)
    decreases t
  {
    match t
    case NoTail => assert [] + FlattenTail(last) == FlattenTail(last);
    case ElseIfTail(c, b, more) =>
      ExtendTailText(more, last, true);
      Assoc([ElseIf(c)] + Flatten(b), FlattenTail(more), FlattenTail(last));
  }

  function ExtendElses(e: Elses): Elses {
    match e
    case NoElse => ElseBody(Done, NoElse)
    case ElseBody(b, more) => ElseBody(b, ExtendElses(more))
  }

  lemma {:induction false} ExtendElsesText(e: Elses, tag: Tag, mark: Open)
    ensures FlattenElses(tag, ExtendElses(e)) == FlattenElses(tag, e) + [tag]
    ensures ElseEntries(mark, ExtendElses(e)) == ElseEntries(mark, e) + [mark]
  {
    match e
    case NoElse =>
    case ElseBody(b, more) => ExtendElsesText(more, tag, mark);
  }

  lemma Enter(z: Zipper, n: Node) returns (next: Zipper)
    requires Proper(z) && !IsLeaf(n)
    ensures Proper(next) && Consumed(next) == Consumed(z) + OpenText(n)
            && OpenEntries(next) == OpenEntries(z) + Entries(n)
  {
    next := Inside(z, n);
  }

  /** More text in the innermost node. */
  lemma Replace(z: Zipper, n: Node, more: seq<Tag>, entry: Stack) returns (next: Zipper)
    requires Proper(z) && z.Inside? && !IsLeaf(n)
    requires OpenText(n) == OpenText(z.node) + more && Entries(n) == Entries(z.node) + entry
    ensures Proper(next) && Consumed(next) == Consumed(z) + more && OpenEntries(next) == OpenEntries(z) + entry
  {
    Assoc(Consumed(z.outer), OpenText(z.node), more);
    Assoc(OpenEntries(z.outer), Entries(z.node), entry);
    next := Inside(z.outer, n);
  }

  /** A new clause with an empty body. */
  predicate FreshClause(t: Tail) {
    t == ElseTail(Done) || (t.ElseIfTail? && t.body == Done && t.tail == NoTail)
  }

  function ClauseEntries(seen: bool, t: Tail): Stack {
    if t.ElseTail? then [InElse] else if seen then [] else [InElseIf]
  }

  lemma ExtendChoiceText(c: Condition, b: Block, tail: Tail, last: Tail)
    requires !EndsWithElse(tail) && FreshClause(last)
    ensures var n, longer := Choice(c, b, tail), Choice(c, b, ExtendTail(tail, last));
            && OpenText(longer) == OpenText(n) + FlattenTail(last)
            && Entries(longer) == Entries(n) + ClauseEntries(tail != NoTail, last)
  {
    ExtendTailText(tail, last, false);
    ChainShape(false, tail);
    Assoc([If(c)] + Flatten(b), FlattenTail(tail), FlattenTail(last));
  }

  /** `{else}` or `{elseif}` in the innermost node, which must be an if without an else. */
  lemma ExtendChoice(z: Zipper, last: Tail) returns (next: Zipper)
    requires Proper(z) && ExpectsElse(OpenEntries(z)) && FreshClause(last)
    ensures Proper(next)
    ensures Consumed(next) == Consumed(z) + FlattenTail(last)
    ensures OpenEntries(next) == OpenEntries(z)
              + ClauseEntries(OpenEntries(z)[|OpenEntries(z)| - 1] != InIf, last)
  {
    match z
    case Root(_) => next := z;
    case Inside(outer, n) =>
      InnermostChoice(outer, n);
      ExtendChoiceText(n.cond, n.body, n.tail, last);
      ChainShape(false, n.tail);
      next := Replace(z, Choice(n.cond, n.body, ExtendTail(n.tail, last)), FlattenTail(last),
                      ClauseEntries(n.tail != NoTail, last));
      assert OpenEntries(z)[|OpenEntries(z)| - 1] == Entries(n)[|Entries(n)| - 1];
  }

  lemma InnermostChoice(outer: Zipper, n: Node)
    requires !IsLeaf(n) && ExpectsElse(OpenEntries(outer) + Entries(n))
    ensures n.Choice? && !EndsWithElse(n.tail)
  {
    var stack := OpenEntries(outer) + Entries(n);
    match n
    case Choice(_, _, tail) => ChainShape(false, tail);
    case SectionNode(_, _, _, elses) => ElseEntriesLast(InSectionElse, elses);
    case ForeachNode(_, _, elses) => ElseEntriesLast(InForeachElse, elses);
    case StripNode(_) =>
    case PluginNode(_, _) =>
  }

  lemma ExtendLoopText(head: Tag, b: Block, e: Elses, tag: Tag, open: Open, mark: Open)
    ensures [head] + Flatten(b) + FlattenElses(tag, ExtendElses(e))
         == [head] + Flatten(b) + FlattenElses(tag, e) + [tag]
    ensures [open] + ElseEntries(mark, ExtendElses(e)) == [open] + ElseEntries(mark, e) + [mark]
  {
    ExtendElsesText(e, tag, mark);
    Assoc([head] + Flatten(b), FlattenElses(tag, e), [tag]);
    Assoc([open], ElseEntries(mark, e), [mark]);
  }

  /** `{sectionelse}` and `{foreachelse}` in a loop of their kind. */
  lemma ExtendLoop(z: Zipper, tag: Tag, mark: Open) returns (next: Zipper)
    requires Proper(z) && z.Inside?
    requires (tag == SectionElse && mark == InSectionElse && z.node.SectionNode?)
          || (tag == ForeachElse && mark == InForeachElse && z.node.ForeachNode?)
    ensures Proper(next)
    ensures Consumed(next) == Consumed(z) + [tag]
    ensures OpenEntries(next) == OpenEntries(z) + [mark]
  {
    match z.node
    case SectionNode(name, args, b, elses) =>
      ExtendLoopText(Section(name, args), b, elses, tag, InSection, mark);
      next := Replace(z, SectionNode(name, args, b, ExtendElses(elses)), [tag], [mark]);
    case ForeachNode(each, b, elses) =>
      ExtendLoopText(Foreach(each), b, elses, tag, InForeach, mark);
      next := Replace(z, ForeachNode(each, b, ExtendElses(elses)), [tag], [mark]);
  }

  lemma MisplacedElse(z: Zipper, mark: Open)
    requires Proper(z) && mark in [InSectionElse, InForeachElse]
    requires z.Root? || (mark == InSectionElse && !z.node.SectionNode?)
             || (mark == InForeachElse && !z.node.ForeachNode?)
    ensures Stray(OpenEntries(z) + [mark], |OpenEntries(z)|)
  {
    match z
    case Root(_) =>
    case Inside(outer, n) =>
      match n
      case Choice(_, _, tail) => ChainShape(false, tail);
      case SectionNode(_, _, _, elses) => ElseEntriesLast(InSectionElse, elses);
      case ForeachNode(_, _, elses) => ElseEntriesLast(InForeachElse, elses);
      case StripNode(_) =>
      case PluginNode(_, _) =>
  }

  /** Reading one more tag of a text that will be accepted. */
  predicate OpensNode(tag: Tag) {
    tag.If? || tag.Section? || tag.Foreach? || tag.Strip? || tag.BlockOpen?
  }

  lemma ReadOpening(z: Zipper, tag: Tag) returns (next: Zipper)
    requires Proper(z) && OpensNode(tag)
    ensures Proper(next)
    ensures Consumed(next) == Consumed(z) + [tag]
    ensures NextStack(OpenEntries(z), tag) == Some(OpenEntries(next))
  {
    match tag
    case If(c) =>
      Single(InIf);
      Single(tag);
      next := Enter(z, Choice(c, Done, NoTail));
    case Section(name, args) =>
      Single(InSection);
      Single(tag);
      next := Enter(z, SectionNode(name, args, Done, NoElse));
    case Foreach(each) =>
      Single(InForeach);
      Single(tag);
      next := Enter(z, ForeachNode(each, Done, NoElse));
    case Strip =>
      Single(tag);
      next := Enter(z, StripNode(Done));
    case BlockOpen(p) =>
      Single(tag);
      next := Enter(z, PluginNode(p, Done));
  }

  /** `{sectionelse}` or `{foreachelse}`, which must be in a loop of its kind for the stack to be emptied. */
  lemma ReadLoopElse(z: Zipper, tag: Tag, mark: Open, rest: seq<Tag>) returns (next: Zipper)
    requires Proper(z)
    requires (tag == SectionElse && mark == InSectionElse) || (tag == ForeachElse && mark == InForeachElse)
    requires RunStack(OpenEntries(z) + [mark], rest) == Some([])
    ensures Proper(next)
    ensures Consumed(next) == Consumed(z) + [tag]
    ensures OpenEntries(next) == OpenEntries(z) + [mark]
  {
    if z.Root? || (mark == InSectionElse && !z.node.SectionNode?) || (mark == InForeachElse && !z.node.ForeachNode?) {
      MisplacedElse(z, mark);
      StrayRejected(OpenEntries(z) + [mark], |OpenEntries(z)|, rest);
    }
    next := ExtendLoop(z, tag, mark);
  }

  /** `{elseif}` or `{else}`. */
  lemma ReadElse(z: Zipper, tag: Tag) returns (next: Zipper)
    requires Proper(z) && (tag.ElseIf? || tag.Else?) && NextStack(OpenEntries(z), tag).Some?
    ensures Proper(next)
    ensures Consumed(next) == Consumed(z) + [tag]
    ensures NextStack(OpenEntries(z), tag) == Some(OpenEntries(next))
  {
    if tag.ElseIf? {
      next := ExtendChoice(z, ElseIfTail(tag.cond, Done, NoTail));
      Nothing(OpenEntries(z));
      assert FlattenTail(ElseIfTail(tag.cond, Done, NoTail)) == [tag];
    } else {
      next := ExtendChoice(z, ElseTail(Done));
      assert FlattenTail(ElseTail(Done)) == [tag];
    }
  }

  lemma ReadTag(z: Zipper, tag: Tag, rest: seq<Tag>) returns (next: Zipper)
    requires Proper(z)
    requires NextStack(OpenEntries(z), tag).Some?
    requires RunStack(NextStack(OpenEntries(z), tag).value, rest) == Some([])
    ensures Proper(next)
    ensures Consumed(next) == Consumed(z) + [tag]
    ensures NextStack(OpenEntries(z), tag) == Some(OpenEntries(next))
  {
    match tag
    case Output(text) => next := Finish(z, Print(text));
    case Function(p, action) => next := Finish(z, Call(p, action));
    case ElseIf(_) => next := ReadElse(z, tag);
    case Else => next := ReadElse(z, tag);
    case EndIf => next := Close(z, InIf);
    case SectionElse => next := ReadLoopElse(z, SectionElse, InSectionElse, rest);
    case EndSection => next := Close(z, InSection);
    case ForeachElse => next := ReadLoopElse(z, ForeachElse, InForeachElse, rest);
    case EndForeach => next := Close(z, InForeach);
    case EndStrip => next := Close(z, InStrip);
    case BlockClose(p) => next := Close(z, InPlugin(p));
    case _ => next := ReadOpening(z, tag);
  }

  lemma NonLeafEntries(n: Node)
    ensures !IsLeaf(n) ==> |Entries(n)| > 0
  {}

  lemma AllClosed(z: Zipper)
    requires Proper(z) && OpenEntries(z) == []
    ensures z.Root? && Flatten(z.block) == Consumed(z) + []
  {
    match z
    case Root(_) =>
    case Inside(_, n) => NonLeafEntries(n);
  }
}
