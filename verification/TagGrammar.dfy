/**
 The language the tag stack decides: a list of tags is compiled without an error
 and with an empty stack exactly when it is the text of a template tree.
 */
module TagGrammar {
  import opened Options
  import opened Template
  import opened TagMachine
  import opened TagStack
  import opened Zippers

  lemma {:induction false} BuildTree(z: Zipper, tags: seq<Tag>) returns (b: Block)
    requires Proper(z)
    requires RunStack(OpenEntries(z), tags) == Some([])
    ensures Flatten(b) == Consumed(z) + tags
    decreases |tags|
  {
    if tags == [] {
      AllClosed(z);
      b := z.block;
    } else {
      var next := ReadTag(z, tags[0], tags[1..]);
      b := BuildTree(next, tags[1..]);
      FirstOver(Consumed(z), tags);
    }
  }

  /** The texts of the block grammar: if with any elseifs and at most one else, loops with else tags, strip, plugins. */
  ghost predicate Generated(tags: seq<Tag>) {
    exists b: Block :: Flatten(b) == tags
  }

  /** A template compiles without a fatal error exactly when its tags are the text of a tree. */
  lemma AcceptedExactly(reg: Registry, s: State, tags: seq<Tag>)
    requires s.stack == []
    ensures CompileAll(reg, s, tags).Some? <==> Generated(tags)
  {
    StepsFollowStack(reg, s, tags);
    if Generated(tags) {
      var b: Block :| Flatten(b) == tags;
      BlockKeepsStack(b, []);
    }
    if CompileAll(reg, s, tags).Some? {
      assert RunStack([], tags) == Some([]);
      var b := BuildTree(Root(Done), tags);
      assert [] + tags == tags;
      assert Flatten(b) == tags;
    }
  }
}
