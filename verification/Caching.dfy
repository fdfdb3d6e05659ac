/**
 What is marked as not to be cached: in every accepted template, the output of the
 function plugins registered so, and of the block plugins registered so with all that is
 in them.
 */
module Caching {
  import opened Options
  import opened Template
  import opened TagMachine
  import opened Regions

  /** How many more blocks that must not be cached are opened than closed. */
  function Opened(reg: Registry, tags: seq<Tag>): int {
    if tags == [] then 0
    else
      (if tags[0].BlockOpen? && tags[0].plugin in reg.blocks then 1
       else if tags[0].BlockClose? && tags[0].plugin in reg.blocks then -1
       else 0) + Opened(reg, tags[1..])
  }

  lemma {:induction false} OpenedIsCounted(reg: Registry, s: State, tags: seq<Tag>)
    requires Steps(reg, s, tags).Some?
    ensures Steps(reg, s, tags).value.0.cacheableState == s.cacheableState + Opened(reg, tags)
    decreases |tags|
  {
    if tags != [] { OpenedIsCounted(reg, Step(reg, s, tags[0]).value.0, tags[1..]); }
  }

  /** The state in which tag i is met, and what it is compiled to. */
  lemma StateAt(reg: Registry, tags: seq<Tag>, i: nat) returns (s: State, next: State)
    requires Steps(reg, INITIAL, tags).Some? && i < |tags|
    ensures var outs := Steps(reg, INITIAL, tags).value.1;
            && Steps(reg, INITIAL, tags[..i]) == Some((s, outs[..i]))
            && Step(reg, s, tags[i]) == Some((next, outs[i]))
  {
    var front, tag, rest := tags[..i], tags[i], tags[i + 1..];
    assert tags == front + ([tag] + rest);
    StepsAppend(reg, INITIAL, front, [tag] + rest);
    var (at, done) := Steps(reg, INITIAL, front).value;
    Cons(tag, rest);
    s, next := at, Step(reg, at, tag).value.0;
    var outs, more := Steps(reg, INITIAL, tags).value.1, Steps(reg, s, [tag] + rest).value.1;
    TakeDrop(done, more);
    assert outs[i] == more[0];
  }

  /**
   For every accepted template and each of its tags: its markers. Only where no block that
   must not be cached is open, a function that must not be cached has the two ends of a
   region around its code; the outermost of such blocks has one at either of its tags.
   */
  lemma MarkersExactly(reg: Registry, tags: seq<Tag>, i: nat)
    requires CompileAll(reg, INITIAL, tags).Some? && i < |tags|
    ensures var outs, open := CompileAll(reg, INITIAL, tags).value.1, Opened(reg, tags[..i]);
            && open >= 0
            && match TrackCache(CacheMarks(outs[..i]), 0, false)
               case None => false
               case Some((n, inside)) =>
                 && (inside <==> open > 0)
                 && match tags[i]
                    case Function(p, _) =>
                      var alone := p in reg.functions && open == 0;
                      && outs[i].before == (if alone then [CacheOff(n)] else [])
                      && outs[i].after == (if alone then [CacheOn(n)] else [])
                    case BlockOpen(p) =>
                      && outs[i].before == (if p in reg.blocks && open == 0 then [CacheOff(n)] else [])
                      && outs[i].after == []
                    case BlockClose(p) =>
                      && (p in reg.blocks ==> open > 0)
                      && outs[i].before == []
                      && outs[i].after == (if p in reg.blocks && open == 1 then [CacheOn(n)] else [])
                    case _ => outs[i].before == [] && outs[i].after == []
  {
    var s, next := StateAt(reg, tags, i);
    OpenedIsCounted(reg, INITIAL, tags[..i]);
    RunKeepsRegions(reg, INITIAL, tags[..i]);
    if tags[i].BlockClose? { CountNext(s.stack, tags[i], UncachedOpens(reg)); }
  }

  /**
   For every accepted template: what is read in front of the code of a tag has just begun
   a region, or is inside one, exactly if the tag is a function or block that must not be
   cached, or is inside such a block.
   */
  lemma UncachedExactly(reg: Registry, tags: seq<Tag>, i: nat)
    requires CompileAll(reg, INITIAL, tags).Some? && i < |tags|
    ensures var outs := CompileAll(reg, INITIAL, tags).value.1;
            match TrackCache(CacheMarks(outs[..i]) + outs[i].before, 0, false)
            case None => false
            case Some((_, inside)) =>
              inside <==>
              || Opened(reg, tags[..i]) > 0
              || (tags[i].Function? && tags[i].plugin in reg.functions)
              || ((tags[i].BlockOpen? || tags[i].BlockClose?) && tags[i].plugin in reg.blocks)
  {
    MarkersExactly(reg, tags, i);
    var outs := CompileAll(reg, INITIAL, tags).value.1;
    TrackCacheAppend(CacheMarks(outs[..i]), outs[i].before, 0, false);
    var (n, inside) := TrackCache(CacheMarks(outs[..i]), 0, false).value;
    if outs[i].before == [CacheOff(n)] { Single(CacheOff(n)); }
  }
}
