/**
 The counters of the tag compiler agree with its stack in every state a run can
 reach, and the markers it emits around uncached output and stripped text are
 well formed.
 */
module Regions {
  import opened Options
  import opened Template
  import opened TagMachine

  /** How many entries of a stack are in `which`. */
  function Count(stack: Stack, which: set<Open>): nat {
    if stack == [] then 0
    else (if stack[|stack| - 1] in which then 1 else 0) + Count(stack[..|stack| - 1], which)
  }

  /** Open strip tags. */
  function StripTags(stack: Stack): nat {
    Count(stack, {InStrip})
  }

  function UncachedOpens(reg: Registry): (opens: set<Open>)
    ensures forall o: Open :: o in opens <==> o.InPlugin? && o.plugin in reg.blocks
  {
    set p | p in reg.blocks :: InPlugin(p)
  }

  /** Open blocks of plugins that must not be cached. */
  function UncachedBlocks(reg: Registry, stack: Stack): nat {
    Count(stack, UncachedOpens(reg))
  }

  /** The counters are what the stack says. */
  predicate Consistent(reg: Registry, s: State) {
    && s.stripDepth == StripTags(s.stack)
    && s.additionalNewline == (if s.stripDepth == 0 then "\n" else "")
    && s.cacheableState == UncachedBlocks(reg, s.stack)
  }

  lemma CountPush(stack: Stack, open: Open, which: set<Open>)
    ensures Count(stack + [open], which) == Count(stack, which) + if open in which then 1 else 0
  {
    assert (stack + [open])[..|stack|] == stack;
  }

  /** A pop removes one entry of the closing tag's kind, and otherwise only else marks. */
  lemma {:induction false} CountPop(stack: Stack, close: Open, which: set<Open>)
    requires Pop(stack, close).Some?
    requires forall open: Open :: open in which ==> open.InStrip? || open.InPlugin?
    ensures Count(Pop(stack, close).value.0, which) == Count(stack, which) - if close in which then 1 else 0
    decreases |stack|
  {
    var top, below := stack[|stack| - 1], stack[..|stack| - 1];
    if top != close {
      CountPop(below, close, which);
    }
  }

  /** What a tag pushes, if anything, and what it closes, if anything. */
  lemma CountNext(stack: Stack, tag: Tag, which: set<Open>)
    requires NextStack(stack, tag).Some?
    requires forall open: Open :: open in which ==> open.InStrip? || open.InPlugin?
    ensures Count(NextStack(stack, tag).value, which) == Count(stack, which)
              + (if (tag == Strip && InStrip in which) || (tag.BlockOpen? && InPlugin(tag.plugin) in which) then 1
                 else if tag == EndStrip && InStrip in which then -1
                 else if tag.BlockClose? && InPlugin(tag.plugin) in which then -1
                 else 0)
  {
    match tag
    case EndIf => CountPop(stack, InIf, which);
    case EndSection => CountPop(stack, InSection, which);
    case EndForeach => CountPop(stack, InForeach, which);
    case EndStrip => CountPop(stack, InStrip, which);
    case BlockClose(p) => CountPop(stack, InPlugin(p), which);
    case If(_) => CountPush(stack, InIf, which);
    case ElseIf(_) => CountPush(stack, InElseIf, which);
    case Else => CountPush(stack, InElse, which);
    case Section(_, _) => CountPush(stack, InSection, which);
    case SectionElse => CountPush(stack, InSectionElse, which);
    case Foreach(_) => CountPush(stack, InForeach, which);
    case ForeachElse => CountPush(stack, InForeachElse, which);
    case Strip => CountPush(stack, InStrip, which);
    case BlockOpen(p) => CountPush(stack, InPlugin(p), which);
    case _ =>
  }

  // ----- markers -----

  /**
   Reading no-cache markers: from a region numbered `next` onwards, open or not, to
   the number and openness at the end; None if two markers of a kind follow one
   another or a number is out of order.
   */
  function TrackCache(marks: seq<CacheMark>, next: int, open: bool): Option<(int, bool)> {
    if marks == [] then Some((next, open))
    else
      match marks[0]
      case CacheOff(n) => if !open && n == next then TrackCache(marks[1..], next, true) else None
      case CacheOn(n) => if open && n == next then TrackCache(marks[1..], next + 1, false) else None
  }

  /** Reading strip markers in the same way. */
  function TrackStrip(marks: seq<Option<StripMark>>, open: bool): Option<bool> {
    if marks == [] then Some(open)
    else
      match marks[0]
      case None => TrackStrip(marks[1..], open)
      case Some(StripBegins) => if open then None else TrackStrip(marks[1..], true)
      case Some(StripEnds) => if open then TrackStrip(marks[1..], false) else None
  }

  function CacheMarks(outs: seq<Compiled>): seq<CacheMark> {
    if outs == [] then [] else outs[0].before + outs[0].after + CacheMarks(outs[1..])
  }

  function StripMarks(outs: seq<Compiled>): (marks: seq<Option<StripMark>>)
    ensures |marks| == |outs|
  {
    if outs == [] then [] else [outs[0].strip] + StripMarks(outs[1..])
  }

  lemma {:induction false} TrackCacheAppend(a: seq<CacheMark>, b: seq<CacheMark>, next: int, open: bool)
    requires TrackCache(a, next, open).Some?
    ensures var (n, o) := TrackCache(a, next, open).value;
            TrackCache(a + b, next, open) == TrackCache(b, n, o)
    decreases |a|
  {
    if a == [] {
      assert a + b == b;
    } else {
      assert (a + b)[0] == a[0] && (a + b)[1..] == a[1..] + b;
      match a[0]
      case CacheOff(_) => TrackCacheAppend(a[1..], b, next, true);
      case CacheOn(_) => TrackCacheAppend(a[1..], b, next + 1, false);
    }
  }

  /** The markers take the reader from the region state of one compiler state to that of another. */
  predicate Tracks(s: State, marks: seq<CacheMark>, next: State) {
    TrackCache(marks, s.nocacheCount, s.cacheableState > 0) == Some((next.nocacheCount, next.cacheableState > 0))
  }

  lemma PushTracks(s: State, cacheable: bool)
    requires s.cacheableState >= 0
    ensures Tracks(s, PushCacheable(s, cacheable).1, PushCacheable(s, cacheable).0)
  {
    assert [CacheOff(s.nocacheCount)][1..] == [];
  }

  lemma PopTracks(s: State, cacheable: bool)
    requires !cacheable ==> s.cacheableState > 0
    ensures Tracks(s, PopCacheable(s, cacheable).1, PopCacheable(s, cacheable).0)
  {
    assert [CacheOn(s.nocacheCount)][1..] == [];
  }

  lemma TracksOn(s: State, a: seq<CacheMark>, mid: State, b: seq<CacheMark>, end: State)
    requires Tracks(s, a, mid) && Tracks(mid, b, end)
    ensures Tracks(s, a + b, end)
  {
    TrackCacheAppend(a, b, s.nocacheCount, s.cacheableState > 0);
  }

  /** One tag keeps the counters right. */
  lemma StepKeepsCounts(reg: Registry, s: State, tag: Tag)
    requires Consistent(reg, s) && Step(reg, s, tag).Some?
    ensures Consistent(reg, Step(reg, s, tag).value.0)
  {
    CountNext(s.stack, tag, {InStrip});
    CountNext(s.stack, tag, UncachedOpens(reg));
  }

  /** A region that is begun and ended at once. */
  lemma BothTrack(s: State, cacheable: bool)
    requires s.cacheableState >= 0
    ensures var (left, off) := PushCacheable(s, cacheable);
            var (next, on) := PopCacheable(left, cacheable);
            Tracks(s, off + on, next)
  {
    var (left, off) := PushCacheable(s, cacheable);
    var (next, on) := PopCacheable(left, cacheable);
    PushTracks(s, cacheable);
    PopTracks(left, cacheable);
    TracksOn(s, off, left, on, next);
  }

  /** The markers of one tag fit the state it is met in. */
  lemma StepTracks(reg: Registry, s: State, tag: Tag)
    requires Consistent(reg, s) && Step(reg, s, tag).Some?
    ensures var (next, out) := Step(reg, s, tag).value;
            && Tracks(s, out.before + out.after, next)
            && TrackStrip([out.strip], s.stripDepth > 0) == Some(next.stripDepth > 0)
  {
    if tag.BlockClose? { CountNext(s.stack, tag, UncachedOpens(reg)); }
    StepTracksCache(reg, s, tag);
    StepTracksStrip(reg, s, tag);
  }

  lemma StepTracksCache(reg: Registry, s: State, tag: Tag)
    requires Step(reg, s, tag).Some? && s.cacheableState >= 0
    requires tag.BlockClose? && tag.plugin in reg.blocks ==> s.cacheableState > 0
    ensures var (next, out) := Step(reg, s, tag).value;
            Tracks(s, out.before + out.after, next)
  {
    var out := Step(reg, s, tag).value.1;
    var moved := s.(stack := NextStack(s.stack, tag).value);
    match tag
    case Function(p, _) => BothTrack(moved, p !in reg.functions);
    case BlockOpen(p) =>
      PushTracks(moved, p !in reg.blocks);
      assert out.before + out.after == out.before;
    case BlockClose(p) =>
      PopTracks(moved, p !in reg.blocks);
      assert out.before + out.after == out.after;
    case _ =>
      assert out.before + out.after == [];
  }

  lemma StepTracksStrip(reg: Registry, s: State, tag: Tag)
    requires Consistent(reg, s) && Step(reg, s, tag).Some?
    ensures var (next, out) := Step(reg, s, tag).value;
            TrackStrip([out.strip], s.stripDepth > 0) == Some(next.stripDepth > 0)
  {
    assert [Step(reg, s, tag).value.1.strip][1..] == [];
    if tag == EndStrip { CountNext(s.stack, tag, {InStrip}); }
  }

  /**
   In every state a run of tags can reach, the strip depth is the number of open
   strip tags and the no-cache counter the number of open uncached blocks, hence
   never negative. The no-cache markers strictly alternate, both ends of a region
   carry one number, and the numbers count up; the strip markers alternate.
   */
  lemma {:induction false} RunKeepsRegions(reg: Registry, s: State, tags: seq<Tag>)
    requires Consistent(reg, s) && Steps(reg, s, tags).Some?
    ensures var (end, outs) := Steps(reg, s, tags).value;
            && Consistent(reg, end)
            && Tracks(s, CacheMarks(outs), end)
            && TrackStrip(StripMarks(outs), s.stripDepth > 0) == Some(end.stripDepth > 0)
    decreases |tags|
  {
    if tags != [] {
      StepKeepsCounts(reg, s, tags[0]);
      StepTracks(reg, s, tags[0]);
      var (s1, out) := Step(reg, s, tags[0]).value;
      RunKeepsRegions(reg, s1, tags[1..]);
      var (end, outs) := Steps(reg, s1, tags[1..]).value;
      TracksOn(s, out.before + out.after, s1, CacheMarks(outs), end);
      assert ([out] + outs)[1..] == outs;
      assert StripMarks([out] + outs) == [out.strip] + StripMarks(outs);
      assert [out.strip][1..] == [];
      assert ([out.strip] + StripMarks(outs))[1..] == StripMarks(outs);
    }
  }

  /** A compiled template leaves no region open: the first is number 0, and all are closed. */
  lemma CompiledRegionsClosed(reg: Registry, tags: seq<Tag>)
    requires CompileAll(reg, INITIAL, tags).Some?
    ensures var (end, outs) := CompileAll(reg, INITIAL, tags).value;
            && TrackCache(CacheMarks(outs), 0, false) == Some((end.nocacheCount, false))
            && TrackStrip(StripMarks(outs), false) == Some(false)
  {
    RunKeepsRegions(reg, INITIAL, tags);
  }
}
