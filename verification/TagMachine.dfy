/**
 The stateful part of the tag compiler: the stack of open tags, the strip depth
 and the no-cache counters, and the PHP control tokens each tag is turned into.
 Functions specify one step and the whole run; class TagCompiler performs them on its
 fields.
 */
module TagMachine {
  import opened Options
  import opened Template
  import opened PhpTokens

  /** An entry of `_tag_stack`. Plugin names are kept apart from control words. */
  datatype Open =
    | InIf | InElseIf | InElse
    | InSection | InSectionElse
    | InForeach | InForeachElse
    | InStrip
    | InPlugin(plugin: string)

  type Stack = seq<Open>

  /** Markers around output that must not be cached, and around stripped text. */
  datatype CacheMark = CacheOff(number: int) | CacheOn(number: int)
  datatype StripMark = StripBegins | StripEnds

  /** What compiling one tag yields: its code, no-cache markers in front of it and behind it, a strip marker. */
  datatype Compiled =
    Compiled(before: seq<CacheMark>, code: seq<Token>, after: seq<CacheMark>, strip: Option<StripMark>)

  /** Names of the plugins registered as not cacheable. */
  datatype Registry = Registry(blocks: set<string>, functions: set<string>)

  datatype State = State(
    stack: Stack,
    stripDepth: int,
    additionalNewline: string,
    cacheableState: int,
    nocacheCount: int)

  const INITIAL := State([], 0, "\n", 0, 0)

  // ----- the stack -----

  /** `_pop_tag`: the stack left over and the tag it reports, or None for a mismatch. */
  function Pop(stack: Stack, close: Open): (r: Option<(Stack, Open)>)
    decreases |stack|
  {
    if stack == [] then None
    else
      var top, below := stack[|stack| - 1], stack[..|stack| - 1];
      if top == close then Some((below, top))
      else if close == InIf && (top == InElse || top == InElseIf) then Pop(below, close)
      else if (close == InSection && top == InSectionElse) || (close == InForeach && top == InForeachElse) then
        match Pop(below, close)
        case None => None
        case Some((left, _)) => Some((left, top))
      else None
  }

  predicate ExpectsElse(stack: Stack) {
    stack != [] && (stack[|stack| - 1] == InIf || stack[|stack| - 1] == InElseIf)
  }

  function Popped(stack: Stack, close: Open): Option<Stack> {
    match Pop(stack, close)
    case None => None
    case Some((left, _)) => Some(left)
  }

  /** The stack after a tag; None is a fatal syntax error. */
  function NextStack(stack: Stack, tag: Tag): Option<Stack> {
    match tag
    case Output(_) => Some(stack)
    case Function(_, _) => Some(stack)
    case If(_) => Some(stack + [InIf])
    case ElseIf(_) =>
      if !ExpectsElse(stack) then None
      else if stack[|stack| - 1] == InIf then Some(stack + [InElseIf])
      else Some(stack)
    case Else => if ExpectsElse(stack) then Some(stack + [InElse]) else None
    case EndIf => Popped(stack, InIf)
    case Section(_, _) => Some(stack + [InSection])
    case SectionElse => Some(stack + [InSectionElse])
    case EndSection => Popped(stack, InSection)
    case Foreach(_) => Some(stack + [InForeach])
    case ForeachElse => Some(stack + [InForeachElse])
    case EndForeach => Popped(stack, InForeach)
    case Strip => Some(stack + [InStrip])
    case EndStrip => Popped(stack, InStrip)
    case BlockOpen(p) => Some(stack + [InPlugin(p)])
    case BlockClose(p) => Popped(stack, InPlugin(p))
  }

  /** The tag `_pop_tag` reports back for a closing tag. */
  function Reported(stack: Stack, close: Open): Option<Open> {
    match Pop(stack, close)
    case None => None
    case Some((_, open)) => Some(open)
  }

  // ----- the code -----

  /** PHP control tokens emitted for a tag that is accepted on this stack. */
  function CodeOf(stack: Stack, tag: Tag): seq<Token> {
    match tag
    case Output(text) => [Do(Echo(text))]
    case Function(_, action) => [Do(Run(action))]
    case If(c) => [OpenIf(Holds(c))]
    case ElseIf(c) => [OpenElseIf(c)]
    case Else => [OpenElse]
    case EndIf => [CloseIf]
    case Section(name, args) => [Do(SectionSetup(name, args)), OpenIf(Shown(name)), OpenFor(name)]
    case SectionElse => [CloseFor, OpenElse]
    case EndSection =>
      if Reported(stack, InSection) == Some(InSectionElse) then [CloseIf] else [CloseFor, CloseIf]
    case Foreach(each) => [Do(ForeachSetup(each)), OpenIf(NonEmpty(each.name)), OpenForeach(each)]
    case ForeachElse => [CloseForeach, OpenElse]
    case EndForeach =>
      if Reported(stack, InForeach) == Some(InForeachElse) then [CloseIf, Do(UnsetFrom)]
      else [CloseForeach, CloseIf, Do(UnsetFrom)]
    case Strip => []
    case EndStrip => []
    case BlockOpen(p) => [OpenBlock(p)]
    case BlockClose(p) => [CloseBlock(p)]
  }

  // ----- one step on the whole state -----

  /** `_push_cacheable_state`: the state and the marker, if this leaves the cacheable region. */
  function PushCacheable(s: State, cacheable: bool): (State, seq<CacheMark>) {
    if cacheable then (s, [])
    else
      (s.(cacheableState := s.cacheableState + 1),
       if 0 < s.cacheableState then [] else [CacheOff(s.nocacheCount)])
  }

  /** `_pop_cacheable_state`: the number is used up when the region ends. */
  function PopCacheable(s: State, cacheable: bool): (State, seq<CacheMark>) {
    if cacheable then (s, [])
    else if s.cacheableState - 1 > 0 then (s.(cacheableState := s.cacheableState - 1), [])
    else
      (s.(cacheableState := s.cacheableState - 1, nocacheCount := s.nocacheCount + 1),
       [CacheOn(s.nocacheCount)])
  }

  function OpenStrip(s: State): (State, Option<StripMark>) {
    if s.stripDepth == 0 then (s.(stripDepth := s.stripDepth + 1, additionalNewline := ""), Some(StripBegins))
    else (s.(stripDepth := s.stripDepth + 1), None)
  }

  function CloseStrip(s: State): (State, Option<StripMark>) {
    if s.stripDepth - 1 == 0 then (s.(stripDepth := s.stripDepth - 1, additionalNewline := "\n"), Some(StripEnds))
    else (s.(stripDepth := s.stripDepth - 1), None)
  }

  /** `_compile_tag`. */
  function Step(reg: Registry, s: State, tag: Tag): Option<(State, Compiled)> {
    match NextStack(s.stack, tag)
    case None => None
    case Some(stack) =>
      var code := CodeOf(s.stack, tag);
      var moved := s.(stack := stack);
      match tag
      case Function(p, _) =>
        var (left, off) := PushCacheable(moved, p !in reg.functions);
        var (back, on) := PopCacheable(left, p !in reg.functions);
        Some((back, Compiled(off, code, on, None)))
      case BlockOpen(p) =>
        var (left, off) := PushCacheable(moved, p !in reg.blocks);
        Some((left, Compiled(off, code, [], None)))
      case BlockClose(p) =>
        var (back, on) := PopCacheable(moved, p !in reg.blocks);
        Some((back, Compiled([], code, on, None)))
      case Strip =>
        var (inside, mark) := OpenStrip(moved);
        Some((inside, Compiled([], code, [], mark)))
      case EndStrip =>
        var (outside, mark) := CloseStrip(moved);
        Some((outside, Compiled([], code, [], mark)))
      case _ => Some((moved, Compiled([], code, [], None)))
  }

  /** Compiling a list of tags, one after the other. */
  function Steps(reg: Registry, s: State, tags: seq<Tag>): (r: Option<(State, seq<Compiled>)>)
    ensures r.Some? ==> |r.value.1| == |tags|
    decreases |tags|
  {
    if tags == [] then Some((s, []))
    else
      match Step(reg, s, tags[0])
      case None => None
      case Some((s1, out)) =>
        match Steps(reg, s1, tags[1..])
        case None => None
        case Some((s2, outs)) => Some((s2, [out] + outs))
  }

  /** The tag loop of `_compile_file` with its check that every tag was closed. */
  function CompileAll(reg: Registry, s: State, tags: seq<Tag>): Option<(State, seq<Compiled>)> {
    match Steps(reg, s, tags)
    case None => None
    case Some((s1, outs)) => if |s1.stack| > 0 then None else Some((s1, outs))
  }

  lemma {:induction false} StepsAppend(reg: Registry, s: State, a: seq<Tag>, b: seq<Tag>)
    ensures Steps(reg, s, a + b) ==
            match Steps(reg, s, a)
            case None => None
            case Some((s1, outs)) =>
              (match Steps(reg, s1, b)
               case None => None
               case Some((s2, more)) => Some((s2, outs + more)))
    decreases |a|
  {
    if a == [] {
      assert a + b == b;
      match Steps(reg, s, b)
      case None =>
      case Some((s2, more)) => assert [] + more == more;
    } else {
      assert (a + b)[0] == a[0] && (a + b)[1..] == a[1..] + b;
      match Step(reg, s, a[0])
      case None =>
      case Some((s1, out)) =>
        StepsAppend(reg, s1, a[1..], b);
        match Steps(reg, s1, a[1..])
        case None =>
        case Some((s2, outs)) =>
          match Steps(reg, s2, b)
          case None =>
          case Some((s3, more)) => assert [out] + (outs + more) == ([out] + outs) + more;
    }
  }

  lemma StepsOne(reg: Registry, s: State, tag: Tag)
    ensures Steps(reg, s, [tag]) ==
            match Step(reg, s, tag)
            case None => None
            case Some((s1, out)) => Some((s1, [out]))
  {
    assert [tag][1..] == [];
    match Step(reg, s, tag)
    case None =>
    case Some((s1, out)) => assert [out] + [] == [out];
  }

  // ----- the compiler object -----

  class TagCompiler {
    const registry: Registry
    var tagStack: Stack
    var stripDepth: int
    var additionalNewline: string
    var cacheableState: int
    var nocacheCount: int

    constructor (reg: Registry)
      ensures registry == reg && Now() == INITIAL
    {
      registry := reg;
      tagStack, stripDepth, additionalNewline := [], 0, "\n";
      cacheableState, nocacheCount := 0, 0;
    }

    ghost function Now(): State
      reads this
    {
      State(tagStack, stripDepth, additionalNewline, cacheableState, nocacheCount)
    }

    method PushTag(open: Open)
      modifies this`tagStack
      ensures tagStack == old(tagStack) + [open]
    {
      tagStack := tagStack + [open];
    }

    /** None is the fatal "mismatched tag" error. */
    method PopTag(close: Open) returns (open: Option<Open>)
      modifies this`tagStack
      ensures open == Reported(old(tagStack), close)
      ensures open.Some? ==> Popped(old(tagStack), close) == Some(tagStack)
      decreases |tagStack|
    {
      if |tagStack| > 0 {
        var top := tagStack[|tagStack| - 1];
        tagStack := tagStack[..|tagStack| - 1];
        if close == top {
          return Some(top);
        }
        if close == InIf && (top == InElse || top == InElseIf) {
          open := PopTag(close);
          return;
        }
        if (close == InSection && top == InSectionElse) || (close == InForeach && top == InForeachElse) {
          var below := PopTag(close);
          return if below.None? then None else Some(top);
        }
      }
      return None;
    }

    method PushCacheableState(cacheable: bool) returns (marks: seq<CacheMark>)
      modifies this`cacheableState
      ensures (Now(), marks) == PushCacheable(old(Now()), cacheable)
    {
      if cacheable { return []; }
      cacheableState := cacheableState + 1;
      if 0 < cacheableState - 1 { return []; }
      return [CacheOff(nocacheCount)];
    }

    method PopCacheableState(cacheable: bool) returns (marks: seq<CacheMark>)
      modifies this`cacheableState, this`nocacheCount
      ensures (Now(), marks) == PopCacheable(old(Now()), cacheable)
    {
      if cacheable { return []; }
      cacheableState := cacheableState - 1;
      if cacheableState > 0 { return []; }
      nocacheCount := nocacheCount + 1;
      return [CacheOn(nocacheCount - 1)];
    }

    /** `{strip}` and `{/strip}`: only the outermost ones leave a marker. */
    method CompileStripTag(starts: bool) returns (r: Option<Compiled>)
      modifies this
      ensures match Step(registry, old(Now()), if starts then Strip else EndStrip)
              case None => r == None
              case Some((s, out)) => r == Some(out) && Now() == s
    {
      if starts {
        PushTag(InStrip);
        stripDepth := stripDepth + 1;
        if stripDepth - 1 == 0 {
          additionalNewline := "";
          return Some(Compiled([], [], [], Some(StripBegins)));
        }
      } else {
        var open := PopTag(InStrip);
        if open.None? { return None; }
        stripDepth := stripDepth - 1;
        if stripDepth == 0 {
          additionalNewline := "\n";
          return Some(Compiled([], [], [], Some(StripEnds)));
        }
      }
      return Some(Compiled([], [], [], None));
    }

    /** `_compile_block_tag`, for the opening and the closing tag of a block function. */
    method CompileBlockTag(plugin: string, starts: bool) returns (r: Option<Compiled>)
      modifies this
      ensures match Step(registry, old(Now()), if starts then BlockOpen(plugin) else BlockClose(plugin))
              case None => r == None
              case Some((s, out)) => r == Some(out) && Now() == s
    {
      if starts {
        PushTag(InPlugin(plugin));
        var off := PushCacheableState(plugin !in registry.blocks);
        return Some(Compiled(off, [OpenBlock(plugin)], [], None));
      }
      var open := PopTag(InPlugin(plugin));
      if open.None? { return None; }
      var on := PopCacheableState(plugin !in registry.blocks);
      return Some(Compiled([], [CloseBlock(plugin)], on, None));
    }

    /** None is a fatal syntax error, after which the object is not used again. */
    method CompileTag(tag: Tag) returns (r: Option<Compiled>)
      modifies this
      ensures match Step(registry, old(Now()), tag)
              case None => r == None
              case Some((s, out)) => r == Some(out) && Now() == s
    {
      match tag
      case Output(text) => return Some(Compiled([], [Do(Echo(text))], [], None));
      case Function(p, action) =>
        var off := PushCacheableState(p !in registry.functions);
        var on := PopCacheableState(p !in registry.functions);
        return Some(Compiled(off, [Do(Run(action))], on, None));
      case If(c) =>
        PushTag(InIf);
        return Some(Compiled([], [OpenIf(Holds(c))], [], None));
      case Else =>
        if !ExpectsElse(tagStack) { return None; }
        PushTag(InElse);
        return Some(Compiled([], [OpenElse], [], None));
      case ElseIf(c) =>
        if !ExpectsElse(tagStack) { return None; }
        if tagStack[|tagStack| - 1] == InIf { PushTag(InElseIf); }
        return Some(Compiled([], [OpenElseIf(c)], [], None));
      case EndIf =>
        var open := PopTag(InIf);
        return if open.None? then None else Some(Compiled([], [CloseIf], [], None));
      case Section(name, args) =>
        PushTag(InSection);
        return Some(Compiled([], [Do(SectionSetup(name, args)), OpenIf(Shown(name)), OpenFor(name)], [], None));
      case SectionElse =>
        PushTag(InSectionElse);
        return Some(Compiled([], [CloseFor, OpenElse], [], None));
      case EndSection =>
        var open := PopTag(InSection);
        if open.None? { return None; }
        return Some(Compiled([], if open.value == InSectionElse then [CloseIf] else [CloseFor, CloseIf], [], None));
      case Foreach(each) =>
        PushTag(InForeach);
        return Some(Compiled([], [Do(ForeachSetup(each)), OpenIf(NonEmpty(each.name)), OpenForeach(each)], [], None));
      case ForeachElse =>
        PushTag(InForeachElse);
        return Some(Compiled([], [CloseForeach, OpenElse], [], None));
      case EndForeach =>
        var open := PopTag(InForeach);
        if open.None? { return None; }
        return Some(Compiled(
          [],
          if open.value == InForeachElse then [CloseIf, Do(UnsetFrom)]
          else [CloseForeach, CloseIf, Do(UnsetFrom)], [], None));
      case Strip => r := CompileStripTag(true);
      case EndStrip => r := CompileStripTag(false);
      case BlockOpen(p) => r := CompileBlockTag(p, true);
      case BlockClose(p) => r := CompileBlockTag(p, false);
    }

    /** The tag loop: None if a tag is rejected or one is still open at the end. */
    method CompileTags(tags: seq<Tag>) returns (r: Option<seq<Compiled>>)
      modifies this
      ensures match CompileAll(registry, old(Now()), tags)
              case None => r == None
              case Some((s, outs)) => r == Some(outs) && Now() == s
    {
      var compiled: seq<Compiled> := [];
      for i := 0 to |tags|
        invariant Steps(registry, old(Now()), tags[..i]) == Some((Now(), compiled))
      {
        StepsOne(registry, Now(), tags[i]);
        var out := CompileTag(tags[i]);
        assert tags[..i + 1] == tags[..i] + [tags[i]];
        assert tags == tags[..i + 1] + tags[i + 1..];
        StepsAppend(registry, old(Now()), tags[..i], [tags[i]]);
        StepsAppend(registry, old(Now()), tags[..i + 1], tags[i + 1..]);
        if out.None? {
          return None;
        }
        compiled := compiled + [out.value];
      }
      assert tags[..|tags|] == tags;
      if |tagStack| > 0 { return None; }
      return Some(compiled);
    }
  }
}
