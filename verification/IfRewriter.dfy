/**
 The rewriting of the tokens of an `{if}` tag: operators are respelled, variables
 compiled, and `x is [not] kind [by y]` replaced by one token, all in one scan
 that splices the list it is scanning.
 */
module IfRewriter {
  import opened Options
  import opened IfTokens
  import opened IfRuns

  /** Where the operand of the `is` at position i begins; there is none in front of the first token. */
  method FindOperand(tokens: seq<Token>, i: nat, parens: seq<nat>) returns (start: int, stack: seq<nat>)
    requires i < |tokens| && Below(parens, i)
    ensures if i > 0 then start == OperandStart(Scan(tokens, i, parens)) && stack == ParensLeft(Scan(tokens, i, parens))
            else start == -1 && stack == parens
  {
    start, stack := i - 1, parens;
    if i > 0 && tokens[i - 1] == RPar {
      start := 0;
      if parens != [] {
        start, stack := parens[|parens| - 1], parens[..|parens| - 1];
      }
      if start != 0 && tokens[start - 1].Word? {
        start := start - 1;
      }
    }
  }

  /**
   The `is` case of the loop body: splices the list and moves the position back to the
   result. The position -1 counts from the end of the list.
   */
  method ReplaceTest(tokens: seq<Token>, i: nat, parens: seq<nat>)
    returns (ok: bool, list: seq<Token>, start: int, stack: seq<nat>)
    requires i < |tokens| && tokens[i] == Is && Below(parens, i)
    ensures start >= -1
    ensures Step(Scan(tokens, i, parens)) == if ok then Running(Scan(list, start + 1, stack)) else Failed
  {
    start, stack := FindOperand(tokens, i, parens);
    var parsed := ParseIs(tokens[i + 1..]);
    if parsed.None? {
      return false, tokens, start, stack;
    }
    StepSpliced(Scan(tokens, i, parens), start, parsed.value, stack);
    return true, Spliced(tokens, start, i, parsed.value), start, stack;
  }

  /** The loop, reassigning the tokens it scans. On the excluded lists it does not end, see HaltsExactly. */
  method CompileIfTokens(tokens: seq<Token>) returns (r: Option<seq<Token>>)
    requires ParensAgree(tokens) ==> !Loops(tokens)
    ensures r == RewriteIf(tokens)
  {
    if tokens == [] || !ParensAgree(tokens) {
      return None;
    }
    var list: seq<Token>, i: int, parens: seq<nat> := tokens, 0, [];
    while i < |list|
      invariant i >= 0 && Ready(Scan(list, i, parens))
      invariant Rewrite(Scan(list, i, parens)) == Rewrite(Scan(tokens, 0, []))
      decreases Ahead(Scan(list, i, parens))
    {
      ghost var before := Scan(list, i, parens);
      StepShrinks(before);
      if list[i] == Is {
        var ok;
        ok, list, i, parens := ReplaceTest(list, i, parens);
        if !ok {
          return None;
        }
      } else {
        var token := list[i];
        var respelled := Respell(token, TokenAt(list, i + 1));
        if respelled.None? {
          return None;
        }
        if token == LPar {
          parens := parens + [i];
        }
        list := list[i := respelled.value];
      }
      i := i + 1;
      assert Step(before) == Running(Scan(list, i, parens));
    }
    return Some(list);
  }

  /** One token for each item. */
  lemma {:induction false} TargetLength(items: Items, k: nat)
    requires k < ItemCount(items)
    ensures |Target(items)| == ItemCount(items) && Target(items)[k] == TargetItem(ItemAt(items, k))
  {
    if k > 0 {
      TargetLength(items.tail, k - 1);
    } else if ItemCount(items.tail) > 0 {
      TargetLength(items.tail, 0);
    }
  }

  function ItemAt(items: Items, k: nat): Item
    requires k < ItemCount(items)
  {
    if k == 0 then items.head else ItemAt(items.tail, k - 1)
  }

  lemma {:induction false} ItemStarts(item: Item, afterWord: bool, post: seq<Token>)
    requires ValidItem(item, afterWord, post)
    ensures SourceItem(item) != [] && SourceItem(item)[0] != Is
  {
    if item.IsTest? && item.operand.Chained? {
      ItemStarts(item.operand.test, afterWord, IsWords(item.negated, item.kind, item.over) + post);
    }
  }

  /**
   A condition made of plain tokens and `is` tests on one token, on another test or on a
   group is rewritten item by item, so that each test becomes exactly one token and every
   other token keeps its place, exactly if in no group that is tested there is an opening
   parenthesis, but for those of further tests. Closing ones take nothing off the stack,
   so that the operand is taken to begin at the innermost opening one.
   */
  lemma ConditionRewritten(items: Items)
    requires Valid(items, false, []) && items != Nil && ParensAgree(Source(items))
    ensures Source(items) != [] && Source(items)[0] != Is
    ensures RewriteIf(Source(items)) == Some(Target(items)) <==> Closed(items)
  {
    ItemStarts(items.head, false, Source(items.tail) + []);
    var found, noted := ScanItems([], items, [], []);
    RunFromStart(Source(items), found, [], [] + noted);
    Nothing(Source(items));
    Nothing(found);
    TargetCount(items);
  }

  lemma RunFromStart(source: seq<Token>, target: seq<Token>, post: seq<Token>, left: seq<nat>)
    requires source != [] && source[0] != Is
    requires Passes(Move, [], source, target, post, [], left)
    ensures var t := Scan(target + post, |target|, left); Ready(t) && Rewrite(Scan(source + post, 0, [])) == Rewrite(t)
  {
    assert [] + source + post == source + post && [] + target + post == target + post;
    var s, t := Scan(source + post, 0, []), Scan(target + post, |target|, left);
    var n: nat :| After(Move, s, n) == Some(t);
    RewriteAfter(s, n, t);
  }

  function Joined(a: Items, b: Items): Items {
    match a case Nil => b case Cons(h, t) => Cons(h, Joined(t, b))
  }

  lemma {:induction false} ClosedJoined(a: Items, b: Items)
    ensures Closed(Joined(a, b)) <==> Closed(a) && Closed(b)
  {
    if a.Cons? { ClosedJoined(a.tail, b); }
  }

  /** In particular for one group, anywhere in a condition: exactly if there is no opening parenthesis in it. */
  lemma GroupExactly(
    front: Items, call: Option<string>, inner: Items, negated: bool, kind: Kind, over: Option<Token>, back: Items)
    requires Closed(front) && Closed(inner) && Closed(back)
    requires var items := Joined(front, Cons(IsTest(Group(call, inner), negated, kind, over), back));
             Valid(items, false, []) && ParensAgree(Source(items))
    ensures var items := Joined(front, Cons(IsTest(Group(call, inner), negated, kind, over), back));
            && items != Nil && Source(items) != [] && Source(items)[0] != Is
            && (RewriteIf(Source(items)) == Some(Target(items)) <==> !HasOpen(inner))
  {
    var group := Cons(IsTest(Group(call, inner), negated, kind, over), back);
    ConditionRewritten(Joined(front, group));
    ClosedJoined(front, group);
    assert ClosedItem(group.head) <==> !HasOpen(inner);
    assert Closed(group) <==> ClosedItem(group.head);
  }

  // ----- a leading `is` -----

  /** The loop stops: at the end of the list, or with a syntax error. */
  ghost predicate Halts(tokens: seq<Token>) {
    exists n: nat :: After(Move, Scan(tokens, 0, []), n) == None
  }

  lemma LoopsMove(tokens: seq<Token>)
    requires Loops(tokens)
    ensures match Move(Scan(tokens, 0, []))
            case None => false
            case Some(t) => t.i == 0 && t.parens == [] && Loops(t.tokens) && |t.tokens| >= |tokens|
  {
    ParseLeading(tokens);
    StepLeading(tokens);
    var at, p, last := KindAt(tokens), ParseIs(tokens[1..]).value, |tokens| - 1;
    var next := LastReplaced(tokens, p);
    assert next[..last] == tokens[..last];
    assert next[0] == tokens[0] && next[1] == tokens[1] && next[at] == tokens[at];
    if at + 2 < |tokens| { assert next[at + 1] == tokens[at + 1]; }
  }

  ghost predicate GoesOn<S(!new)>(step: S -> Option<S>, keeps: S -> bool) {
    forall x :: keeps(x) ==> step(x).Some? && keeps(step(x).value)
  }

  lemma {:induction false} GoingOnStays<S(!new)>(step: S -> Option<S>, keeps: S -> bool, s: S, n: nat)
    requires GoesOn(step, keeps) && keeps(s)
    ensures After(step, s, n).Some?
    decreases n
  {
    if n > 0 {
      assert step(s).Some? && keeps(step(s).value);
      GoingOnStays(step, keeps, step(s).value, n - 1);
    }
  }

  predicate Looping(s: Scan) {
    s.i == 0 && s.parens == [] && Loops(s.tokens)
  }

  lemma LoopsForever(tokens: seq<Token>, n: nat)
    requires Loops(tokens)
    ensures After(Move, Scan(tokens, 0, []), n).Some?
  {
    forall s: Scan | Looping(s) ensures Move(s).Some? && Looping(Move(s).value) {
      LoopsMove(s.tokens);
    }
    GoingOnStays(Move, Looping, Scan(tokens, 0, []), n);
  }

  ghost predicate Shrinks<S(!new)>(step: S -> Option<S>, ready: S -> bool, measure: S -> int) {
    forall x :: ready(x) && step(x).Some? ==> ready(step(x).value) && 0 <= measure(step(x).value) < measure(x)
  }

  lemma {:induction false} ShrinkingStops<S(!new)>(
    step: S -> Option<S>, ready: S -> bool, measure: S -> int, s: S, n: nat)
    requires Shrinks(step, ready, measure) && ready(s) && 0 <= measure(s) < n
    ensures After(step, s, n) == None
    decreases n
  {
    if step(s).Some? {
      assert ready(step(s).value);
      ShrinkingStops(step, ready, measure, step(s).value, n - 1);
    }
  }

  lemma MoveShrinks()
    ensures Shrinks(Move, Ready, Ahead)
  {
    forall s: Scan | Ready(s) && Move(s).Some? ensures Ready(Move(s).value) && 0 <= Ahead(Move(s).value) < Ahead(s) {
      OneMoveShrinks(s, Move(s).value);
    }
  }

  lemma OneMoveShrinks(s: Scan, t: Scan)
    requires Ready(s) && Move(s) == Some(t)
    ensures Ready(t) && 0 <= Ahead(t) < Ahead(s)
  {
    StepShrinks(s);
  }

  /**
   The lists on which the scan ends. A leading `is` has no operand: the position becomes
   -1, the last token is taken instead, and the loop comes back to the same `is`. If its
   words are still there it goes on for ever, otherwise it fails.
   */
  lemma HaltsExactly(tokens: seq<Token>)
    ensures Halts(tokens) <==> !Loops(tokens)
  {
    var s := Scan(tokens, 0, []);
    if Loops(tokens) {
      forall n: nat ensures After(Move, s, n) != None { LoopsForever(tokens, n); }
    } else {
      MoveShrinks();
      var n := if Ahead(s) >= 0 then Ahead(s) + 1 else 0;
      ShrinkingStops(Move, Ready, Ahead, s, n);
    }
  }

  /** Hence the scan stops on every continuation of a first token exactly when that token is not `is`. */
  lemma LeadingIsDiverges(first: Token)
    ensures (forall rest: seq<Token> :: Halts([first] + rest)) <==> first != Is
  {
    forall rest: seq<Token> ensures Halts([first] + rest) <==> !Loops([first] + rest) {
      HaltsExactly([first] + rest);
    }
    assert Loops([Is] + [Word("even"), Word("x")]);
  }
}
