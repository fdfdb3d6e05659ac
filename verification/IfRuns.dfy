/**
 Conditions with `is` tests, as their author means them, and how the scan runs over
 them. A stretch of the list is passed over if the scan comes from its source in front
 of the position to its rewriting behind it, with the same surroundings; passes are put
 together piece by piece.
 */
module IfRuns {
  import opened Options
  import opened IfTokens

  // ----- conditions with `is` tests, as their author means them -----

  datatype Items = Nil | Cons(head: Item, tail: Items)

  datatype Item =
    | Plain(token: Token)
    | IsTest(operand: Operand, negated: bool, kind: Kind, over: Option<Token>)

  /** One token, the result of another test, or a parenthesised group, perhaps of a function call. */
  datatype Operand =
    | Single(token: Token)
    | Chained(test: Item)
    | Group(call: Option<string>, inner: Items)

  function CallWord(call: Option<string>): seq<Token> {
    if call.None? then [] else [Word(call.value)]
  }

  function Source(items: Items): seq<Token> {
    match items
    case Nil => []
    case Cons(h, t) => SourceItem(h) + Source(t)
  }

  function SourceItem(item: Item): seq<Token> {
    match item
    case Plain(t) => [t]
    case IsTest(op, negated, kind, over) => SourceOperand(op) + IsWords(negated, kind, over)
  }

  function SourceOperand(op: Operand): seq<Token> {
    match op
    case Single(t) => [t]
    case Chained(test) => SourceItem(test)
    case Group(call, inner) => CallWord(call) + [LPar] + Source(inner) + [RPar]
  }

  /** The rewritten condition: one token for each item. */
  function Target(items: Items): seq<Token> {
    match items
    case Nil => []
    case Cons(h, t) => [TargetItem(h)] + Target(t)
  }

  function TargetItem(item: Item): Token {
    match item
    case Plain(t) => Respelled(t)
    case IsTest(op, negated, kind, over) =>
      ResultToken(TargetOperand(op), negated, kind, over)
  }

  function TargetOperand(op: Operand): seq<Token> {
    match op
    case Single(t) => [Respelled(t)]
    case Chained(test) => [TargetItem(test)]
    case Group(call, inner) => CallWord(call) + [LPar] + Target(inner) + [RPar]
  }

  /** Operators respelled, variables compiled, everything else kept. */
  function Respelled(t: Token): Token {
    match t
    case Key(word, _) => Symbol(Spelling(word))
    case Var(text, _) => Compiled(text)
    case _ => t
  }

  predicate AfterWord(tokens: seq<Token>) {
    tokens != [] && tokens[|tokens| - 1].Word?
  }

  predicate EndsInWord(item: Item) {
    item.Plain? && item.token.Word?
  }

  // ----- which of them are in question -----

  /** A token that is not an error where it stands. */
  predicate Scannable(t: Token, next: Option<Token>) {
    t != Is && Respell(t, next).Some?
  }

  /** Valid in front of these source tokens, and perhaps behind a word. */
  predicate Valid(items: Items, afterWord: bool, follow: seq<Token>)
    decreases items, 0
  {
    match items
    case Nil => true
    case Cons(h, t) => ValidItem(h, afterWord, Source(t) + follow) && Valid(t, EndsInWord(h), follow)
  }

  predicate ValidItem(item: Item, afterWord: bool, follow: seq<Token>)
    decreases item, 0
  {
    match item
    case Plain(t) => Scannable(t, TokenAt(follow, 0))
    case IsTest(op, negated, kind, over) =>
      && (kind == Div ==> over.Some?)
      && (over.None? ==> TokenAt(follow, 0) != Some(Word("by")))
      && ValidOperand(op, afterWord, IsWords(negated, kind, over) + follow)
  }

  predicate ValidOperand(op: Operand, afterWord: bool, follow: seq<Token>)
    decreases op, 0
  {
    match op
    case Single(t) => t != LPar && t != RPar && Scannable(t, TokenAt(follow, 0))
    case Chained(test) => test.IsTest? && ValidItem(test, afterWord, follow)
    case Group(call, inner) =>
      // without a function name in front, a word there would be taken for one
      && (call.None? ==> !afterWord)
      && Valid(inner, false, [RPar] + follow)
  }

  // ----- opening parentheses in groups -----

  predicate HasOpen(items: Items) {
    items.Cons? && (items.head == Plain(LPar) || HasOpen(items.tail))
  }

  /** In no group that is tested is there an opening parenthesis, but for those of further tests. */
  predicate Closed(items: Items) {
    match items
    case Nil => true
    case Cons(h, t) => ClosedItem(h) && Closed(t)
  }

  predicate ClosedItem(item: Item) {
    match item
    case Plain(_) => true
    case IsTest(op, _, _, _) => ClosedOperand(op)
  }

  predicate ClosedOperand(op: Operand) {
    match op
    case Single(_) => true
    case Chained(test) => ClosedItem(test)
    case Group(_, inner) => Closed(inner) && !HasOpen(inner)
  }

  function ItemCount(items: Items): nat {
    match items case Nil => 0 case Cons(_, t) => 1 + ItemCount(t)
  }

  lemma {:induction false} TargetCount(items: Items)
    ensures |Target(items)| == ItemCount(items)
  {
    if items.Cons? { TargetCount(items.tail); }
  }

  // ----- runs of the loop -----

  /** The state after n steps; None if it cannot make that many. */
  function After<S>(step: S -> Option<S>, s: S, n: nat): Option<S>
    decreases n
  {
    if n == 0 then Some(s)
    else
      match step(s)
      case None => None
      case Some(next) => After(step, next, n - 1)
  }

  lemma {:induction false} AfterAdd<S>(step: S -> Option<S>, s: S, n: nat, t: S, m: nat)
    requires After(step, s, n) == Some(t)
    ensures After(step, s, n + m) == After(step, t, m)
    decreases n
  {
    if n > 0 {
      AfterAdd(step, step(s).value, n - 1, t, m);
    }
  }

  ghost predicate Preserves<S(!new)>(step: S -> Option<S>, keeps: S -> bool) {
    forall x, y :: keeps(x) && step(x) == Some(y) ==> keeps(y)
  }

  lemma {:induction false} AfterKeeps<S(!new)>(step: S -> Option<S>, keeps: S -> bool, s: S, n: nat, t: S)
    requires keeps(s) && After(step, s, n) == Some(t) && Preserves(step, keeps)
    ensures keeps(t)
    decreases n
  {
    if n > 0 {
      AfterKeeps(step, keeps, step(s).value, n - 1, t);
    }
  }

  /** One iteration as a step; None if the loop has stopped. */
  function Move(s: Scan): Option<Scan> {
    if s.i >= |s.tokens| || !Below(s.parens, s.i) then None
    else
      match Step(s)
      case Failed => None
      case Running(next) => Some(next)
  }

  /** A step function on scans; the lemmas that only put runs together do not look into it. */
  type Stepper = Scan -> Option<Scan>

  ghost predicate Reaches(step: Stepper, s: Scan, t: Scan) {
    exists n: nat :: After(step, s, n) == Some(t)
  }

  lemma ReachesOn(step: Stepper, s: Scan, t: Scan, u: Scan)
    requires Reaches(step, s, t) && Reaches(step, t, u)
    ensures Reaches(step, s, u)
  {
    var n: nat :| After(step, s, n) == Some(t);
    var m: nat :| After(step, t, m) == Some(u);
    AfterAdd(step, s, n, t, m);
  }

  lemma ReachesStep(s: Scan, t: Scan)
    requires s.i < |s.tokens| && Below(s.parens, s.i) && Step(s) == Running(t)
    ensures Reaches(Move, s, t)
  {
    assert Move(s) == Some(t);
    assert After(Move, t, 0) == Some(t);
    assert After(Move, s, 1) == Some(t);
  }

  lemma RewriteMove(s: Scan, t: Scan)
    requires Ready(s) && Move(s) == Some(t)
    ensures Ready(t) && Rewrite(s) == Rewrite(t)
  {
    StepShrinks(s);
  }

  /** Rewriting gives the same from any state the loop passes through. */
  lemma RewriteAfter(s: Scan, n: nat, t: Scan)
    requires Ready(s) && After(Move, s, n) == Some(t)
    ensures Ready(t) && Rewrite(s) == Rewrite(t)
  {
    MovePreserves(Rewrite(s));
    AfterKeeps(Move, RewritesTo(Rewrite(s)), s, n, t);
  }

  function RewritesTo(result: Option<seq<Token>>): Scan -> bool {
    s => Ready(s) && Rewrite(s) == result
  }

  lemma MovePreserves(result: Option<seq<Token>>)
    ensures Preserves(Move, RewritesTo(result))
  {
    forall x: Scan, y: Scan | RewritesTo(result)(x) && Move(x) == Some(y) ensures RewritesTo(result)(y) {
      RewriteMove(x, y);
    }
  }

  // ----- the scan does what they mean -----

  /** From `source` about to be scanned to `target` just scanned, in the same surroundings. */
  ghost predicate Passes(
    step: Stepper, pre: seq<Token>, source: seq<Token>, target: seq<Token>, post: seq<Token>, parens: seq<nat>,
    left: seq<nat>)
  {
    && Below(left, |pre| + |target|)
    && Reaches(step, Scan(pre + source + post, |pre|, parens), Scan(pre + target + post, |pre| + |target|, left))
  }

  lemma PassesNothing(step: Stepper, pre: seq<Token>, post: seq<Token>, parens: seq<nat>)
    requires Below(parens, |pre|)
    ensures Passes(step, pre, [], [], post, parens, parens)
  {
    var s := Scan(pre + [] + post, |pre|, parens);
    assert After(step, s, 0) == Some(s);
  }

  lemma PassesOn(
    step: Stepper, pre: seq<Token>, a: seq<Token>, ta: seq<Token>, b: seq<Token>, tb: seq<Token>, post: seq<Token>,
    parens: seq<nat>, mid: seq<nat>, left: seq<nat>)
    requires Passes(step, pre, a, ta, b + post, parens, mid)
    requires Passes(step, pre + ta, b, tb, post, mid, left)
    ensures Passes(step, pre, a + b, ta + tb, post, parens, left)
  {
    assert pre + (a + b) + post == pre + a + (b + post);
    assert pre + (ta + tb) + post == (pre + ta) + tb + post;
    assert (pre + ta) + b + post == pre + ta + (b + post);
    ReachesOn(step, Scan(pre + a + (b + post), |pre|, parens),
              Scan(pre + ta + (b + post), |pre + ta|, mid),
              Scan(pre + (ta + tb) + post, |pre| + |ta + tb|, left));
  }

  /** A token that is not `is`. */
  lemma PassPlain(pre: seq<Token>, t: Token, post: seq<Token>, parens: seq<nat>)
    requires Scannable(t, TokenAt(post, 0)) && Below(parens, |pre|)
    ensures Passes(Move, pre, [t], [Respelled(t)], post, parens, if t == LPar then parens + [|pre|] else parens)
  {
    var s := Scan(pre + [t] + post, |pre|, parens);
    assert s.tokens[|pre|] == t;
    assert TokenAt(s.tokens, |pre| + 1) == TokenAt(post, 0);
    assert s.tokens[|pre| := Respelled(t)] == pre + [Respelled(t)] + post;
    ReachesStep(s, Step(s).scan);
  }

  // ----- the operand of a test -----

  /** Positions noted, in ascending order, while the tokens from one position to another were scanned. */
  predicate Noted(noted: seq<nat>, from: nat, to: nat) {
    && (forall k :: 0 <= k < |noted| ==> from <= noted[k] < to)
    && (forall j, k :: 0 <= j < k < |noted| ==> noted[j] < noted[k])
  }

  lemma NotedOn(a: seq<nat>, b: seq<nat>, from: nat, mid: nat, to: nat)
    requires Noted(a, from, mid) && Noted(b, mid, to) && from <= mid <= to
    ensures Noted(a + b, from, to)
  {}

  /** What `is` makes of the tokens in front of it needs the stack only behind a closing parenthesis. */
  predicate Tested(pre: seq<Token>, found: seq<Token>, noted: seq<nat>) {
    && found != [] && Noted(noted, |pre|, |pre| + |found|)
    && (found[|found| - 1] == RPar ==> noted != [] && (noted[|noted| - 1] == |pre| ==> !AfterWord(pre)))
  }

  /** How many of the tokens in front of `is` are not taken for its operand. */
  function Spared(pre: seq<Token>, found: seq<Token>, noted: seq<nat>): (n: nat)
    requires Tested(pre, found, noted)
    ensures n < |found|
  {
    if found[|found| - 1] != RPar then |found| - 1
    else
      var p := noted[|noted| - 1] - |pre|;
      if p > 0 && found[p - 1].Word? then p - 1 else p
  }

  /** What is still noted then. */
  function NotedLeft(found: seq<Token>, noted: seq<nat>): seq<nat>
    requires found != []
  {
    if found[|found| - 1] == RPar && noted != [] then noted[..|noted| - 1] else noted
  }

  lemma NotedBelow(pre: seq<Token>, found: seq<Token>, noted: seq<nat>)
    requires Tested(pre, found, noted)
    ensures Noted(NotedLeft(found, noted), |pre|, |pre| + Spared(pre, found, noted) + 1)
  {
    if found[|found| - 1] == RPar {
      assert forall k :: 0 <= k < |noted| - 1 ==> noted[k] < noted[|noted| - 1];
    }
  }

  lemma StackLeft(parens: seq<nat>, noted: seq<nat>)
    requires noted != []
    ensures (parens + noted)[|parens + noted| - 1] == noted[|noted| - 1]
    ensures (parens + noted)[..|parens + noted| - 1] == parens + noted[..|noted| - 1]
  {}

  lemma OperandFound(s: Scan, pre: seq<Token>, found: seq<Token>, rest: seq<Token>, parens: seq<nat>, noted: seq<nat>)
    requires Tested(pre, found, noted) && rest != [] && Below(s.parens, s.i) && s.parens == parens + noted
    requires s.tokens == pre + found + rest && s.i == |pre| + |found|
    ensures OperandStart(s) == |pre| + Spared(pre, found, noted)
    ensures ParensLeft(s) == parens + NotedLeft(found, noted)
  {
    assert s.tokens[s.i - 1] == found[|found| - 1];
    if found[|found| - 1] == RPar {
      StackLeft(parens, noted);
      var p := noted[|noted| - 1];
      if p > |pre| {
        assert s.tokens[p - 1] == found[p - 1 - |pre|];
      } else if pre != [] {
        assert s.tokens[|pre| - 1] == pre[|pre| - 1];
      }
    }
  }

  lemma Slices(all: seq<Token>, i: nat, pre: seq<Token>, operand: seq<Token>, words: seq<Token>, post: seq<Token>)
    requires words != [] && all == pre + operand + (words + post) && i == |pre| + |operand|
    ensures && all[..|pre|] == pre && all[|pre|..i] == operand && all[i] == words[0]
            && all[i + 1..] == words[1..] + post && all[i + |words|..] == post
  {}

  function ResultToken(operand: seq<Token>, negated: bool, kind: Kind, over: Option<Token>): Token {
    Test(operand, negated, kind, if over.None? then NoDivisor else By(over))
  }

  lemma StepIsSliced(s: Scan, pre: seq<Token>, operand: seq<Token>, post: seq<Token>, p: Parsed, left: seq<nat>)
    requires Below(s.parens, s.i) && 0 < s.i < |s.tokens| && s.tokens[s.i] == Is
    requires ParseIs(s.tokens[s.i + 1..]) == Some(p) && OperandStart(s) == |pre| <= s.i
    requires left == ParensLeft(s)
    requires s.tokens[..|pre|] == pre && s.tokens[|pre|..s.i] == operand && s.tokens[s.i + 1 + p.used..] == post
    ensures Reaches(Move, s, Scan(pre + [Test(operand, p.negated, p.kind, p.divisor)] + post, |pre| + 1, left))
  {
    StepIsAt(s, |pre|, p, left);
    ReachesStep(s, Scan(pre + [Test(operand, p.negated, p.kind, p.divisor)] + post, |pre| + 1, left));
  }

  /** The tokens behind an operand that has been scanned: those spared, and the test on the others. */
  function Replaced(pre: seq<Token>, found: seq<Token>, noted: seq<nat>, p: Parsed): seq<Token>
    requires Tested(pre, found, noted)
  {
    var n := Spared(pre, found, noted);
    found[..n] + [Test(found[n..], p.negated, p.kind, p.divisor)]
  }

  /** The step on `is` with all but n of the tokens for its operand. */
  lemma StepAt(
    s: Scan, pre: seq<Token>, found: seq<Token>, n: nat, words: seq<Token>, post: seq<Token>, p: Parsed, left: seq<nat>)
    returns (result: seq<Token>)
    requires n < |found| && Below(s.parens, s.i) && words != [] && words[0] == Is
    requires ParseIs(words[1..] + post) == Some(p) && p.used == |words| - 1
    requires s.tokens == pre + found + (words + post) && s.i == |pre| + |found|
    requires OperandStart(s) == |pre| + n && left == ParensLeft(s)
    ensures result == found[..n] + [Test(found[n..], p.negated, p.kind, p.divisor)]
    ensures Reaches(Move, s, Scan(pre + result + post, |pre| + |result|, left))
  {
    result := found[..n] + [Test(found[n..], p.negated, p.kind, p.divisor)];
    assert found == found[..n] + found[n..];
    StepSplit(s, pre, found[..n], found[n..], words, post, p, left);
  }

  lemma StepSplit(
    s: Scan, pre: seq<Token>, kept: seq<Token>, operand: seq<Token>, words: seq<Token>, post: seq<Token>, p: Parsed,
    left: seq<nat>)
    requires Below(s.parens, s.i) && words != [] && words[0] == Is && operand != []
    requires ParseIs(words[1..] + post) == Some(p) && p.used == |words| - 1
    requires s.tokens == pre + (kept + operand) + (words + post) && s.i == |pre| + |kept| + |operand|
    requires OperandStart(s) == |pre| + |kept| && left == ParensLeft(s)
    ensures var result := kept + [Test(operand, p.negated, p.kind, p.divisor)];
            Reaches(Move, s, Scan(pre + result + post, |pre| + |result|, left))
  {
    var t := Test(operand, p.negated, p.kind, p.divisor);
    Assoc(pre, kept, operand);
    Assoc(pre, kept, [t]);
    Slices(s.tokens, s.i, pre + kept, operand, words, post);
    StepIsSliced(s, pre + kept, operand, post, p, left);
  }

  lemma PassesOnTo(
    step: Stepper, pre: seq<Token>, source: seq<Token>, found: seq<Token>, words: seq<Token>, result: seq<Token>,
    post: seq<Token>, parens: seq<nat>, mid: seq<nat>, left: seq<nat>)
    requires Passes(step, pre, source, found, words + post, parens, mid) && Below(left, |pre| + |result|)
    requires Reaches(step, Scan(pre + found + (words + post), |pre| + |found|, mid),
                     Scan(pre + result + post, |pre| + |result|, left))
    ensures Passes(step, pre, source + words, result, post, parens, left)
  {
    Assoc(pre, source, words);
    Assoc(pre + source, words, post);
    ReachesOn(step, Scan(pre + source + (words + post), |pre|, parens),
              Scan(pre + found + (words + post), |pre| + |found|, mid),
              Scan(pre + result + post, |pre| + |result|, left));
  }

  lemma BelowBoth(a: seq<nat>, b: seq<nat>, n: nat, to: nat)
    requires Below(a, n) && n <= to && forall k :: 0 <= k < |b| ==> b[k] < to
    ensures Below(a + b, to)
  {}

  function ParsedWords(negated: bool, kind: Kind, over: Option<Token>): Parsed {
    Parsed(negated, kind, if over.None? then NoDivisor else By(over), |IsWords(negated, kind, over)| - 1)
  }

  /** An operand and its `is` words become what is spared of the operand, and one token. */
  lemma PassTest(
    pre: seq<Token>, source: seq<Token>, found: seq<Token>, negated: bool, kind: Kind, over: Option<Token>,
    post: seq<Token>, parens: seq<nat>, noted: seq<nat>)
    requires kind == Div ==> over.Some?
    requires over.None? ==> TokenAt(post, 0) != Some(Word("by"))
    requires Passes(Move, pre, source, found, IsWords(negated, kind, over) + post, parens, parens + noted)
    requires Tested(pre, found, noted) && Below(parens, |pre|)
    ensures Passes(Move, pre, source + IsWords(negated, kind, over),
                   Replaced(pre, found, noted, ParsedWords(negated, kind, over)),
                   post, parens, parens + NotedLeft(found, noted))
  {
    ParseIsWords(negated, kind, over, post);
    var words, p := IsWords(negated, kind, over), ParsedWords(negated, kind, over);
    var s := Scan(pre + found + (words + post), |pre| + |found|, parens + noted);
    var result, left := TestStep(s, pre, found, words, post, p, parens, noted);
    PassesOnTo(Move, pre, source, found, words, result, post, parens, parens + noted, parens + left);
  }

  lemma TestStep(
    s: Scan, pre: seq<Token>, found: seq<Token>, words: seq<Token>, post: seq<Token>, p: Parsed, parens: seq<nat>,
    noted: seq<nat>)
    returns (result: seq<Token>, left: seq<nat>)
    requires words != [] && words[0] == Is && ParseIs(words[1..] + post) == Some(p) && p.used == |words| - 1
    requires Tested(pre, found, noted) && Below(parens, |pre|) && Below(s.parens, s.i)
    requires s == Scan(pre + found + (words + post), |pre| + |found|, parens + noted)
    ensures result == Replaced(pre, found, noted, p) && left == NotedLeft(found, noted)
    ensures Below(parens + left, |pre| + |result|)
    ensures Reaches(Move, s, Scan(pre + result + post, |pre| + |result|, parens + left))
  {
    var n;
    n, left := WhereFound(s, pre, found, words + post, parens, noted);
    result := StepAt(s, pre, found, n, words, post, p, parens + left);
    LeftBelow(pre, found, noted, parens, p);
  }

  lemma WhereFound(s: Scan, pre: seq<Token>, found: seq<Token>, rest: seq<Token>, parens: seq<nat>, noted: seq<nat>)
    returns (n: nat, left: seq<nat>)
    requires Tested(pre, found, noted) && rest != [] && Below(s.parens, s.i) && s.parens == parens + noted
    requires s.tokens == pre + found + rest && s.i == |pre| + |found|
    ensures n == Spared(pre, found, noted) < |found| && left == NotedLeft(found, noted)
    ensures OperandStart(s) == |pre| + n && ParensLeft(s) == parens + left
  {
    n, left := Spared(pre, found, noted), NotedLeft(found, noted);
    OperandFound(s, pre, found, rest, parens, noted);
  }

  lemma LeftBelow(pre: seq<Token>, found: seq<Token>, noted: seq<nat>, parens: seq<nat>, p: Parsed)
    requires Tested(pre, found, noted) && Below(parens, |pre|)
    ensures Below(parens + NotedLeft(found, noted), |pre| + |Replaced(pre, found, noted, p)|)
  {
    NotedBelow(pre, found, noted);
    BelowBoth(parens, NotedLeft(found, noted), |pre|, |pre| + Spared(pre, found, noted) + 1);
  }

  // ----- the scan of a condition -----

  /** Where items of their own leave opening parentheses, which nothing takes off the stack. */
  function Loose(items: Items, at: nat): seq<nat> {
    match items
    case Nil => []
    case Cons(h, t) => LooseItem(h, at) + Loose(t, at + 1)
  }

  function LooseItem(item: Item, at: nat): seq<nat> {
    if item == Plain(LPar) then [at] else []
  }

  lemma {:induction false} LooseOpen(items: Items, at: nat)
    ensures HasOpen(items) <==> Loose(items, at) != []
  {
    if items.Cons? { LooseOpen(items.tail, at + 1); }
  }

  /** Items as the scan leaves them: as they should be, or else with tokens and noted positions to spare. */
  predicate LeftAs(items: Items, at: nat, found: seq<Token>, noted: seq<nat>) {
    if Closed(items) then found == Target(items) && noted == Loose(items, at)
    else |found| > ItemCount(items) && noted != []
  }

  predicate ItemLeftAs(item: Item, at: nat, found: seq<Token>, noted: seq<nat>) {
    if ClosedItem(item) then found == [TargetItem(item)] && noted == LooseItem(item, at)
    else |found| > 1 && noted != []
  }

  lemma {:induction false} ScanItems(pre: seq<Token>, items: Items, post: seq<Token>, parens: seq<nat>)
    returns (found: seq<Token>, noted: seq<nat>)
    requires Valid(items, AfterWord(pre), post) && Below(parens, |pre|)
    ensures Passes(Move, pre, Source(items), found, post, parens, parens + noted)
    ensures Noted(noted, |pre|, |pre| + |found|) && LeftAs(items, |pre|, found, noted)
    decreases items, 1
  {
    match items
    case Nil =>
      found, noted := [], [];
      Nothing(parens);
      PassesNothing(Move, pre, post, parens);
    case Cons(h, t) =>
      var f1, n1 := ScanItem(pre, h, Source(t) + post, parens);
      NextFits(pre, f1, parens, n1);
      var f2, n2 := ScanItems(pre + f1, t, post, parens + n1);
      found, noted := f1 + f2, n1 + n2;
      ItemsFound(pre, h, t, post, parens, f1, n1, f2, n2);
  }

  lemma NextFits(pre: seq<Token>, found: seq<Token>, parens: seq<nat>, noted: seq<nat>)
    requires found != [] && Below(parens, |pre|) && Noted(noted, |pre|, |pre| + |found|)
    ensures Below(parens + noted, |pre + found|) && (AfterWord(pre + found) <==> AfterWord(found))
  {
    BelowBoth(parens, noted, |pre|, |pre + found|);
  }

  lemma ItemsFound(
    pre: seq<Token>, h: Item, t: Items, post: seq<Token>, parens: seq<nat>,
    f1: seq<Token>, n1: seq<nat>, f2: seq<Token>, n2: seq<nat>)
    requires Passes(Move, pre, SourceItem(h), f1, Source(t) + post, parens, parens + n1)
    requires Passes(Move, pre + f1, Source(t), f2, post, parens + n1, parens + n1 + n2)
    requires Noted(n1, |pre|, |pre| + |f1|) && Noted(n2, |pre + f1|, |pre + f1| + |f2|)
    requires ItemLeftAs(h, |pre|, f1, n1) && f1 != [] && LeftAs(t, |pre + f1|, f2, n2)
    ensures Passes(Move, pre, Source(Cons(h, t)), f1 + f2, post, parens, parens + (n1 + n2))
    ensures Noted(n1 + n2, |pre|, |pre| + |f1 + f2|) && LeftAs(Cons(h, t), |pre|, f1 + f2, n1 + n2)
  {
    ItemThenRest(h, t, |pre|, f1, n1, f2, n2);
    var a, b := SourceItem(h), Source(t);
    assert Source(Cons(h, t)) == a + b;
    PassesBoth(Move, pre, a, f1, b, f2, post, parens, n1, n2);
  }

  lemma PassesBoth(
    step: Stepper, pre: seq<Token>, a: seq<Token>, f1: seq<Token>, b: seq<Token>, f2: seq<Token>, post: seq<Token>,
    parens: seq<nat>, n1: seq<nat>, n2: seq<nat>)
    requires Passes(step, pre, a, f1, b + post, parens, parens + n1)
    requires Passes(step, pre + f1, b, f2, post, parens + n1, parens + n1 + n2)
    requires Noted(n1, |pre|, |pre| + |f1|) && Noted(n2, |pre + f1|, |pre + f1| + |f2|)
    ensures Passes(step, pre, a + b, f1 + f2, post, parens, parens + (n1 + n2))
    ensures Noted(n1 + n2, |pre|, |pre| + |f1 + f2|)
  {
    Assoc(parens, n1, n2);
    NotedOn(n1, n2, |pre|, |pre + f1|, |pre| + |f1 + f2|);
    PassesOn(step, pre, a, f1, b, f2, post, parens, parens + n1, parens + n1 + n2);
  }

  lemma ItemThenRest(h: Item, t: Items, at: nat, f1: seq<Token>, n1: seq<nat>, f2: seq<Token>, n2: seq<nat>)
    requires ItemLeftAs(h, at, f1, n1) && f1 != [] && LeftAs(t, at + |f1|, f2, n2)
    ensures LeftAs(Cons(h, t), at, f1 + f2, n1 + n2)
  {
    TargetCount(t);
  }

  lemma {:induction false} ScanItem(pre: seq<Token>, item: Item, post: seq<Token>, parens: seq<nat>)
    returns (found: seq<Token>, noted: seq<nat>)
    requires ValidItem(item, AfterWord(pre), post) && Below(parens, |pre|)
    ensures Passes(Move, pre, SourceItem(item), found, post, parens, parens + noted)
    ensures Noted(noted, |pre|, |pre| + |found|) && ItemLeftAs(item, |pre|, found, noted)
    ensures found != [] && (AfterWord(found) <==> EndsInWord(item))
    ensures item.IsTest? ==> found[|found| - 1].Test?
    decreases item, 1
  {
    match item
    case Plain(t) =>
      PassPlain(pre, t, post, parens);
      found, noted := [Respelled(t)], LooseItem(item, |pre|);
      Nothing(parens);
    case IsTest(op, negated, kind, over) =>
      var f, n := ScanOperand(pre, op, IsWords(negated, kind, over) + post, parens);
      PassTest(pre, SourceOperand(op), f, negated, kind, over, post, parens, n);
      NotedBelow(pre, f, n);
      found, noted := Replaced(pre, f, n, ParsedWords(negated, kind, over)), NotedLeft(f, n);
      TestLeftAs(pre, op, negated, kind, over, f, n);
  }

  /** A scanned operand: the test takes all of it, or else leaves some of it in front and positions noted. */
  predicate OperandLeftAs(pre: seq<Token>, op: Operand, found: seq<Token>, noted: seq<nat>) {
    && Tested(pre, found, noted)
    && if ClosedOperand(op) then
         found == TargetOperand(op) && Spared(pre, found, noted) == 0 && NotedLeft(found, noted) == []
       else Spared(pre, found, noted) > 0 && NotedLeft(found, noted) != []
  }

  lemma TestLeftAs(
    pre: seq<Token>, op: Operand, negated: bool, kind: Kind, over: Option<Token>, found: seq<Token>, noted: seq<nat>)
    requires OperandLeftAs(pre, op, found, noted)
    ensures ItemLeftAs(IsTest(op, negated, kind, over), |pre|,
                       Replaced(pre, found, noted, ParsedWords(negated, kind, over)), NotedLeft(found, noted))
  {
    if ClosedOperand(op) {
      assert found[0..] == found && found[..0] == [];
    }
  }

  lemma {:induction false} ScanOperand(pre: seq<Token>, op: Operand, post: seq<Token>, parens: seq<nat>)
    returns (found: seq<Token>, noted: seq<nat>)
    requires ValidOperand(op, AfterWord(pre), post) && Below(parens, |pre|)
    ensures Passes(Move, pre, SourceOperand(op), found, post, parens, parens + noted)
    ensures OperandLeftAs(pre, op, found, noted)
    decreases op, 1
  {
    match op
    case Single(t) =>
      PassPlain(pre, t, post, parens);
      found, noted := [Respelled(t)], [];
      Nothing(parens);
    case Chained(test) =>
      found, noted := ScanItem(pre, test, post, parens);
    case Group(call, inner) =>
      var f, n := ScanCall(pre, call, inner, post, parens);
      found, noted := Parenthesised(call, f), [|pre| + |CallWord(call)|] + n;
      GroupLeftAs(pre, call, inner, f, n);
  }

  /** The operand begins at the function name or the parenthesis exactly if nothing was noted inside. */
  lemma GroupLeftAs(pre: seq<Token>, call: Option<string>, inner: Items, found: seq<Token>, noted: seq<nat>)
    requires call.None? ==> !AfterWord(pre)
    requires var at := |pre| + |CallWord(call)| + 1;
             Noted(noted, at, at + |found|) && LeftAs(inner, at, found, noted)
    ensures OperandLeftAs(pre, Group(call, inner), Parenthesised(call, found), [|pre| + |CallWord(call)|] + noted)
  {
    var at := |pre| + |CallWord(call)|;
    NotedIfOpen(call, inner, at + 1, found, noted);
    GroupNoted(|pre|, at, noted, at + 1 + |found|);
    if noted == [] {
      WholeGroup(pre, call, inner, found);
    } else {
      PartOfGroup(pre, call, inner, found, noted);
    }
  }

  lemma NotedIfOpen(call: Option<string>, inner: Items, at: nat, found: seq<Token>, noted: seq<nat>)
    requires LeftAs(inner, at, found, noted)
    ensures noted == [] <==> ClosedOperand(Group(call, inner))
    ensures noted == [] ==> found == Target(inner)
  {
    LooseOpen(inner, at);
  }

  function Parenthesised(call: Option<string>, found: seq<Token>): seq<Token> {
    CallWord(call) + [LPar] + found + [RPar]
  }

  lemma GroupEnds(call: Option<string>, found: seq<Token>)
    ensures var all, n := Parenthesised(call, found), |CallWord(call)|;
            && |all| == n + |found| + 2 && all[|all| - 1] == RPar && all[n] == LPar
            && all[0] == if call.Some? then Word(call.value) else LPar
  {}

  /** Nothing noted inside: the operand is the whole group, with the function name. */
  lemma WholeGroup(pre: seq<Token>, call: Option<string>, inner: Items, found: seq<Token>)
    requires (call.None? ==> !AfterWord(pre)) && ClosedOperand(Group(call, inner)) && found == Target(inner)
    ensures OperandLeftAs(pre, Group(call, inner), Parenthesised(call, found), [|pre| + |CallWord(call)|] + [])
  {
    GroupEnds(call, found);
    Nothing([|pre| + |CallWord(call)|]);
  }

  /** Something noted inside: the operand begins there, behind the parenthesis of the group. */
  lemma PartOfGroup(pre: seq<Token>, call: Option<string>, inner: Items, found: seq<Token>, noted: seq<nat>)
    requires !ClosedOperand(Group(call, inner)) && noted != []
    requires Noted(noted, |pre| + |CallWord(call)| + 1, |pre| + |CallWord(call)| + 1 + |found|)
    requires Noted([|pre| + |CallWord(call)|] + noted, |pre|, |pre| + |CallWord(call)| + 2 + |found|)
    ensures OperandLeftAs(pre, Group(call, inner), Parenthesised(call, found), [|pre| + |CallWord(call)|] + noted)
  {
    GroupEnds(call, found);
    StackLeft([|pre| + |CallWord(call)|], noted);
    assert [|pre| + |CallWord(call)|] + noted[..|noted| - 1] != [];
  }

  lemma GroupNoted(from: nat, at: nat, noted: seq<nat>, to: nat)
    requires Noted(noted, at + 1, to) && from <= at < to
    ensures Noted([at] + noted, from, to + 1)
  {}

  lemma {:induction false} ScanCall(
    pre: seq<Token>, call: Option<string>, inner: Items, post: seq<Token>, parens: seq<nat>)
    returns (found: seq<Token>, noted: seq<nat>)
    requires Valid(inner, false, [RPar] + post) && Below(parens, |pre|)
    ensures var head := CallWord(call) + [LPar];
            && Noted(noted, |pre| + |head|, |pre| + |head| + |found|) && LeftAs(inner, |pre| + |head|, found, noted)
            && Passes(Move, pre, head + Source(inner) + [RPar], head + found + [RPar], post, parens,
                      parens + ([|pre| + |CallWord(call)|] + noted))
    decreases inner, 2
  {
    var head, close := CallWord(call) + [LPar], [RPar] + post;
    var mid := PassHead(pre, call, Source(inner) + close, parens);
    HeadEnds(pre, call);
    found, noted := ScanItems(pre + head, inner, close, mid);
    ClosePasses(pre, head, Source(inner), found, post, parens, mid, mid + noted);
    Assoc(parens, [|pre| + |CallWord(call)|], noted);
  }

  lemma ClosePasses(
    pre: seq<Token>, head: seq<Token>, inner: seq<Token>, found: seq<Token>, post: seq<Token>,
    parens: seq<nat>, mid: seq<nat>, left: seq<nat>)
    requires Passes(Move, pre, head, head, inner + ([RPar] + post), parens, mid)
    requires Passes(Move, pre + head, inner, found, [RPar] + post, mid, left)
    ensures Passes(Move, pre, head + inner + [RPar], head + found + [RPar], post, parens, left)
  {
    PassPlain(pre + head + found, RPar, post, left);
    PassInner(Move, pre, head, inner, found, post, parens, mid, left);
  }

  lemma HeadEnds(pre: seq<Token>, call: Option<string>)
    ensures !AfterWord(pre + (CallWord(call) + [LPar]))
  {}

  /** [name] ( */
  lemma PassHead(pre: seq<Token>, call: Option<string>, post: seq<Token>, parens: seq<nat>) returns (mid: seq<nat>)
    requires Below(parens, |pre|)
    ensures mid == parens + [|pre| + |CallWord(call)|] && Below(mid, |pre + (CallWord(call) + [LPar])|)
    ensures Passes(Move, pre, CallWord(call) + [LPar], CallWord(call) + [LPar], post, parens, mid)
  {
    var name := CallWord(call);
    mid := parens + [|pre| + |name|];
    PassName(pre, call, [LPar] + post, parens);
    PassPlain(pre + name, LPar, post, parens);
    PassesOn(Move, pre, name, name, [LPar], [LPar], post, parens, parens, mid);
  }

  lemma PassName(pre: seq<Token>, call: Option<string>, post: seq<Token>, parens: seq<nat>)
    requires Below(parens, |pre|) && post != [] && post[0] == LPar
    ensures Passes(Move, pre, CallWord(call), CallWord(call), post, parens, parens)
  {
    if call.Some? {
      PassPlain(pre, Word(call.value), post, parens);
    } else {
      PassesNothing(Move, pre, post, parens);
    }
  }

  /** [name] ( inner ), put together. */
  lemma PassInner(
    step: Stepper, pre: seq<Token>, head: seq<Token>, inner: seq<Token>, found: seq<Token>, post: seq<Token>,
    parens: seq<nat>, mid: seq<nat>, left: seq<nat>)
    requires Passes(step, pre, head, head, inner + ([RPar] + post), parens, mid)
    requires Passes(step, pre + head, inner, found, [RPar] + post, mid, left)
    requires Passes(step, pre + head + found, [RPar], [RPar], post, left, left)
    ensures Passes(step, pre, head + inner + [RPar], head + found + [RPar], post, parens, left)
  {
    PassesOn(step, pre, head, head, inner, found, [RPar] + post, parens, mid, left);
    Assoc(pre, head, found);
    PassesOn(step, pre, head + inner, head + found, [RPar], [RPar], post, parens, left, left);
  }
}
