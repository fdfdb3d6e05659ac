/** What conditions mean: the operators their author writes, the symbols of PHP, and the tests with `is`. */
module Operators {
  import opened Options
  import opened IfTokens
  import opened IfRuns
  import opened IfRewriter

  // ----- what operators stand for -----

  function Truth(b: bool): int {
    if b then 1 else 0
  }

  /** PHP's division of integers, made an integer: towards zero. */
  function Quotient(a: int, b: int): int
    requires b != 0
  {
    if a >= 0 then (if b > 0 then a / b else -(a / -b)) else if b > 0 then -(-a / b) else -a / -b
  }

  function Remainder(a: int, b: int): int
    requires b != 0
  {
    a - Quotient(a, b) * b
  }

  /** What the author of a condition means by an operator; `not` has only its right operand. */
  function Meant(word: Keyword, a: int, b: int): int
    requires b != 0 || word != KwMod
  {
    match word
    case KwEq => Truth(a == b)
    case KwNe => Truth(a != b)
    case KwNeq => Truth(a != b)
    case KwLt => Truth(a < b)
    case KwLe => Truth(a <= b)
    case KwLte => Truth(a <= b)
    case KwGt => Truth(a > b)
    case KwGe => Truth(a >= b)
    case KwGte => Truth(a >= b)
    case KwAnd => Truth(a != 0 && b != 0)
    case KwOr => Truth(a != 0 || b != 0)
    case KwNot => Truth(b == 0)
    case KwMod => Remainder(a, b)
  }

  /** What PHP makes of a symbol, for those that have a word. */
  function Computed(symbol: string, a: int, b: int): Option<int> {
    if symbol == "==" then Some(Truth(a == b))
    else if symbol == "!=" then Some(Truth(a != b))
    else if symbol == "<" then Some(Truth(a < b))
    else if symbol == "<=" then Some(Truth(a <= b))
    else if symbol == ">" then Some(Truth(a > b))
    else if symbol == ">=" then Some(Truth(a >= b))
    else if symbol == "&&" then Some(Truth(a != 0 && b != 0))
    else if symbol == "||" then Some(Truth(a != 0 || b != 0))
    else if symbol == "!" then Some(Truth(b == 0))
    else if symbol == "%" && b != 0 then Some(Remainder(a, b))
    else None
  }

  /** The words there are for a symbol. */
  function WordsFor(symbol: string): set<Keyword> {
    if symbol == "==" then {KwEq}
    else if symbol == "!=" then {KwNe, KwNeq}
    else if symbol == "<" then {KwLt}
    else if symbol == "<=" then {KwLe, KwLte}
    else if symbol == ">" then {KwGt}
    else if symbol == ">=" then {KwGe, KwGte}
    else if symbol == "&&" then {KwAnd}
    else if symbol == "||" then {KwOr}
    else if symbol == "!" then {KwNot}
    else if symbol == "%" then {KwMod}
    else {}
  }

  /** The rewritten token means what the token means; but for words and variables it is the token. */
  ghost predicate MeansTheSame(t: Token, out: Token) {
    match t
    case Key(word, _) =>
      && out.Symbol? && word in WordsFor(out.text)
      && forall a: int, b: int :: b != 0 || word != KwMod ==> Computed(out.text, a, b) == Some(Meant(word, a, b))
    case Var(text, _) => out == Compiled(text)
    case _ => out == t
  }

  lemma RespellMeans(t: Token, next: Option<Token>)
    requires Respell(t, next).Some?
    ensures MeansTheSame(t, Respell(t, next).value)
  {
  }

  // ----- conditions without `is` -----

  /** A token that is an error where it stands: unknown, no token of a source, or a call of a variable. */
  predicate Rejected(tokens: seq<Token>, i: nat)
    requires i < |tokens|
  {
    match tokens[i]
    case Bad(_) => true
    case Compiled(_) => true
    case Test(_, _, _, _) => true
    case Var(_, endsInOperator) => !endsInOperator && i + 1 < |tokens| && tokens[i + 1] == LPar
    case _ => false
  }

  /** The tokens from i on, one by one. */
  function OneByOne(tokens: seq<Token>, i: nat): (r: Option<seq<Token>>)
    requires i <= |tokens|
    ensures r.Some? ==> |r.value| == |tokens| - i
    decreases |tokens| - i
  {
    if i == |tokens| then Some([])
    else
      match Respell(tokens[i], TokenAt(tokens, i + 1))
      case None => None
      case Some(t) =>
        match OneByOne(tokens, i + 1)
        case None => None
        case Some(more) => Some([t] + more)
  }

  lemma {:induction false} OneByOneMeans(tokens: seq<Token>, i: nat)
    requires i <= |tokens| && Is !in tokens
    ensures OneByOne(tokens, i).None? <==> exists k :: i <= k < |tokens| && Rejected(tokens, k)
    ensures OneByOne(tokens, i).Some? ==>
              forall k :: i <= k < |tokens| ==> MeansTheSame(tokens[k], OneByOne(tokens, i).value[k - i])
    decreases |tokens| - i
  {
    if i < |tokens| {
      OneByOneMeans(tokens, i + 1);
      assert Rejected(tokens, i) <==> Respell(tokens[i], TokenAt(tokens, i + 1)).None?;
      if OneByOne(tokens, i).Some? {
        RespellMeans(tokens[i], TokenAt(tokens, i + 1));
        var out, more := OneByOne(tokens, i).value, OneByOne(tokens, i + 1).value;
        forall k | i <= k < |tokens| ensures MeansTheSame(tokens[k], out[k - i]) {
          if k > i { assert out[k - i] == more[k - i - 1]; }
        }
      }
    }
  }

  /** The scan with tokens `done` in front of it and the tokens of the source from there on. */
  lemma {:induction false} ScannedOneByOne(tokens: seq<Token>, i: nat, done: seq<Token>, parens: seq<nat>)
    requires i <= |tokens| && |done| == i && Is !in tokens && Is !in done
    requires Ready(Scan(done + tokens[i..], i, parens))
    ensures Rewrite(Scan(done + tokens[i..], i, parens)) ==
            match OneByOne(tokens, i) case None => None case Some(more) => Some(done + more)
    decreases |tokens| - i
  {
    var s := Scan(done + tokens[i..], i, parens);
    if i < |tokens| {
      HereAndNext(tokens, i, done);
      StepShrinks(s);
      match Respell(tokens[i], TokenAt(tokens, i + 1))
      case None =>
      case Some(t) =>
        StepShrinksPlain(s, t);
        assert s.tokens[i := t] == (done + [t]) + tokens[i + 1..];
        var left := if tokens[i] == LPar then parens + [i] else parens;
        ScannedOneByOne(tokens, i + 1, done + [t], left);
        if OneByOne(tokens, i + 1).Some? { Assoc(done, [t], OneByOne(tokens, i + 1).value); }
    } else {
      assert tokens[i..] == [];
      Nothing(done);
    }
  }

  lemma HereAndNext(tokens: seq<Token>, i: nat, done: seq<Token>)
    requires i < |tokens| && |done| == i
    ensures var all := done + tokens[i..];
            |all| == |tokens| && all[i] == tokens[i] && TokenAt(all, i + 1) == TokenAt(tokens, i + 1)
  {}

  lemma {:induction false} CountIsMultiset(tokens: seq<Token>, t: Token)
    ensures CountOf(tokens, t) == multiset(tokens)[t]
  {
    if tokens != [] {
      CountIsMultiset(tokens[1..], t);
      HeadTail(tokens);
      assert multiset(tokens) == multiset([tokens[0]]) + multiset(tokens[1..]);
    }
  }

  /**
   For every condition without `is`: it is rejected exactly if it is empty, has opening
   parentheses but not as many closing ones, or has a token that is an error where it
   stands. Otherwise there is one token for each, which means the same.
   */
  lemma PlainConditionExactly(tokens: seq<Token>)
    requires Is !in tokens
    ensures !Loops(tokens)
    ensures var open, close := multiset(tokens)[LPar], multiset(tokens)[RPar];
            RewriteIf(tokens).None? <==>
            || tokens == [] || (open != 0 && open != close) || exists i :: 0 <= i < |tokens| && Rejected(tokens, i)
    ensures RewriteIf(tokens).Some? ==>
              var out := RewriteIf(tokens).value;
              |out| == |tokens| && forall i :: 0 <= i < |out| ==> MeansTheSame(tokens[i], out[i])
  {
    CountIsMultiset(tokens, LPar);
    CountIsMultiset(tokens, RPar);
    OneByOneMeans(tokens, 0);
    RewrittenOneByOne(tokens);
  }

  lemma RewrittenOneByOne(tokens: seq<Token>)
    requires Is !in tokens
    ensures !Loops(tokens)
    ensures RewriteIf(tokens) == if tokens == [] || !ParensAgree(tokens) then None else OneByOne(tokens, 0)
  {
    if tokens != [] {
      Nothing(tokens);
      assert tokens[0..] == tokens;
      ScannedOneByOne(tokens, 0, [], []);
      if OneByOne(tokens, 0).Some? { Nothing(OneByOne(tokens, 0).value); }
    }
  }

  /** In a condition with tests as well, every token that is not part of one means the same behind the rewriting. */
  lemma {:induction false} PlacesMean(items: Items, afterWord: bool, follow: seq<Token>, k: nat)
    requires Valid(items, afterWord, follow) && k < ItemCount(items)
    ensures |Target(items)| == ItemCount(items)
    ensures ItemAt(items, k).Plain? ==> MeansTheSame(ItemAt(items, k).token, Target(items)[k])
  {
    TargetCount(items);
    if k > 0 {
      PlacesMean(items.tail, EndsInWord(items.head), follow, k - 1);
    } else if items.head.Plain? {
      var t, next := items.head.token, TokenAt(Source(items.tail) + follow, 0);
      RespellMeans(t, next);
      assert Respell(t, next) == Some(Respelled(t));
    }
  }

  // ----- tests with `is` -----

  /** The code of a test: what is tested, the divisor, 1 & e, !e, e / f and e % f. */
  datatype Code = Tested | Divided | Bit(e: Code) | Not(e: Code) | Over(e: Code, f: Code) | Modulo(e: Code, f: Code)

  /** The expression `_parse_is_expr` writes; with `by` at the end of the tag it is no expression of PHP. */
  function CodeOf(p: Parsed): Option<Code> {
    if p.divisor == By(None) then None
    else
      var x := if p.divisor == NoDivisor then Tested else Over(Tested, Divided);
      var test :=
        match p.kind
        case Even => Not(Bit(x))
        case Odd => Bit(x)
        case Div => Not(Modulo(Tested, Divided));
      Some(if p.negated then Not(test) else test)
  }

  /** Its value for integers; what / gives is made an integer by &. */
  function Value(c: Code, x: int, y: int): int
    requires y != 0
  {
    match c
    case Tested => x
    case Divided => y
    case Bit(e) => Value(e, x, y) % 2
    case Not(e) => Truth(Value(e, x, y) == 0)
    case Over(e, f) => if Value(f, x, y) == 0 then 0 else Quotient(Value(e, x, y), Value(f, x, y))
    case Modulo(e, f) => if Value(f, x, y) == 0 then 0 else Remainder(Value(e, x, y), Value(f, x, y))
  }

  /** What a test says of x and, if there is a divisor, y. */
  ghost predicate Says(word: string, divided: bool, x: int, y: int)
    requires y != 0
  {
    if word == "div" then exists q: int :: x == q * y
    else
      var v := if divided then Quotient(x, y) else x;
      if word == "even" then exists q: int :: v == 2 * q else exists q: int :: v == 2 * q + 1
  }

  lemma Parity(v: int)
    ensures v % 2 == 0 <==> exists q: int :: v == 2 * q
    ensures v % 2 == 1 <==> exists q: int :: v == 2 * q + 1
  {
    assert v == 2 * (v / 2) + v % 2;
  }

  lemma Divides(x: int, y: int)
    requires y != 0
    ensures Remainder(x, y) == 0 <==> exists q: int :: x == q * y
  {
    if Remainder(x, y) == 0 { assert x == Quotient(x, y) * y; }
    if q: int :| x == q * y {
      QuotientOf(q, y);
    }
  }

  lemma QuotientOf(q: int, y: int)
    requires y != 0
    ensures Quotient(q * y, y) == q
  {
    var a, b := Magnitude(q), Magnitude(y);
    ProductSign(q, y);
    DivideProduct(a, b);
  }

  function Magnitude(x: int): nat {
    if x < 0 then -x else x
  }

  lemma ProductSign(q: int, y: int)
    requires y != 0
    ensures (q > 0 && y > 0) || (q < 0 && y < 0) ==> q * y == Magnitude(q) * Magnitude(y) > 0
    ensures (q > 0 && y < 0) || (q < 0 && y > 0) ==> -(q * y) == Magnitude(q) * Magnitude(y) > 0
    ensures q == 0 ==> q * y == 0
  {}

  lemma DivideProduct(a: nat, b: nat)
    requires b > 0
    ensures a * b / b == a
  {
    if a > 0 {
      DivideProduct(a - 1, b);
      assert a * b == (a - 1) * b + b;
      assert ((a - 1) * b + b) / b == (a - 1) * b / b + 1;
    }
  }

  /** The words of a test: whether `not` comes first, even, odd or div, and a divisor behind `by`. */
  function Words(negated: bool, word: string, over: Option<Token>): seq<Token> {
    (if negated then [Key(KwNot, true)] else []) + [Word(word)]
      + (if over.None? then [] else [Word("by"), over.value])
  }

  /**
   For every test: its words are used up and nothing else, and for all integers the code
   that is written says what the words say.
   */
  lemma TestMeans(negated: bool, word: string, over: Option<Token>, follow: seq<Token>, x: int, y: int)
    requires word == "even" || word == "odd" || (word == "div" && over.Some?)
    requires over.None? ==> TokenAt(follow, 0) != Some(Word("by"))
    requires y != 0
    ensures match ParseIs(Words(negated, word, over) + follow)
            case None => false
            case Some(p) =>
              && p.used == |Words(negated, word, over)|
              && p.divisor == (if over.None? then NoDivisor else By(over))
              && match CodeOf(p)
                 case None => false
                 case Some(code) => Value(code, x, y) != 0 <==> Says(word, over.Some?, x, y) != negated
  {
    var kind := if word == "even" then Even else if word == "odd" then Odd else Div;
    var words := Words(negated, word, over);
    assert IsWords(negated, kind, over)[1..] == words;
    ParseIsWords(negated, kind, over, follow);
    Parity(x);
    Parity(Quotient(x, y));
    Divides(x, y);
    TestValue(ParseIs(words + follow).value, x, y);
  }

  lemma TestValue(p: Parsed, x: int, y: int)
    requires y != 0 && p.divisor != By(None) && (p.kind == Div ==> p.divisor != NoDivisor)
    ensures var v := if p.divisor == NoDivisor then x else Quotient(x, y);
            var holds := match p.kind case Even => v % 2 == 0 case Odd => v % 2 == 1 case Div => Remainder(x, y) == 0;
            Value(CodeOf(p).value, x, y) != 0 <==> holds != p.negated
  {
    var code := if p.divisor == NoDivisor then Tested else Over(Tested, Divided);
    assert Value(Divided, x, y) == y && Value(Tested, x, y) == x;
    assert Value(code, x, y) == if p.divisor == NoDivisor then x else Quotient(x, y);
    assert Value(Modulo(Tested, Divided), x, y) == Remainder(x, y);
    assert Value(Bit(code), x, y) == Value(code, x, y) % 2;
    assert Value(Not(Bit(code)), x, y) == Truth(Value(code, x, y) % 2 == 0);
    assert Value(Not(Modulo(Tested, Divided)), x, y) == Truth(Remainder(x, y) == 0);
  }

  /** What is no test: anything but an optional `not` in small letters, a kind, and for `div` the word `by`. */
  lemma TestsExactly(tokens: seq<Token>)
    ensures var at := if tokens != [] && tokens[0] == Key(KwNot, true) then 1 else 0;
            ParseIs(tokens).Some? <==>
            && at < |tokens|
            && (tokens[at] == Word("even") || tokens[at] == Word("odd")
                || (tokens[at] == Word("div") && at + 1 < |tokens| && tokens[at + 1] == Word("by")))
  {}
}
