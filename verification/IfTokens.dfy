/** The tokens of an `{if}` tag, and the scan over them as a function. */
module IfTokens {
  import opened Options

  datatype Keyword = KwEq | KwNe | KwNeq | KwLt | KwLe | KwLte | KwGt | KwGe | KwGte | KwAnd | KwOr | KwNot | KwMod
  datatype Kind = Even | Odd | Div

  /** A divisor: absent, or what follows `by`, which may be missing at the end of the tag. */
  datatype Divisor = NoDivisor | By(arg: Option<Token>)

  /**
   Tokens, already told apart. Key is an operator written as a word, `exact` if in
   lower case; Var is a variable or object call. Compiled and Test are results.
   */
  datatype Token =
    | Symbol(text: string)
    | LPar | RPar
    | Key(word: Keyword, exact: bool)
    | Is
    | Word(name: string)
    | Var(text: string, endsInOperator: bool)
    | Num(text: string)
    | Bad(text: string)
    | Compiled(variable: string)
    | Test(operand: seq<Token>, negated: bool, kind: Kind, divisor: Divisor)

  function Spelling(k: Keyword): string {
    match k
    case KwEq => "==" case KwNe => "!=" case KwNeq => "!="
    case KwLt => "<" case KwLe => "<=" case KwLte => "<="
    case KwGt => ">" case KwGe => ">=" case KwGte => ">="
    case KwAnd => "&&" case KwOr => "||" case KwNot => "!" case KwMod => "%"
  }

  function KindOf(t: Token): Option<Kind> {
    if t == Word("even") then Some(Even)
    else if t == Word("odd") then Some(Odd)
    else if t == Word("div") then Some(Div)
    else None
  }

  /** What `_parse_is_expr` makes of the tokens after `is`, and how many it uses; None is a syntax error. */
  datatype Parsed = Parsed(negated: bool, kind: Kind, divisor: Divisor, used: nat)

  function ParseIs(tokens: seq<Token>): (r: Option<Parsed>)
    ensures r.Some? ==> 1 <= r.value.used <= |tokens|
  {
    var negated := tokens != [] && tokens[0] == Key(KwNot, true);
    var at := if negated then 1 else 0;
    if at >= |tokens| then None
    else
      match KindOf(tokens[at])
      case None => None
      case Some(kind) =>
        if at + 1 < |tokens| && tokens[at + 1] == Word("by") then
          if at + 2 < |tokens| then Some(Parsed(negated, kind, By(Some(tokens[at + 2])), at + 3))
          else Some(Parsed(negated, kind, By(None), at + 2))
        else if kind == Div then None
        else Some(Parsed(negated, kind, NoDivisor, at + 1))
  }

  function KindWord(k: Kind): Token {
    match k case Even => Word("even") case Odd => Word("odd") case Div => Word("div")
  }

  /** The tokens of `is [not] kind [by arg]`. */
  function IsWords(negated: bool, kind: Kind, over: Option<Token>): seq<Token> {
    [Is] + (if negated then [Key(KwNot, true)] else []) + [KindWord(kind)]
      + (if over.None? then [] else [Word("by"), over.value])
  }

  lemma ParseIsWords(negated: bool, kind: Kind, over: Option<Token>, follow: seq<Token>)
    requires kind == Div ==> over.Some?
    requires over.None? ==> TokenAt(follow, 0) != Some(Word("by"))
    ensures var words := IsWords(negated, kind, over);
            ParseIs(words[1..] + follow)
            == Some(Parsed(negated, kind, if over.None? then NoDivisor else By(over), |words| - 1))
  {
    var words := IsWords(negated, kind, over);
    var rest := words[1..] + follow;
    var at := if negated then 1 else 0;
    assert rest[at] == KindWord(kind);
    if over.None? {
      assert at + 1 == |words| - 1;
      assert at + 1 < |rest| ==> rest[at + 1] == follow[0];
    } else {
      assert rest[at + 1] == Word("by") && rest[at + 2] == over.value;
    }
  }

  // ----- the scan -----

  /** The list that `$is_arg_stack` holds points into the part already scanned. */
  predicate Below(parens: seq<nat>, n: nat) {
    forall k :: 0 <= k < |parens| ==> parens[k] < n
  }

  /** The token list, the position, and `$is_arg_stack`. */
  datatype Scan = Scan(tokens: seq<Token>, i: nat, parens: seq<nat>)
  datatype Outcome = Running(scan: Scan) | Failed

  /** A token that is not `is`, given the one after it; None is a syntax error. */
  function Respell(t: Token, next: Option<Token>): Option<Token> {
    match t
    case Symbol(_) => Some(t)
    case LPar => Some(t)
    case RPar => Some(t)
    case Key(word, _) => Some(Symbol(Spelling(word)))
    case Word(_) => Some(t)
    case Var(text, endsInOperator) => if !endsInOperator && next == Some(LPar) then None else Some(Compiled(text))
    case Num(_) => Some(t)
    case _ => None
  }

  function TokenAt(tokens: seq<Token>, i: nat): Option<Token> {
    if i < |tokens| then Some(tokens[i]) else None
  }

  /** Where the operand of the `is` at position i begins, for i > 0. */
  function OperandStart(s: Scan): nat
    requires 0 < s.i < |s.tokens|
    requires forall k :: 0 <= k < |s.parens| ==> s.parens[k] < s.i
  {
    if s.tokens[s.i - 1] == RPar then
      var p := if s.parens == [] then 0 else s.parens[|s.parens| - 1];
      if p != 0 && s.tokens[p - 1].Word? then p - 1 else p
    else s.i - 1
  }

  /** One iteration of the loop. */
  function Step(s: Scan): Outcome
    requires s.i < |s.tokens|
    requires forall k :: 0 <= k < |s.parens| ==> s.parens[k] < s.i
  {
    var t := s.tokens[s.i];
    if t == Is then
      match ParseIs(s.tokens[s.i + 1..])
      case None => Failed
      case Some(Parsed(negated, kind, divisor, used)) =>
        var rest := s.tokens[s.i + 1 + used..];
        if s.i == 0 then
          // PHP counts the position -1 from the end: the last token is operand and is replaced
          var last := |s.tokens| - 1;
          Running(s.(tokens := s.tokens[..last] + [Test([s.tokens[last]], negated, kind, divisor)] + rest))
        else
          var start := OperandStart(s);
          var parens := if s.tokens[s.i - 1] == RPar && s.parens != [] then s.parens[..|s.parens| - 1] else s.parens;
          var result := Test(s.tokens[start..s.i], negated, kind, divisor);
          Running(Scan(s.tokens[..start] + [result] + rest, start + 1, parens))
    else
      match Respell(t, TokenAt(s.tokens, s.i + 1))
      case None => Failed
      case Some(t') => Running(Scan(s.tokens[s.i := t'], s.i + 1, if t == LPar then s.parens + [s.i] else s.parens))
  }

  /** Position of the kind after a leading `is`. */
  function KindAt(tokens: seq<Token>): nat {
    if |tokens| > 1 && tokens[1] == Key(KwNot, true) then 2 else 1
  }

  /**
   Lists the scan never gets to the end of: a leading `is` with its kind, and behind them
   a last token, other than these and the `by` of a `div`, to be taken for the operand.
   */
  predicate Loops(tokens: seq<Token>) {
    var at := KindAt(tokens);
    && at + 1 < |tokens| && tokens[0] == Is && KindOf(tokens[at]).Some?
    && (KindOf(tokens[at]) == Some(Div) ==> tokens[at + 1] == Word("by") && at + 2 < |tokens|)
  }

  predicate LeadsWithIs(tokens: seq<Token>) {
    tokens != [] && tokens[0] == Is
  }

  /** What holds whenever the loop test is reached, if the list is not one of those. */
  predicate Ready(s: Scan) {
    if LeadsWithIs(s.tokens) then s.i == 0 && s.parens == [] && !Loops(s.tokens)
    else
      && s.i <= |s.tokens|
      && (forall k :: 0 <= k < |s.parens| ==> s.parens[k] < s.i)
      && (forall j, k :: 0 <= j < k < |s.parens| ==> s.parens[j] < s.parens[k])
  }

  /** The measure of the loop: count(tokens) - i, or how soon a leading `is` fails. */
  function Ahead(s: Scan): int {
    if !LeadsWithIs(s.tokens) then |s.tokens| - s.i
    else if ParseIs(s.tokens[1..]).Some? then 2
    else 1
  }

  /** The step on `is`, in terms of the slices of the list. */
  lemma StepIsAt(s: Scan, start: nat, p: Parsed, left: seq<nat>)
    requires Below(s.parens, s.i) && 0 < s.i < |s.tokens| && s.tokens[s.i] == Is
    requires ParseIs(s.tokens[s.i + 1..]) == Some(p)
    requires OperandStart(s) == start
    requires left == if s.tokens[s.i - 1] == RPar && s.parens != [] then s.parens[..|s.parens| - 1] else s.parens
    ensures start < s.i && s.i + 1 + p.used <= |s.tokens|
    ensures var result := Test(s.tokens[start..s.i], p.negated, p.kind, p.divisor);
            Step(s) == Running(Scan(s.tokens[..start] + [result] + s.tokens[s.i + 1 + p.used..], start + 1, left))
  {}

  function ParensLeft(s: Scan): seq<nat>
    requires 0 < s.i <= |s.tokens|
  {
    if s.tokens[s.i - 1] == RPar && s.parens != [] then s.parens[..|s.parens| - 1] else s.parens
  }

  /** Positions of parentheses that are still open lie in front of the operand. */
  lemma OperandBelow(s: Scan)
    requires Ready(s) && 0 < s.i < |s.tokens|
    ensures forall k :: 0 <= k < |ParensLeft(s)| ==> ParensLeft(s)[k] <= OperandStart(s)
  {
    var left := ParensLeft(s);
    forall k | 0 <= k < |left| ensures left[k] <= OperandStart(s) {
      assert left[k] == s.parens[k];
      if |left| < |s.parens| {
        assert s.parens[k] < s.parens[|s.parens| - 1];
      }
    }
  }

  lemma SpliceFirst(tokens: seq<Token>, start: nat, result: Token, from: nat)
    requires start < from <= |tokens| && result != Is && tokens[0] != Is
    ensures var next := tokens[..start] + [result] + tokens[from..];
            |next| == start + 1 + |tokens| - from && next[0] != Is
  {}

  lemma StepShrinksIs(s: Scan)
    requires Ready(s) && 0 < s.i < |s.tokens| && s.tokens[s.i] == Is && ParseIs(s.tokens[s.i + 1..]).Some?
    ensures Step(s).Running?
    ensures var next := Step(s).scan;
            Ready(next) && 0 <= Ahead(next) < Ahead(s)
  {
    var start := OperandStart(s);
    var p := ParseIs(s.tokens[s.i + 1..]).value;
    OperandBelow(s);
    StepIsAt(s, start, p, ParensLeft(s));
    SpliceFirst(s.tokens, start, Test(s.tokens[start..s.i], p.negated, p.kind, p.divisor), s.i + 1 + p.used);
  }

  lemma StepShrinksPlain(s: Scan, t: Token)
    requires Ready(s) && s.i < |s.tokens| && s.tokens[s.i] != Is
    requires Respell(s.tokens[s.i], TokenAt(s.tokens, s.i + 1)) == Some(t)
    ensures Step(s) == Running(Scan(s.tokens[s.i := t], s.i + 1,
                                    if s.tokens[s.i] == LPar then s.parens + [s.i] else s.parens))
    ensures Ready(Step(s).scan) && 0 <= Ahead(Step(s).scan) < Ahead(s)
  {
    assert t != Is;
  }

  /** PHP counts the position -1 from the end: the last token is taken for the operand and replaced. */
  function LastReplaced(tokens: seq<Token>, p: Parsed): seq<Token>
    requires tokens != [] && 1 + p.used <= |tokens|
  {
    var last := |tokens| - 1;
    tokens[..last] + [Test([tokens[last]], p.negated, p.kind, p.divisor)] + tokens[1 + p.used..]
  }

  lemma StepLeading(tokens: seq<Token>)
    requires LeadsWithIs(tokens)
    ensures Step(Scan(tokens, 0, [])) ==
            match ParseIs(tokens[1..])
            case None => Failed
            case Some(p) => Running(Scan(LastReplaced(tokens, p), 0, []))
  {}

  lemma NothingBelow(parens: seq<nat>)
    ensures Below(parens, 0) ==> parens == []
  {
    if parens != [] {
      assert !Below(parens, 0) by { assert parens[0] >= 0; }
    }
  }

  /** The result in place of its operand and of the words behind it; the position -1 counts from the end. */
  function Spliced(tokens: seq<Token>, start: int, i: nat, p: Parsed): seq<Token>
    requires -1 <= start < i && (start < 0 ==> i == 0) && i + 1 + p.used <= |tokens|
  {
    var from := if start < 0 then |tokens| + start else start;
    tokens[..from] + [Test(tokens[from..from + (i - start)], p.negated, p.kind, p.divisor)] + tokens[i + 1 + p.used..]
  }

  lemma StepAtFront(tokens: seq<Token>, p: Parsed)
    requires LeadsWithIs(tokens) && ParseIs(tokens[1..]) == Some(p)
    ensures 1 + p.used <= |tokens|
    ensures Step(Scan(tokens, 0, [])) == Running(Scan(Spliced(tokens, -1, 0, p), 0, []))
  {
    StepLeading(tokens);
    SliceNext(tokens, |tokens| - 1, |tokens| - 1);
    Nothing([tokens[|tokens| - 1]]);
  }

  /** The step on `is` with its operand given by a position that may be -1. */
  lemma StepSpliced(s: Scan, start: int, p: Parsed, left: seq<nat>)
    requires Below(s.parens, s.i) && s.i < |s.tokens| && s.tokens[s.i] == Is
    requires ParseIs(s.tokens[s.i + 1..]) == Some(p)
    requires if s.i > 0 then start == OperandStart(s) && left == ParensLeft(s) else start == -1 && left == s.parens
    ensures start < s.i && s.i + 1 + p.used <= |s.tokens|
    ensures Step(s) == Running(Scan(Spliced(s.tokens, start, s.i, p), start + 1, left))
  {
    if s.i > 0 {
      StepIsAt(s, start, p, left);
      SplicedBehind(s.tokens, start, s.i, p);
    } else {
      NothingBelow(s.parens);
      StepAtFront(s.tokens, p);
    }
  }

  lemma SplicedBehind(tokens: seq<Token>, start: nat, i: nat, p: Parsed)
    requires start < i && i + 1 + p.used <= |tokens|
    ensures Spliced(tokens, start, i, p)
         == tokens[..start] + [Test(tokens[start..i], p.negated, p.kind, p.divisor)] + tokens[i + 1 + p.used..]
  {}

  /** Where the words after a leading `is` are. */
  lemma ParseLeading(tokens: seq<Token>)
    requires LeadsWithIs(tokens)
    ensures var at := KindAt(tokens);
            ParseIs(tokens[1..]).Some? <==>
            && at < |tokens| && KindOf(tokens[at]).Some?
            && (KindOf(tokens[at]) == Some(Div) ==> at + 1 < |tokens| && tokens[at + 1] == Word("by"))
  {
    var at := KindAt(tokens);
    if at < |tokens| { assert tokens[1..][at - 1] == tokens[at]; }
    if at + 1 < |tokens| { assert tokens[1..][at] == tokens[at + 1]; }
  }

  /** A leading `is` whose words are all there is can only go on once, having lost a word. */
  lemma LeadingFails(tokens: seq<Token>)
    requires LeadsWithIs(tokens) && !Loops(tokens) && ParseIs(tokens[1..]).Some?
    ensures var next := LastReplaced(tokens, ParseIs(tokens[1..]).value);
            LeadsWithIs(next) && !Loops(next) && ParseIs(next[1..]).None?
  {
    var at, p := KindAt(tokens), ParseIs(tokens[1..]).value;
    var next := LastReplaced(tokens, p);
    ParseLeading(tokens);
    var last := |tokens| - 1;
    assert last == at || last == at + 1;
    assert p.used == last && tokens[1 + p.used..] == [];
    assert |next| == |tokens| && next[..last] == tokens[..last] && next[last].Test?;
    assert next[0] == tokens[0] && (last > 1 ==> next[1] == tokens[1]);
    ParseLeading(next);
  }

  /** The measure goes down with every iteration although the list is spliced under the loop. */
  lemma StepShrinks(s: Scan)
    requires Ready(s) && s.i < |s.tokens|
    ensures Step(s).Running? ==>
              var next := Step(s).scan;
              Ready(next) && 0 <= Ahead(next) < Ahead(s)
  {
    if LeadsWithIs(s.tokens) {
      StepLeading(s.tokens);
      if ParseIs(s.tokens[1..]).Some? { LeadingFails(s.tokens); }
    } else if s.tokens[s.i] == Is {
      if ParseIs(s.tokens[s.i + 1..]).Some? { StepShrinksIs(s); }
    } else if Respell(s.tokens[s.i], TokenAt(s.tokens, s.i + 1)).Some? {
      StepShrinksPlain(s, Respell(s.tokens[s.i], TokenAt(s.tokens, s.i + 1)).value);
    }
  }

  /** Scanning to the end. */
  function Rewrite(s: Scan): Option<seq<Token>>
    requires Ready(s)
    decreases Ahead(s)
  {
    if s.i == |s.tokens| then Some(s.tokens)
    else
      StepShrinks(s);
      match Step(s)
      case Failed => None
      case Running(next) => Rewrite(next)
  }

  function CountOf(tokens: seq<Token>, t: Token): nat {
    if tokens == [] then 0 else (if tokens[0] == t then 1 else 0) + CountOf(tokens[1..], t)
  }

  /** The check on parentheses: it only looks when there is an opening one. */
  predicate ParensAgree(tokens: seq<Token>) {
    CountOf(tokens, LPar) == 0 || CountOf(tokens, LPar) == CountOf(tokens, RPar)
  }

  function RewriteIf(tokens: seq<Token>): Option<seq<Token>>
    requires ParensAgree(tokens) ==> !Loops(tokens)
  {
    if tokens == [] || !ParensAgree(tokens) then None else Rewrite(Scan(tokens, 0, []))
  }
}
