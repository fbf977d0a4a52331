/** The laws of L expressions: precedence, unique readings, and what short-circuiting does to them. */
module LExprLaws {
  import opened LExpr
  import opened LExprTrees

  // ----- Precedence -----

  /** `ParseTree` for a complete expression that ends at a terminator.  One that ends in a comparison which the
      text of this terminator decides is not left there. */
  lemma ParseComplete<V>(L: Lang<V>, e: Expr<V>, rest: seq<Token<V>>)
    requires Tight(e) && SafeSkips(L, e, Head(rest)) && IsTerminator(Head(rest))
    ensures AnyError(ParseExpr(L, Print(e) + rest))
            == match Value(L, e, Head(rest))
               case Fail => Err(OperatorFailed)
               case Val(v) => Ok(v, rest)
               case Ended(v) => Ok(v, rest)
               case Stop(v) => if Consume(rest).None? then Err(OperatorFailed) else Ok(v, Consume(rest).value)
    ensures Inert(Head(rest)) ==> !Value(L, e, Head(rest)).Stop?
  {
    ParseTree(L, MAX_EXPR_LEVEL, e, rest);
    if Inert(Head(rest)) { InertNeverStops(L, e, Head(rest)); }
  }

  /** Without `and`/`or` the token-driven evaluation is the evaluation of the tree. */
  lemma Precedence<V>(L: Lang<V>, e: Expr<V>, rest: seq<Token<V>>)
    requires Tight(e) && NoLogic(e) && !Head(rest).Binop? && Inert(Head(rest))
    ensures AnyError(ParseExpr(L, Print(e) + rest))
            == if Eval(L, e).Some? then Ok(Eval(L, e).value, rest) else Err(OperatorFailed)
  {
    NoLogicNoStop(L, e, Head(rest));
    ParseTree(L, MAX_EXPR_LEVEL, e, rest);
  }

  lemma {:induction false} NoLogicNoStop<V>(L: Lang<V>, e: Expr<V>, next: Token<V>)
    requires Tight(e) && NoLogic(e) && Inert(next)
    ensures SafeSkips(L, e, next)
    ensures Value(L, e, next) == if Eval(L, e).Some? then Val(Eval(L, e).value) else Fail
    decreases e
  {
    match e
    case Lit(_, _) =>
    case Paren(e') => NoLogicNoStop(L, e', ParenClose);
    case Bin(op, l, r) =>
      NoLogicNoStop(L, l, Binop(op));
      NoLogicNoStop(L, r, next);
  }

  /** A comparison decided by the text that follows it. */
  predicate Decided<V>(L: Lang<V>, e: Expr<V>, next: Token<V>)
    requires Eval(L, e).Some?
  {
    e.Bin? && e.op.level == COMPARISON_LEVEL && Decides(L, Eval(L, e).value, next)
  }

  /** The same before any token, whatever its text. */
  lemma {:induction false} NoLogicValue<V>(L: Lang<V>, e: Expr<V>, next: Token<V>)
    requires Tight(e) && NoLogic(e) && Eval(L, e).Some?
    ensures SafeSkips(L, e, next)
    ensures Value(L, e, next)
         == if Decided(L, e, next) then Stop(if L.truthy(Eval(L, e).value) then L.yes else L.no)
            else Val(Eval(L, e).value)
    decreases e
  {
    match e
    case Lit(_, _) =>
    case Paren(e') => NoLogicNoStop(L, e', ParenClose);
    case Bin(op, l, r) =>
      NoLogicNoStop(L, l, Binop(op));
      NoLogicValue(L, r, next);
  }

  /** An expression without `and`/`or` ends where it is written to end exactly when it is no comparison that the
      text after it decides: else everything from that text on is skipped, as after an `and` or `or`. */
  lemma TextDecidesIff<V>(L: Lang<V>, e: Expr<V>, rest: seq<Token<V>>)
    requires Tight(e) && NoLogic(e) && Eval(L, e).Some? && !Head(rest).Binop?
    ensures var p, v := AnyError(ParseExpr(L, Print(e) + rest)), Eval(L, e).value;
      && (p.Ok? && p.rest == rest <==> !Decided(L, e, Head(rest)))
      && p == if !Decided(L, e, Head(rest)) then Ok(v, rest)
              else match Consume(rest)
                   case None => Err(OperatorFailed)
                   case Some(u) => Ok(if L.truthy(v) then L.yes else L.no, u)
  {
    NoLogicValue(L, e, Head(rest));
    ParseTree(L, MAX_EXPR_LEVEL, e, rest);
  }

  lemma {:induction false} BareIsSafe<V>(L: Lang<V>, e: Expr<V>, next: Token<V>)
    requires Tight(e) && BareOperands(e)
    ensures SafeSkips(L, e, next)
    decreases e
  {
    match e
    case Lit(_, _) =>
    case Paren(e') => BareIsSafe(L, e', ParenClose);
    case Bin(op, l, r) =>
      BareIsSafe(L, l, Binop(op));
      BareIsSafe(L, r, next);
      if Value(L, l, Binop(op)).Stop? { StopsAtTop(L, e); }
  }

  // ----- Every operator sequence has exactly one reading -----

  /** The operator tree, with the parentheses forgotten. */
  function Strip<V>(e: Expr<V>): Expr<V> {
    match e
    case Lit(_, _) => e
    case Paren(e') => Strip(e')
    case Bin(op, l, r) => Bin(op, Strip(l), Strip(r))
  }

  /** The language whose values are trees and in which nothing is ever skipped, once every logical
      operator is spelled as an `and`. */
  function TreeLang<V>(u: V): Lang<Expr<V>> {
    Lang((op: Op, x: Expr<V>, y: Expr<V>) => Applied(Bin(Unspell(op), x, y), true),
         (x: Expr<V>) => true, Lit(u, Other(0)), Lit(u, Other(0)), Lit(u, Other(0)))
  }

  function Spell(op: Op): Op {
    match op.word
    case And(k) => Op(op.level, And(2 * k))
    case Or(k) => Op(op.level, And(2 * k + 1))
    case Other(_) => op
  }

  function Unspell(op: Op): Op {
    if !op.word.And? then op
    else if op.word.spelling % 2 == 0 then Op(op.level, And(op.word.spelling / 2))
    else Op(op.level, Or(op.word.spelling / 2))
  }

  function Mirror<V>(e: Expr<V>): Expr<Expr<V>> {
    match e
    case Lit(_, word) => Lit(e, word)
    case Paren(e') => Paren(Mirror(e'))
    case Bin(op, l, r) => Bin(Spell(op), Mirror(l), Mirror(r))
  }

  function MirrorToken<V>(t: Token<V>): Token<Expr<V>> {
    match t
    case Operand(v, word) => Operand(Lit(v, word), word)
    case Binop(op) => Binop(Spell(op))
    case ParenOpen => ParenOpen
    case _ => ParenClose
  }

  /** The mirror image obeys the levels, and is printed with the mirrored tokens. */
  lemma {:induction false} MirrorPrints<V>(e: Expr<V>)
    requires Tight(e)
    ensures Tight(Mirror(e)) && Rank(Mirror(e)) == Rank(e)
    ensures |Print(Mirror(e))| == |Print(e)|
    ensures forall i :: 0 <= i < |Print(e)| ==> Print(Mirror(e))[i] == MirrorToken(Print(e)[i])
    decreases e
  {
    match e
    case Lit(_, _) =>
    case Paren(e') => MirrorPrints(e');
    case Bin(op, l, r) =>
      MirrorPrints(l);
      MirrorPrints(r);
  }

  lemma {:induction false} MirrorReads<V>(u: V, e: Expr<V>, next: Token<Expr<V>>)
    requires Tight(e) && (next.ParenClose? || next.NewLine? || (next.Binop? && next.op.word.Or? == false))
    ensures SafeSkips(TreeLang(u), Mirror(e), next)
    ensures Value(TreeLang(u), Mirror(e), next) == Val(Strip(e))
    decreases e
  {
    match e
    case Lit(_, _) =>
    case Paren(e') => MirrorReads(u, e', ParenClose);
    case Bin(op, l, r) =>
      MirrorReads(u, l, Binop(Spell(op)));
      MirrorReads(u, r, next);
      assert Unspell(Spell(op)) == op;
  }

  function FirstValue<V>(e: Expr<V>): V {
    match e
    case Lit(v, _) => v
    case Paren(e') => FirstValue(e')
    case Bin(_, l, _) => FirstValue(l)
  }

  /** Two trees that obey the levels and print the same are the same operator tree. */
  lemma UniqueReading<V>(e: Expr<V>, f: Expr<V>)
    requires Tight(e) && Tight(f) && Print(e) == Print(f)
    ensures Strip(e) == Strip(f)
  {
    var u := FirstValue(e);
    MirrorReads(u, e, NewLine);
    MirrorReads(u, f, NewLine);
    MirrorPrints(e);
    MirrorPrints(f);
    assert Print(Mirror(e)) == Print(Mirror(f));
    ParseComplete(TreeLang(u), Mirror(e), [NewLine]);
    ParseComplete(TreeLang(u), Mirror(f), [NewLine]);
  }

  /** Append an operator and an operand at the right end of a tree, where the levels put them. */
  function Extend<V>(e: Expr<V>, op: Op, a: Expr<V>): Expr<V> {
    if e.Bin? && op.level < Rank(e) then Bin(e.op, e.l, Extend(e.r, op, a)) else Bin(op, e, a)
  }

  lemma {:induction false} ExtendReads<V>(e: Expr<V>, op: Op, a: Expr<V>)
    requires Tight(e) && Tight(a) && Rank(a) == 0 && InTable(op)
    ensures Tight(Extend(e, op, a)) && Print(Extend(e, op, a)) == Print(e) + [Binop(op)] + Print(a)
    ensures Rank(Extend(e, op, a)) == if e.Bin? && op.level < Rank(e) then Rank(e) else op.level
    decreases e
  {
    if e.Bin? && op.level < Rank(e) {
      ExtendReads(e.r, op, a);
    }
  }

  function Chain<V>(a: Expr<V>, links: seq<(Op, Expr<V>)>): seq<Token<V>> {
    if links == [] then Print(a)
    else Chain(a, links[..|links| - 1]) + [Binop(links[|links| - 1].0)] + Print(links[|links| - 1].1)
  }

  predicate Atom<V>(e: Expr<V>) { Rank(e) == 0 && Tight(e) }

  /** Every sequence of operands (or parenthesised expressions) and table operators has a reading. */
  lemma {:induction false} SomeReading<V>(a: Expr<V>, links: seq<(Op, Expr<V>)>) returns (e: Expr<V>)
    requires Atom(a)
    requires forall i :: 0 <= i < |links| ==> InTable(links[i].0) && Atom(links[i].1)
    ensures Tight(e) && Print(e) == Chain(a, links)
    decreases |links|
  {
    if links == [] {
      e := a;
    } else {
      var (op, b) := links[|links| - 1];
      var d := SomeReading(a, links[..|links| - 1]);
      ExtendReads(d, op, b);
      e := Extend(d, op, b);
    }
  }

  // ----- Printing with as few parentheses as the levels allow -----

  predicate InTableTree<V>(e: Expr<V>) {
    match e
    case Lit(_, _) => true
    case Paren(_) => false
    case Bin(op, l, r) => InTable(op) && InTableTree(l) && InTableTree(r)
  }

  function Minimal<V>(e: Expr<V>): Expr<V> {
    match e
    case Bin(op, l, r) =>
      Bin(op, if Rank(l) > op.level then Paren(Minimal(l)) else Minimal(l),
              if Rank(r) >= op.level then Paren(Minimal(r)) else Minimal(r))
    case _ => e
  }

  lemma {:induction false} MinimalReads<V>(L: Lang<V>, e: Expr<V>)
    requires InTableTree(e)
    ensures Tight(Minimal(e)) && Rank(Minimal(e)) == Rank(e)
    ensures Strip(Minimal(e)) == e && Eval(L, Minimal(e)) == Eval(L, e)
    ensures NoLogic(Minimal(e)) == NoLogic(e)
    decreases e
  {
    if e.Bin? {
      MinimalReads(L, e.l);
      MinimalReads(L, e.r);
    }
  }

  /** Any operator tree without `and`/`or`, printed with minimal parentheses, evaluates to its own value. */
  lemma PrintEvaluates<V>(L: Lang<V>, e: Expr<V>, rest: seq<Token<V>>)
    requires InTableTree(e) && NoLogic(e) && !Head(rest).Binop? && Inert(Head(rest))
    ensures AnyError(ParseExpr(L, Print(Minimal(e)) + rest))
            == if Eval(L, e).Some? then Ok(Eval(L, e).value, rest) else Err(OperatorFailed)
  {
    MinimalReads(L, e);
    Precedence(L, Minimal(e), rest);
  }
}
