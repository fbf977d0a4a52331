/** What the token-driven evaluator of `LExpr` means on expression trees. */
module LExprTrees {
  import opened LExpr

  datatype Expr<V> = Lit(v: V, word: Word) | Bin(op: Op, l: Expr<V>, r: Expr<V>) | Paren(e: Expr<V>)

  function Print<V>(e: Expr<V>): (ts: seq<Token<V>>)
    ensures |ts| > 0
  {
    match e
    case Lit(v, word) => [Operand(v, word)]
    case Bin(op, l, r) => Print(l) + [Binop(op)] + Print(r)
    case Paren(e') => [ParenOpen] + Print(e') + [ParenClose]
  }

  function Rank<V>(e: Expr<V>): nat {
    if e.Bin? then e.op.level else 0
  }

  predicate IsLogic(op: Op) { !op.word.Other? }

  /** The operator table: levels 1 to 5, and exactly the level-5 operators are `and` and `or`. */
  predicate InTable(op: Op) {
    1 <= op.level <= MAX_EXPR_LEVEL && (op.level == MAX_EXPR_LEVEL <==> IsLogic(op))
  }

  /** The tree structure the levels prescribe: lower levels bind tighter, equal levels to the left. */
  predicate Tight<V>(e: Expr<V>) {
    match e
    case Lit(_, _) => true
    case Bin(op, l, r) => InTable(op) && Tight(l) && Tight(r) && Rank(l) <= op.level && Rank(r) < op.level
    case Paren(e') => Tight(e')
  }

  /** No `and`/`or` is followed directly by an opening parenthesis. */
  predicate BareOperands<V>(e: Expr<V>) {
    match e
    case Lit(_, _) => true
    case Bin(op, l, r) => BareOperands(l) && BareOperands(r) && (IsLogic(op) ==> Print(r)[0] != ParenOpen)
    case Paren(e') => BareOperands(e')
  }

  predicate NoLogic<V>(e: Expr<V>) {
    match e
    case Lit(_, _) => true
    case Bin(op, l, r) => NoLogic(l) && NoLogic(r) && !IsLogic(op)
    case Paren(e') => NoLogic(e')
  }

  /** Plain evaluation of a tree, every operand included. */
  function Eval<V>(L: Lang<V>, e: Expr<V>): Option<V> {
    match e
    case Lit(v, _) => Some(v)
    case Paren(e') => Eval(L, e')
    case Bin(op, l, r) =>
      var x := Eval(L, l);
      if x.None? then None else
      var y := Eval(L, r);
      if y.None? then None else
      var a := L.apply(op, x.value, y.value);
      if a.ok then Some(a.value) else None
  }

  /** Evaluation with short circuit: `Stop` means that a comparison was decided by the text after it, and
      that a skip begins there; `Ended` that such a skip has come to the end of the expression. */
  datatype Outcome<V> = Val(v: V) | Stop(v: V) | Ended(v: V) | Fail

  /** `next` is the token that follows the expression. */
  function Value<V>(L: Lang<V>, e: Expr<V>, next: Token<V>): (out: Outcome<V>)
    ensures out.Ended? ==> !next.Binop?
  {
    match e
    case Lit(v, _) => Val(v)
    case Paren(e') =>
      (match Value(L, e', ParenClose)
       case Fail => Fail
       case Val(v) => Val(v)
       case Stop(v) => Val(v)
       case Ended(v) => Val(v))
    case Bin(op, l, r) =>
      match Value(L, l, Binop(op))
      case Fail => Fail
      case Stop(v) => if next.Binop? then Stop(v) else Ended(v)
      case Val(x) =>
        match Value(L, r, next)
        case Fail => Fail
        case Stop(y) =>
          var a := L.apply(op, x, y);
          if a.ok then Stop(a.value) else Fail
        case Ended(_) => Fail
        case Val(y) =>
          var a := L.apply(op, x, y);
          if op.level == COMPARISON_LEVEL && Decides(L, a.value, next) then
            Stop(if L.truthy(a.value) then L.yes else L.no)
          else if a.ok then Val(a.value) else Fail
  }

  /** Whenever a chain ends early, the operand after the deciding operator does not open a parenthesis. */
  predicate SafeSkips<V>(L: Lang<V>, e: Expr<V>, next: Token<V>) {
    match e
    case Lit(_, _) => true
    case Paren(e') => SafeSkips(L, e', ParenClose)
    case Bin(op, l, r) =>
      && SafeSkips(L, l, Binop(op)) && SafeSkips(L, r, next)
      && (Value(L, l, Binop(op)).Stop? ==> Print(r)[0] != ParenOpen)
  }

  /** The tokens on which `l_consume_binop` stops when no bracket is open. */
  predicate IsTerminator<V>(t: Token<V>) {
    t.ParenClose? || t.IndexClose? || t.Block? || t.Then? || t.NewLine? || t.Semicolon?
  }

  predicate LogicHead<V>(rest: seq<Token<V>>) {
    Head(rest).Binop? && IsLogic(Head(rest).op)
  }

  // ----- What the skipping loop does on balanced text -----

  /** The last token of a printed tree. */
  function Final<V>(e: Expr<V>): (t: Token<V>)
    ensures t.Operand? || t.ParenClose?
  {
    match e
    case Lit(v, word) => Operand(v, word)
    case Bin(_, _, r) => Final(r)
    case Paren(_) => ParenClose
  }

  lemma ScanHops<V>(i: nat, p: nat, f: nat, x: Token<V>, y: Token<V>, rest: seq<Token<V>>)
    ensures y.Operand? || y.Binop? ==> Scan(i, p, f, [x] + ([y] + rest)) == Scan(i, p, f, [y] + rest)
    ensures y.ParenOpen? ==> Scan(i, p, f, [x] + ([y] + rest)) == Scan(i, p + 1, f, [y] + rest)
    ensures y.ParenClose? && p > 0 ==> Scan(i, p, f, [x] + ([y] + rest)) == Scan(i, p - 1, f, [y] + rest)
  {
    assert Tail([x] + ([y] + rest)) == [y] + rest;
  }

  lemma Regroup<V>(a: seq<Token<V>>, b: seq<Token<V>>, c: seq<Token<V>>, d: seq<Token<V>>)
    ensures (a + b + c) + d == a + (b + (c + d))
  {
  }

  /** Over a printed tree the scan only moves: brackets balance and nothing inside stops it. */
  lemma {:induction false} ScanOver<V>(i: nat, p: nat, f: nat, x: Token<V>, e: Expr<V>, rest: seq<Token<V>>)
    ensures Scan(i, p, f, [x] + (Print(e) + rest)) == Scan(i, p, f, [Final(e)] + rest)
    decreases e
  {
    match e
    case Lit(v, word) =>
      ScanHops(i, p, f, x, Operand(v, word), rest);
    case Bin(op, l, r) =>
      Regroup(Print(l), [Binop(op)], Print(r), rest);
      ScanOver(i, p, f, x, l, [Binop(op)] + (Print(r) + rest));
      ScanHops(i, p, f, Final(l), Binop(op), Print(r) + rest);
      ScanOver(i, p, f, Binop(op), r, rest);
    case Paren(e') =>
      Regroup([ParenOpen], Print(e'), [ParenClose], rest);
      ScanHops(i, p, f, x, ParenOpen, Print(e') + ([ParenClose] + rest));
      ScanOver(i, p + 1, f, ParenOpen, e', [ParenClose] + rest);
      ScanHops(i, p + 1, f, Final(e'), ParenClose, rest);
  }

  /** Skipping an operand of `and`/`or` reaches the end of the chain, or acts as the next skip would. */
  lemma ConsumeSkips<V>(op: Op, r: Expr<V>, rest: seq<Token<V>>)
    requires Print(r)[0] != ParenOpen
    requires LogicHead(rest) ==> Head(Tail(rest)).Operand?
    ensures IsTerminator(Head(rest)) ==> Consume([Binop(op)] + Print(r) + rest) == Some(rest)
    ensures LogicHead(rest) ==> Consume([Binop(op)] + Print(r) + rest) == Consume(rest)
  {
    SkipIsScan(op, r, rest);
    ScanLast(Final(r), rest);
  }

  /** The skip of an operand without a parenthesis in front goes on after its last token. */
  lemma SkipIsScan<V>(op: Op, r: Expr<V>, rest: seq<Token<V>>)
    requires Print(r)[0] != ParenOpen
    ensures Consume([Binop(op)] + Print(r) + rest) == Scan(0, 0, 0, [Final(r)] + rest)
  {
    FirstToken(r);
    var any := [NewLine] + (Print(r) + rest);
    assert Tail([Binop(op)] + Print(r) + rest) == Print(r) + rest == Tail(any);
    ScanPasses(any);
    ScanOver(0, 0, 0, NewLine, r, rest);
  }

  lemma ScanPasses<V>(ts: seq<Token<V>>)
    requires |ts| > 0 && Head(Tail(ts)).Operand?
    ensures Scan(0, 0, 0, ts) == Scan(0, 0, 0, Tail(ts))
  {
  }

  lemma ScanLast<V>(last: Token<V>, rest: seq<Token<V>>)
    requires !last.Binop?
    ensures IsTerminator(Head(rest)) ==> Scan(0, 0, 0, [last] + rest) == Some(rest)
    ensures LogicHead(rest) && Head(Tail(rest)).Operand? ==> Scan(0, 0, 0, [last] + rest) == Consume(rest)
  {
    assert Tail([last] + rest) == rest;
  }

  lemma {:induction false} FirstToken<V>(e: Expr<V>)
    ensures Print(e)[0].Operand? || Print(e)[0].ParenOpen?
  {
    if e.Bin? { FirstToken(e.l); }
  }

  // ----- The loops compose -----

  function AndThen<V>(L: Lang<V>, max: nat, p: Parsed<V>): Parsed<V> {
    if p.Err? then p else Level(L, max, p.value, p.rest)
  }

  /** Folding the tighter operators first and the rest afterwards is one fold. */
  lemma {:induction false} LevelComposes<V>(L: Lang<V>, k: nat, max: nat, v: V, ts: seq<Token<V>>)
    requires k <= max
    ensures Level(L, max, v, ts) == AndThen(L, max, Level(L, k, v, ts))
    decreases |ts|
  {
    if IsBinop(Head(ts), k) {
      var op := Head(ts).op;
      var p := Primary(L, Tail(ts));
      if p.Ok? {
        var q := Climb(L, op.level, p.value, p.rest);
        if q.Ok? {
          var a := L.apply(op, v, q.value);
          LevelComposes(L, k, max, a.value, q.rest);
        }
      }
    }
  }

  /** The inner loop of `l_parse_expr_level` is a call with the next tighter level. */
  lemma {:induction false} ClimbIsLevel<V>(L: Lang<V>, level: nat, v: V, ts: seq<Token<V>>)
    requires level > 0
    ensures Climb(L, level, v, ts) == Level(L, level - 1, v, ts)
    decreases |ts|
  {
    if Head(ts).Binop? && Head(ts).op.level < level {
      var k := Head(ts).op.level;
      LevelComposes(L, k, level - 1, v, ts);
      var p := Level(L, k, v, ts);
      if p.Ok? { ClimbIsLevel(L, level, p.value, p.rest); }
    }
  }

  // ----- Parsing a printed tree -----

  /** How the loops go on after a tree with the given outcome. */
  function Continue<V>(L: Lang<V>, max: nat, out: Outcome<V>, rest: seq<Token<V>>): Parsed<V> {
    match out
    case Fail => Err(OperatorFailed)
    case Val(v) => AnyError(Level(L, max, v, rest))
    case Stop(v) => if Consume(rest).None? then Err(OperatorFailed) else Ok(v, Consume(rest).value)
    case Ended(v) => Ok(v, rest)
  }

  /** Results compared without telling errors apart. */
  function AnyError<V>(p: Parsed<V>): Parsed<V> {
    if p.Err? then Err(OperatorFailed) else p
  }

  /** What may follow a tree: no operator that would bind into it, a terminator after a chain, and
      after a chain that ends early an operand that can be skipped. */
  predicate Follows<V>(L: Lang<V>, e: Expr<V>, rest: seq<Token<V>>) {
    && (Head(rest).Binop? ==> Head(rest).op.level >= Rank(e))
    && (Rank(e) == MAX_EXPR_LEVEL ==> LogicHead(rest) || IsTerminator(Head(rest)))
    && (Rank(e) == MAX_EXPR_LEVEL && Value(L, e, Head(rest)).Stop? && LogicHead(rest) ==>
          Head(Tail(rest)).Operand?)
  }

  /** The evaluator on a printed tree gives the tree's value and stops right after it, whatever
      operator loops (`max`) are still open around it. */
  lemma {:induction false} ParseTree<V>(L: Lang<V>, max: nat, e: Expr<V>, rest: seq<Token<V>>)
    requires Tight(e) && SafeSkips(L, e, Head(rest)) && Rank(e) <= max && Follows(L, e, rest)
    ensures AnyError(ExprAt(L, max, Print(e) + rest)) == Continue(L, max, Value(L, e, Head(rest)), rest)
    decreases e, 1
  {
    var ts := Print(e) + rest;
    match e
    case Lit(v, _) =>
      assert Tail(ts) == rest;
    case Paren(e') =>
      var after := [ParenClose] + rest;
      assert Tail(ts) == Print(e') + after;
      assert Tail(after) == rest;
      ParseTree(L, MAX_EXPR_LEVEL, e', after);
      InertNeverStops(L, e', ParenClose);
      var p := ParseExpr(L, Tail(ts));
      assert AnyError(p) == match Value(L, e', ParenClose)
                            case Val(v) => Ok(v, after)
                            case Ended(v) => Ok(v, after)
                            case _ => Err(OperatorFailed);
    case Bin(op, l, r) =>
      ParseBin(L, max, e, rest);
  }

  lemma {:induction false} ParseBin<V>(L: Lang<V>, max: nat, e: Expr<V>, rest: seq<Token<V>>)
    requires e.Bin? && Tight(e) && SafeSkips(L, e, Head(rest)) && Rank(e) <= max && Follows(L, e, rest)
    ensures AnyError(ExprAt(L, max, Print(e) + rest)) == Continue(L, max, Value(L, e, Head(rest)), rest)
    decreases e, 0
  {
    var Bin(op, l, r) := e;
    var after := [Binop(op)] + (Print(r) + rest);
    LeftFollows(L, e, rest);
    ParseTree(L, max, l, after);
    match Value(L, l, Binop(op))
    case Fail =>
    case Stop(v) => StopOutcome(L, max, e, rest);
    case Val(x) =>
      ParseTree(L, op.level - 1, r, rest);
      ApplyOutcome(L, max, x, e, Print(r) + rest, rest);
  }

  /** What follows the left operand is the operator and the right operand. */
  lemma LeftFollows<V>(L: Lang<V>, e: Expr<V>, rest: seq<Token<V>>)
    requires e.Bin? && Tight(e) && SafeSkips(L, e, Head(rest)) && Follows(L, e, rest)
    ensures var after := [Binop(e.op)] + (Print(e.r) + rest);
            && Print(e) + rest == Print(e.l) + after && Head(after) == Binop(e.op)
            && Follows(L, e.l, after)
  {
    var after := [Binop(e.op)] + (Print(e.r) + rest);
    Regroup(Print(e.l), [Binop(e.op)], Print(e.r), rest);
    assert Tail(after) == Print(e.r) + rest;
    FirstToken(e.r);
  }

  /** A chain that ends early skips the right operand. */
  lemma StopOutcome<V>(L: Lang<V>, max: nat, e: Expr<V>, rest: seq<Token<V>>)
    requires e.Bin? && Tight(e) && SafeSkips(L, e, Head(rest)) && Rank(e) <= max && Follows(L, e, rest)
    requires Value(L, e.l, Binop(e.op)).Stop?
    ensures Continue(L, max, Value(L, e.l, Binop(e.op)), [Binop(e.op)] + (Print(e.r) + rest))
         == Continue(L, max, Value(L, e, Head(rest)), rest)
  {
    StopsAtTop(L, e);
    assert [Binop(e.op)] + (Print(e.r) + rest) == [Binop(e.op)] + Print(e.r) + rest;
    ConsumeSkips(e.op, e.r, rest);
  }

  /** One turn of the loop, with its inner loop read as a tighter expression. */
  lemma LevelStep<V>(L: Lang<V>, max: nat, x: V, op: Op, ts: seq<Token<V>>)
    requires 0 < op.level <= max
    ensures var after := [Binop(op)] + ts;
            var q := ExprAt(L, op.level - 1, ts);
            Level(L, max, x, after) == if q.Err? then q else Apply(L, max, op, x, q.value, q.rest, |after|)
  {
    var after := [Binop(op)] + ts;
    assert Tail(after) == ts;
    var p := Primary(L, ts);
    if p.Ok? { ClimbIsLevel(L, op.level, p.value, p.rest); }
  }

  /** The same turn when the right operand is a tree, however `ts` lays it out. */
  lemma ApplyOutcome<V>(L: Lang<V>, max: nat, x: V, e: Expr<V>, ts: seq<Token<V>>, rest: seq<Token<V>>)
    requires e.Bin? && Tight(e) && Rank(e) <= max && (Head(rest).Binop? ==> Head(rest).op.level >= Rank(e))
    requires Value(L, e.l, Binop(e.op)) == Val(x)
    requires AnyError(ExprAt(L, e.op.level - 1, ts))
             == Continue(L, e.op.level - 1, Value(L, e.r, Head(rest)), rest)
    ensures AnyError(Level(L, max, x, [Binop(e.op)] + ts)) == Continue(L, max, Value(L, e, Head(rest)), rest)
  {
    var op := e.op;
    LevelStep(L, max, x, op, ts);
    match Value(L, e.r, Head(rest)) {
      case Fail =>
      case Val(y) =>
        assert Level(L, op.level - 1, y, rest) == Ok(y, rest);
      case Stop(y) =>
        StopsOnlyBeforeWords(L, e.r, Head(rest));
        assert op.level == MAX_EXPR_LEVEL;
      case Ended(y) =>
        EndsAtTop(L, e.r, Head(rest));
        assert false;
    }
  }

  /** A skip that begins inside an operand begins at a text that reads `and` or `or`. */
  lemma {:induction false} StopsOnlyBeforeWords<V>(L: Lang<V>, e: Expr<V>, next: Token<V>)
    requires Tight(e) && Rank(e) < MAX_EXPR_LEVEL
    ensures Value(L, e, next).Stop? ==> Rank(e) == COMPARISON_LEVEL && !Inert(next)
    decreases e
  {
    if e.Bin? {
      StopsOnlyBeforeWords(L, e.l, Binop(e.op));
      StopsOnlyBeforeWords(L, e.r, next);
    }
  }

  lemma StopsAtTop<V>(L: Lang<V>, e: Expr<V>)
    requires e.Bin? && Tight(e) && Value(L, e.l, Binop(e.op)).Stop?
    ensures Rank(e) == MAX_EXPR_LEVEL && IsLogic(e.op)
  {
    if Rank(e.l) < MAX_EXPR_LEVEL { StopsOnlyBeforeWords(L, e.l, Binop(e.op)); }
  }

  lemma {:induction false} EndsAtTop<V>(L: Lang<V>, e: Expr<V>, next: Token<V>)
    requires Tight(e) && Value(L, e, next).Ended?
    ensures Rank(e) == MAX_EXPR_LEVEL
    decreases e
  {
    if Value(L, e.l, Binop(e.op)).Stop? { StopsAtTop(L, e); }
  }

  /** Nothing is skipped from a token on whose text decides nothing. */
  lemma {:induction false} InertNeverStops<V>(L: Lang<V>, e: Expr<V>, next: Token<V>)
    requires Tight(e) && Inert(next) && !next.Binop?
    ensures !Value(L, e, next).Stop?
    decreases e
  {
    if e.Bin? { InertNeverStops(L, e.r, next); }
  }
}
