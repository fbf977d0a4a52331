/** Tokens, operators and the expression evaluator of the L interpreter.

    L has no syntax tree: `l_parse_expr_level` evaluates while it reads tokens.  The functions here
    give the value and the remaining tokens of each routine; the class `Evaluator` is the routine
    itself, with its loops and its moving parse pointer.  Values and operators are kept opaque: a
    `Lang` supplies them. */
module LExpr {

  /** The beginning of a text as the short-circuit test reads it: `and`/`&&`, `or`/`||`, or anything else. */
  datatype Word = And(spelling: nat) | Or(spelling: nat) | Other(id: nat)

  datatype Op = Op(level: nat, word: Word)

  const MAX_EXPR_LEVEL: nat := 5
  const COMPARISON_LEVEL: nat := 4

  /** An operand and a block have a text of their own: a name or a literal, and the body of the block. */
  datatype Token<V> =
    | Operand(v: V, word: Word)
    | Binop(op: Op)
    | ParenOpen | ParenClose
    | IndexOpen | IndexClose
    | If | Then | Orelse
    | Block(word: Word)
    | NewLine | Semicolon | Comma
    | EndOfInput

  /** The result of an operator function: a value, and whether it left `CFuncError` clear. */
  datatype Applied<V> = Applied(value: V, ok: bool)

  /** Operator meanings, the truth test `AS_INT(v) != 0`, the two constants the short circuit stores,
      and the stale value left in a result slot when an operand is missing at the end of input. */
  datatype Lang<!V> = Lang(apply: (Op, V, V) -> Applied<V>, truthy: V -> bool, yes: V, no: V, unset: V)

  datatype Error = UnknownToken | OperandAwaited | OperatorFailed

  datatype Parsed<V> = Ok(value: V, rest: seq<Token<V>>) | Err(error: Error)

  datatype Option<T> = None | Some(value: T)

  /** The current token; past the end the scanner keeps answering end-of-input. */
  function Head<V>(ts: seq<Token<V>>): Token<V> {
    if |ts| == 0 then EndOfInput else ts[0]
  }

  function Tail<V>(ts: seq<Token<V>>): seq<Token<V>> {
    if |ts| == 0 then [] else ts[1..]
  }

  predicate IsBinop<V>(t: Token<V>, max: nat) {
    t.Binop? && t.op.level <= max
  }

  /** How the text of a token begins; the keyword `orelse` passes for `or`. */
  function TextWord<V>(t: Token<V>): Word {
    match t
    case Operand(_, word) => word
    case Binop(op) => op.word
    case Block(word) => word
    case Orelse => Or(0)
    case _ => Other(0)
  }

  predicate Inert<V>(t: Token<V>) { TextWord(t).Other? }

  /** The test made after a comparison on the text of whatever token comes next: a false one before `and`,
      a true one before `or`. */
  predicate Decides<V>(L: Lang<V>, v: V, t: Token<V>) {
    if L.truthy(v) then TextWord(t).Or? else TextWord(t).And?
  }

  /** `l_consume_binop` from its label `next`: the head is the token before the one examined.
      The result is the token sequence it stops on. */
  function Scan<V>(index: nat, paren: nat, ifs: nat, ts: seq<Token<V>>): (r: Option<seq<Token<V>>>)
    ensures r.Some? ==> |r.value| < |ts| && !Head(r.value).Binop?
    decreases |ts|
  {
    if |ts| == 0 then None else
    var afterOp := Head(ts).Binop?;
    var u := Tail(ts);
    match Head(u)
    case IndexOpen => Scan(index + 1, paren, ifs, u)
    case ParenOpen => Scan(index, paren + 1, ifs, u)
    case If => Scan(index, paren, ifs + 1, u)
    case IndexClose =>
      if index > 0 then Scan(index - 1, paren, ifs, u)
      else if paren > 0 then Scan(index, paren - 1, ifs, u)
      else if afterOp then Scan(index, paren, ifs, u) else Some(u)
    case ParenClose =>
      if paren > 0 then Scan(index, paren - 1, ifs, u)
      else if afterOp then Scan(index, paren, ifs, u) else Some(u)
    case Block(_) => if afterOp then Scan(index, paren, ifs, u) else Some(u)
    case Then =>
      if ifs > 0 then Scan(index, paren, ifs - 1, u)
      else if afterOp then Scan(index, paren, ifs, u) else Some(u)
    case NewLine => if afterOp then Scan(index, paren, ifs, u) else Some(u)
    case Semicolon => Some(u)
    case EndOfInput => None
    case _ => Scan(index, paren, ifs, u)
  }

  /** `l_consume_binop`, called with the deciding `and`/`or` as the current token. */
  function Consume<V>(ts: seq<Token<V>>): (r: Option<seq<Token<V>>>)
    ensures r.Some? ==> |r.value| < |ts| && !Head(r.value).Binop?
  {
    Scan(0, 0, 0, Tail(ts))
  }

  /** `l_parse_primary` on the tokens modelled here.  A missing `)` is not an error. */
  function Primary<V>(L: Lang<V>, ts: seq<Token<V>>): (r: Parsed<V>)
    ensures r.Ok? ==> |r.rest| <= |ts|
    decreases |ts|, 0
  {
    match Head(ts)
    case Operand(v, _) => Ok(v, Tail(ts))
    case ParenOpen =>
      var p := ParseExpr(L, Tail(ts));
      if p.Ok? && Head(p.rest) == ParenClose then Ok(p.value, Tail(p.rest)) else p
    case NewLine => Primary(L, Tail(ts))
    case EndOfInput => Ok(L.unset, ts)
    case _ => Err(UnknownToken)
  }

  /** `l_parse_expr_level`: fold operators of level at most `max` into `lhs`. */
  function Level<V>(L: Lang<V>, max: nat, lhs: V, ts: seq<Token<V>>): (r: Parsed<V>)
    ensures r.Ok? ==> |r.rest| <= |ts| && !IsBinop(Head(r.rest), max)
    ensures r.Ok? && IsBinop(Head(ts), max) ==> |r.rest| < |ts|
    decreases |ts|, 1
  {
    if !IsBinop(Head(ts), max) then Ok(lhs, ts)
    else
      var op := Head(ts).op;
      var p := Primary(L, Tail(ts));
      if p.Err? then p else
      var q := Climb(L, op.level, p.value, p.rest);
      if q.Err? then q else
      Apply(L, max, op, lhs, q.value, q.rest, |ts|)
  }

  /** The part of the loop after both operands are known: apply, test for a short circuit, go on. */
  function Apply<V>(L: Lang<V>, max: nat, op: Op, lhs: V, rhs: V, ts: seq<Token<V>>, bound: nat): (r: Parsed<V>)
    requires |ts| < bound
    ensures r.Ok? ==> |r.rest| <= |ts| && !IsBinop(Head(r.rest), max)
    decreases bound, 0
  {
    var a := L.apply(op, lhs, rhs);
    if op.level == COMPARISON_LEVEL && Decides(L, a.value, Head(ts)) then
      match Consume(ts)
      case None => Err(OperandAwaited)
      case Some(u) => Ok(if L.truthy(a.value) then L.yes else L.no, u)
    else if !a.ok then Err(OperatorFailed)
    else Level(L, max, a.value, ts)
  }

  /** The inner loop: while the next operator binds tighter than `level`, give it `rhs`. */
  function Climb<V>(L: Lang<V>, level: nat, rhs: V, ts: seq<Token<V>>): (r: Parsed<V>)
    ensures r.Ok? ==> |r.rest| <= |ts|
    decreases |ts|, 2
  {
    if Head(ts).Binop? && Head(ts).op.level < level then
      var p := Level(L, Head(ts).op.level, rhs, ts);
      if p.Err? then p else Climb(L, level, p.value, p.rest)
    else Ok(rhs, ts)
  }

  /** `l_parse_expr`. */
  function ParseExpr<V>(L: Lang<V>, ts: seq<Token<V>>): (r: Parsed<V>)
    ensures r.Ok? ==> |r.rest| <= |ts|
    decreases |ts|, 3
  {
    ExprAt(L, MAX_EXPR_LEVEL, ts)
  }

  /** A primary followed by the operators of level at most `max`. */
  function ExprAt<V>(L: Lang<V>, max: nat, ts: seq<Token<V>>): (r: Parsed<V>)
    ensures r.Ok? ==> |r.rest| <= |ts| && !IsBinop(Head(r.rest), max)
    decreases |ts|, 2
  {
    var p := Primary(L, ts);
    if p.Err? then p else Level(L, max, p.value, p.rest)
  }

  datatype Result<V> = Success(value: V) | Failure(error: Error)

  /** The routine returned what the function says, and stopped where the function says. */
  predicate Agrees<V(==)>(r: Result<V>, rest: seq<Token<V>>, p: Parsed<V>) {
    match p
    case Ok(v, u) => r == Success(v) && rest == u
    case Err(e) => r == Failure(e)
  }

  /** The evaluator proper.  `rest` is the token under the cursor followed by the unread text. */
  class Evaluator<V(==)> {
    const lang: Lang<V>
    var rest: seq<Token<V>>

    constructor (lang: Lang<V>, text: seq<Token<V>>)
      ensures this.lang == lang && rest == text
    {
      this.lang := lang;
      rest := text;
    }

    method NextToken()
      modifies this
      ensures rest == Tail(old(rest))
    {
      rest := Tail(rest);
    }

    method ConsumeBinop() returns (ok: bool)
      modifies this
      ensures ok == Consume(old(rest)).Some?
      ensures ok ==> rest == Consume(old(rest)).value
      ensures |rest| <= |old(rest)|
    {
      var indexOpen, parenOpen, ifs: nat := 0, 0, 0;
      NextToken();
      while true
        invariant Consume(old(rest)) == Scan(indexOpen, parenOpen, ifs, rest)
        invariant |rest| <= |old(rest)|
        decreases |rest|
      {
        if |rest| == 0 { return false; }
        var afterOp := Head(rest).Binop?;
        NextToken();
        match Head(rest) {
          case IndexOpen => indexOpen := indexOpen + 1;
          case ParenOpen => parenOpen := parenOpen + 1;
          case If => ifs := ifs + 1;
          case IndexClose | ParenClose | Block(_) =>
            if Head(rest) == IndexClose && indexOpen > 0 {
              indexOpen := indexOpen - 1;
            } else if !Head(rest).Block? && parenOpen > 0 {
              parenOpen := parenOpen - 1;
            } else if !afterOp {
              return true;
            }
          case Then =>
            if ifs > 0 {
              ifs := ifs - 1;
            } else if !afterOp {
              return true;
            }
          case NewLine =>
            if !afterOp { return true; }
          case Semicolon => return true;
          case EndOfInput => return false;
          case _ =>
        }
      }
    }

    method ParsePrimary() returns (r: Result<V>)
      modifies this
      ensures Agrees(r, rest, Primary(lang, old(rest)))
      ensures |rest| <= |old(rest)|
      decreases |rest|, 0
    {
      match Head(rest) {
        case Operand(v, _) =>
          NextToken();
          return Success(v);
        case ParenOpen =>
          NextToken();
          r := ParseExpression();
          if r.Success? && Head(rest) == ParenClose { NextToken(); }
        case NewLine =>
          NextToken();
          r := ParsePrimary();
        case EndOfInput =>
          return Success(lang.unset);
        case _ =>
          return Failure(UnknownToken);
      }
    }

    method ParseExprLevel(max: nat, vp: V) returns (r: Result<V>)
      modifies this
      ensures Agrees(r, rest, Level(lang, max, vp, old(rest)))
      ensures |rest| <= |old(rest)|
      ensures r.Success? && IsBinop(Head(old(rest)), max) ==> |rest| < |old(rest)|
      decreases |rest|, 1
    {
      var lhs := vp;
      while IsBinop(Head(rest), max)
        invariant Level(lang, max, vp, old(rest)) == Level(lang, max, lhs, rest)
        invariant |rest| <= |old(rest)|
        invariant rest == old(rest) || |rest| < |old(rest)|
        decreases |rest|
      {
        ghost var before := rest;
        var op := Head(rest).op;
        NextToken();
        r := ParsePrimary();
        if r.Failure? { return; }
        var rhs := r.value;
        ghost var climbFrom, climbRest := rhs, rest;
        while Head(rest).Binop? && Head(rest).op.level < op.level
          invariant Climb(lang, op.level, climbFrom, climbRest) == Climb(lang, op.level, rhs, rest)
          invariant |rest| < |before|
          decreases |rest|
        {
          r := ParseExprLevel(Head(rest).op.level, rhs);
          if r.Failure? { return; }
          rhs := r.value;
        }
        var a := lang.apply(op, lhs, rhs);
        if op.level == COMPARISON_LEVEL && Decides(lang, a.value, Head(rest)) {
          var ok := ConsumeBinop();
          if !ok { return Failure(OperandAwaited); }
          return Success(if lang.truthy(a.value) then lang.yes else lang.no);
        }
        if !a.ok { return Failure(OperatorFailed); }
        lhs := a.value;
      }
      return Success(lhs);
    }

    method ParseExpression() returns (r: Result<V>)
      modifies this
      ensures Agrees(r, rest, ParseExpr(lang, old(rest)))
      ensures |rest| <= |old(rest)|
      decreases |rest|, 2
    {
      r := ParsePrimary();
      if r.Success? {
        r := ParseExprLevel(MAX_EXPR_LEVEL, r.value);
      }
    }
  }
}
