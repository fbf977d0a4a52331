/** Expressions over several lines: newlines before operands, and what a skip passes over. */
module LExprLayout {
  import opened LExpr
  import opened LExprTrees
  import opened LExprLaws

  // ----- Text that a skip may meet -----

  /** Single tokens, tokens at which a skip may end, and balanced brackets, indices and conditions. */
  datatype Part<V> = Word(t: Token<V>) | Edge(t: Token<V>)
                   | Round(ps: Parts<V>) | Square(ps: Parts<V>) | Cond(ps: Parts<V>)

  datatype Parts<V> = Empty | Cons(head: Part<V>, tail: Parts<V>)

  function Text<V>(ps: Parts<V>): seq<Token<V>> {
    match ps
    case Empty => []
    case Cons(head, tail) => PartText(head) + Text(tail)
  }

  function PartText<V>(p: Part<V>): seq<Token<V>> {
    match p
    case Word(t) => [t]
    case Edge(t) => [t]
    case Round(ps) => [ParenOpen] + (Text(ps) + [ParenClose])
    case Square(ps) => [IndexOpen] + (Text(ps) + [IndexClose])
    case Cond(ps) => [If] + (Text(ps) + [Then])
  }

  predicate Good<V>(ps: Parts<V>) {
    match ps
    case Empty => true
    case Cons(head, tail) =>
      && Good(tail)
      && match head
         case Word(t) => t.Operand? || t.Binop? || t.Comma? || t.Orelse?
         case Edge(t) => t.NewLine? || t.Block? || t.Semicolon?
         case Round(qs) => Good(qs)
         case Square(qs) => Good(qs)
         case Cond(qs) => Good(qs)
  }

  /** The last token of a part, and of a text that comes after the token `x`. */
  function PartLast<V>(p: Part<V>): Token<V> {
    match p
    case Word(t) => t
    case Edge(t) => t
    case Round(_) => ParenClose
    case Square(_) => IndexClose
    case Cond(_) => Then
  }

  function Last<V>(x: Token<V>, ps: Parts<V>): Token<V>
    decreases ps
  {
    match ps
    case Empty => x
    case Cons(head, tail) => Last(PartLast(head), tail)
  }

  /** After the token `x`, a newline or a block stands nowhere, not even inside brackets, but directly after an
      operator, and a semicolon stands nowhere at all. */
  predicate Clear<V>(x: Token<V>, ps: Parts<V>)
    decreases ps
  {
    match ps
    case Empty => true
    case Cons(head, tail) =>
      && Clear(PartLast(head), tail)
      && match head
         case Word(_) => true
         case Edge(t) => x.Binop? && !t.Semicolon?
         case Round(qs) => Clear(ParenOpen, qs)
         case Square(qs) => Clear(IndexOpen, qs)
         case Cond(qs) => Clear(If, qs)
  }

  lemma Regroup3<V>(a: seq<Token<V>>, b: seq<Token<V>>, c: seq<Token<V>>, d: seq<Token<V>>, e: seq<Token<V>>)
    ensures (a + (b + c)) + d + e == a + (b + (c + (d + e)))
  {
  }

  lemma TailCons<V>(x: Token<V>, y: Token<V>, rest: seq<Token<V>>)
    ensures Tail([x] + ([y] + rest)) == [y] + rest && Head([x] + ([y] + rest)) == x && Head([y] + rest) == y
  {
  }

  /** One token of the scan, by its kind. */
  lemma ScanOne<V>(i: nat, p: nat, f: nat, x: Token<V>, y: Token<V>, rest: seq<Token<V>>)
    ensures y.Operand? || y.Binop? || y.Comma? || y.Orelse? ==>
      Scan(i, p, f, [x] + ([y] + rest)) == Scan(i, p, f, [y] + rest)
    ensures y.ParenOpen? ==> Scan(i, p, f, [x] + ([y] + rest)) == Scan(i, p + 1, f, [y] + rest)
    ensures y.IndexOpen? ==> Scan(i, p, f, [x] + ([y] + rest)) == Scan(i + 1, p, f, [y] + rest)
    ensures y.If? ==> Scan(i, p, f, [x] + ([y] + rest)) == Scan(i, p, f + 1, [y] + rest)
    ensures y.NewLine? || y.Block? ==>
      Scan(i, p, f, [x] + ([y] + rest)) == if x.Binop? then Scan(i, p, f, [y] + rest) else Some([y] + rest)
    ensures y.Semicolon? ==> Scan(i, p, f, [x] + ([y] + rest)) == Some([y] + rest)
  {
    TailCons(x, y, rest);
  }

  /** A closing token, with its counter above zero or with no counter to take it. */
  lemma ScanClose<V>(i: nat, p: nat, f: nat, x: Token<V>, y: Token<V>, rest: seq<Token<V>>)
    ensures y.ParenClose? && p > 0 ==> Scan(i, p, f, [x] + ([y] + rest)) == Scan(i, p - 1, f, [y] + rest)
    ensures y.IndexClose? && i > 0 ==> Scan(i, p, f, [x] + ([y] + rest)) == Scan(i - 1, p, f, [y] + rest)
    ensures y.Then? && f > 0 ==> Scan(i, p, f, [x] + ([y] + rest)) == Scan(i, p, f - 1, [y] + rest)
    ensures !x.Binop? && i == p == f == 0 && (y.ParenClose? || y.IndexClose? || y.Then?) ==>
      Scan(i, p, f, [x] + ([y] + rest)) == Some([y] + rest)
  {
    TailCons(x, y, rest);
  }

  /** A scan passes over a text to its end exactly when the text is clear; else it ends inside. */
  ghost predicate Passes<V>(i: nat, p: nat, f: nat, x: Token<V>, ps: Parts<V>, rest: seq<Token<V>>) {
    var r := Scan(i, p, f, [x] + (Text(ps) + rest));
    if Clear(x, ps) then r == Scan(i, p, f, [Last(x, ps)] + rest) else r.Some? && |r.value| > |rest|
  }

  lemma {:induction false} ScanText<V>(i: nat, p: nat, f: nat, x: Token<V>, ps: Parts<V>, rest: seq<Token<V>>)
    requires Good(ps)
    ensures Passes(i, p, f, x, ps, rest)
    decreases ps
  {
    match ps
    case Empty => assert [] + rest == rest;
    case Cons(head, tail) =>
      var y := PartLast(head);
      ScanText(i, p, f, y, tail, rest);
      match head {
        case Word(t) => ScanToken(i, p, f, x, ps, rest);
        case Edge(t) => ScanToken(i, p, f, x, ps, rest);
        case Round(qs) => ScanText(i, p + 1, f, ParenOpen, qs, [ParenClose] + (Text(tail) + rest)); ScanRound(i, p, f,
          x, ps, rest);
        case Square(qs) => ScanText(i + 1, p, f, IndexOpen, qs, [IndexClose] + (Text(tail) + rest)); ScanSquare(i, p,
          f, x, ps, rest);
        case Cond(qs) => ScanText(i, p, f + 1, If, qs, [Then] + (Text(tail) + rest)); ScanCond(i, p, f, x, ps, rest);
      }
  }

  lemma ScanToken<V>(i: nat, p: nat, f: nat, x: Token<V>, ps: Parts<V>, rest: seq<Token<V>>)
    requires Good(ps) && ps.Cons? && (ps.head.Word? || ps.head.Edge?)
    requires Passes(i, p, f, ps.head.t, ps.tail, rest)
    ensures Passes(i, p, f, x, ps, rest)
  {
    var t := ps.head.t;
    assert Text(ps) + rest == [t] + (Text(ps.tail) + rest);
    ScanOne(i, p, f, x, t, Text(ps.tail) + rest);
  }

  lemma ScanRound<V>(i: nat, p: nat, f: nat, x: Token<V>, ps: Parts<V>, rest: seq<Token<V>>)
    requires ps.Cons? && ps.head.Round? && Passes(i, p, f, ParenClose, ps.tail, rest)
    requires Passes(i, p + 1, f, ParenOpen, ps.head.ps, [ParenClose] + (Text(ps.tail) + rest))
    ensures Passes(i, p, f, x, ps, rest)
  {
    var qs, more := ps.head.ps, Text(ps.tail) + rest;
    Regroup3([ParenOpen], Text(qs), [ParenClose], Text(ps.tail), rest);
    ScanOne(i, p, f, x, ParenOpen, Text(qs) + ([ParenClose] + more));
    ScanClose(i, p + 1, f, Last(ParenOpen, qs), ParenClose, more);
  }

  lemma ScanSquare<V>(i: nat, p: nat, f: nat, x: Token<V>, ps: Parts<V>, rest: seq<Token<V>>)
    requires ps.Cons? && ps.head.Square? && Passes(i, p, f, IndexClose, ps.tail, rest)
    requires Passes(i + 1, p, f, IndexOpen, ps.head.ps, [IndexClose] + (Text(ps.tail) + rest))
    ensures Passes(i, p, f, x, ps, rest)
  {
    var qs, more := ps.head.ps, Text(ps.tail) + rest;
    Regroup3([IndexOpen], Text(qs), [IndexClose], Text(ps.tail), rest);
    ScanOne(i, p, f, x, IndexOpen, Text(qs) + ([IndexClose] + more));
    ScanClose(i + 1, p, f, Last(IndexOpen, qs), IndexClose, more);
  }

  lemma ScanCond<V>(i: nat, p: nat, f: nat, x: Token<V>, ps: Parts<V>, rest: seq<Token<V>>)
    requires ps.Cons? && ps.head.Cond? && Passes(i, p, f, Then, ps.tail, rest)
    requires Passes(i, p, f + 1, If, ps.head.ps, [Then] + (Text(ps.tail) + rest))
    ensures Passes(i, p, f, x, ps, rest)
  {
    var qs, more := ps.head.ps, Text(ps.tail) + rest;
    Regroup3([If], Text(qs), [Then], Text(ps.tail), rest);
    ScanOne(i, p, f, x, If, Text(qs) + ([Then] + more));
    ScanClose(i, p, f + 1, Last(If, qs), Then, more);
  }

  /** The token after the deciding operator is never examined: if it opens a bracket, the closing one ends the
      skip; if it is a newline, the rest is read as from there. */
  predicate Skippable<V>(ps: Parts<V>) {
    ps.Cons? && (ps.head.Word? || ps.head.Edge?) && Clear(ps.head.t, ps.tail)
  }

  /** The brackets that the unexamined token may open do not close directly after an operator. */
  predicate ClosesOperand<V>(ps: Parts<V>) {
    ps.Cons? && match ps.head
                case Round(qs) => !Last(ParenOpen, qs).Binop?
                case Square(qs) => !Last(IndexOpen, qs).Binop?
                case Cond(qs) => !Last(If, qs).Binop?
                case _ => true
  }

  lemma SkipOpened<V>(x: Token<V>, qs: Parts<V>, y: Token<V>, more: seq<Token<V>>)
    requires Good(qs) && !Last(x, qs).Binop? && (y.ParenClose? || y.IndexClose? || y.Then?)
    ensures var r := Scan(0, 0, 0, [x] + (Text(qs) + ([y] + more))); r.Some? && |r.value| > |more|
  {
    ScanText(0, 0, 0, x, qs, [y] + more);
    ScanClose(0, 0, 0, Last(x, qs), y, more);
  }

  /** What a skip does with any text of this kind: it goes over it as a whole exactly when it is skippable. */
  lemma SkipText<V>(op: Op, ps: Parts<V>, rest: seq<Token<V>>)
    requires Good(ps) && ClosesOperand(ps)
    ensures var r := Consume([Binop(op)] + (Text(ps) + rest));
      if Skippable(ps) then r == Scan(0, 0, 0, [Last(PartLast(ps.head), ps.tail)] + rest)
      else r.Some? && |r.value| > |rest|
  {
    var more := Text(ps.tail) + rest;
    assert Tail([Binop(op)] + (Text(ps) + rest)) == Text(ps) + rest;
    match ps.head {
      case Word(t) => assert Text(ps) + rest == [t] + more; ScanText(0, 0, 0, t, ps.tail, rest);
      case Edge(t) => assert Text(ps) + rest == [t] + more; ScanText(0, 0, 0, t, ps.tail, rest);
      case Round(qs) =>
        Regroup3([ParenOpen], Text(qs), [ParenClose], Text(ps.tail), rest);
        SkipOpened(ParenOpen, qs, ParenClose, more);
      case Square(qs) =>
        Regroup3([IndexOpen], Text(qs), [IndexClose], Text(ps.tail), rest);
        SkipOpened(IndexOpen, qs, IndexClose, more);
      case Cond(qs) =>
        Regroup3([If], Text(qs), [Then], Text(ps.tail), rest);
        SkipOpened(If, qs, Then, more);
    }
  }

  /** So a skip reaches the end of its operand exactly when the operand opens with no bracket and has newlines and
      blocks directly after operators only; at the end of the input it fails. */
  lemma SkipReachesEndIff<V>(op: Op, ps: Parts<V>, rest: seq<Token<V>>)
    requires Good(ps) && ClosesOperand(ps) && !Last(PartLast(ps.head), ps.tail).Binop?
    ensures IsTerminator(Head(rest)) ==> (Consume([Binop(op)] + (Text(ps) + rest)) == Some(rest) <==> Skippable(ps))
    ensures rest == [] ==> (Consume([Binop(op)] + (Text(ps) + rest)) == None <==> Skippable(ps))
  {
    SkipText(op, ps, rest);
    var last := Last(PartLast(ps.head), ps.tail);
    ScanLast(last, rest);
    if rest == [] { assert [last] + rest == [last] && Tail([last]) == []; }
  }

  /** Closing tokens that match nothing: directly after an operator one is passed over like any word, and an index
      bracket closes an open parenthesis when no index is open. */
  lemma StrayClosers<V>(f: nat, x: Token<V>, op: Op, y: Token<V>, qs: Parts<V>, rest: seq<Token<V>>)
    requires Good(qs) && (y.ParenClose? || y.IndexClose? || y.Then?)
    ensures Scan(0, 0, 0, [Binop(op)] + ([y] + rest)) == Scan(0, 0, 0, [y] + rest)
    ensures Clear(ParenOpen, qs) ==>
      Scan(0, 0, f, [x] + ([ParenOpen] + (Text(qs) + ([IndexClose] + rest)))) == Scan(0, 0, f, [IndexClose] + rest)
  {
    TailCons(Binop(op), y, rest);
    var more := [IndexClose] + rest;
    ScanOne(0, 0, f, x, ParenOpen, Text(qs) + more);
    ScanText(0, 1, f, ParenOpen, qs, more);
    TailCons(Last(ParenOpen, qs), IndexClose, rest);
  }

  // ----- Trees over several lines -----

  /** A tree with the numbers of newlines before its operands and opening parentheses. */
  datatype Laid<V> = Atom(lines: nat, v: V, word: Word)
                   | Group(lines: nat, inner: Laid<V>)
                   | Pair(op: Op, l: Laid<V>, r: Laid<V>)

  function Flat<V>(x: Laid<V>): Expr<V> {
    match x
    case Atom(_, v, word) => Lit(v, word)
    case Group(_, inner) => Paren(Flat(inner))
    case Pair(op, l, r) => Bin(op, Flat(l), Flat(r))
  }

  function Lines<V>(n: nat): seq<Token<V>> { if n == 0 then [] else [NewLine] + Lines(n - 1) }

  function Lay<V>(x: Laid<V>): seq<Token<V>> {
    match x
    case Atom(n, v, word) => Lines(n) + [Operand(v, word)]
    case Group(n, inner) => Lines(n) + ([ParenOpen] + Lay(inner) + [ParenClose])
    case Pair(op, l, r) => Lay(l) + [Binop(op)] + Lay(r)
  }

  lemma {:induction false} PrimaryPassesLines<V>(L: Lang<V>, n: nat, ts: seq<Token<V>>)
    ensures Primary(L, Lines(n) + ts) == Primary(L, ts)
    decreases n
  {
    if n == 0 {
      assert Lines<V>(0) + ts == ts;
    } else {
      assert Lines<V>(n) + ts == [NewLine] + (Lines(n - 1) + ts);
      assert Tail(Lines<V>(n) + ts) == Lines(n - 1) + ts;
      PrimaryPassesLines(L, n - 1, ts);
    }
  }

  // ----- The skip of a laid out operand -----

  function LineParts<V>(n: nat, ps: Parts<V>): Parts<V> {
    if n == 0 then ps else Cons(Edge(NewLine), LineParts(n - 1, ps))
  }

  function PartsOf<V>(x: Laid<V>, ps: Parts<V>): Parts<V>
    decreases x
  {
    match x
    case Atom(n, v, word) => LineParts(n, Cons(Word(Operand(v, word)), ps))
    case Group(n, inner) => LineParts(n, Cons(Round(PartsOf(inner, Empty)), ps))
    case Pair(op, l, r) => PartsOf(l, Cons(Word(Binop(op)), PartsOf(r, ps)))
  }

  lemma {:induction false} LinePartsText<V>(n: nat, ps: Parts<V>)
    requires Good(ps)
    ensures Good(LineParts(n, ps)) && Text(LineParts(n, ps)) == Lines(n) + Text(ps)
    decreases n
  {
    if n > 0 { LinePartsText(n - 1, ps); }
  }

  /** The text of a laid out tree as parts. */
  lemma {:induction false} PartsText<V>(x: Laid<V>, ps: Parts<V>)
    requires Good(ps)
    ensures Good(PartsOf(x, ps)) && Text(PartsOf(x, ps)) == Lay(x) + Text(ps)
    decreases x
  {
    match x
    case Atom(n, v, word) => LinePartsText(n, Cons(Word(Operand(v, word)), ps));
    case Group(n, inner) =>
      PartsText(inner, Empty);
      assert Lay(inner) + [] == Lay(inner);
      LinePartsText(n, Cons(Round(PartsOf(inner, Empty)), ps));
      RegroupGroup(Lines(n), Lay(inner), Text(ps));
    case Pair(op, l, r) =>
      PartsText(r, ps);
      PartsText(l, Cons(Word(Binop(op)), PartsOf(r, ps)));
      Regroup(Lay(l), [Binop(op)], Lay(r), Text(ps));
  }

  lemma RegroupGroup<V>(a: seq<Token<V>>, b: seq<Token<V>>, c: seq<Token<V>>)
    ensures (a + ([ParenOpen] + b + [ParenClose])) + c == a + (([ParenOpen] + (b + [ParenClose])) + c)
  {
  }

  /** The last token of a laid out tree. */
  function LaidFinal<V>(x: Laid<V>): (t: Token<V>)
    ensures t.Operand? || t.ParenClose?
  {
    match x
    case Atom(_, v, word) => Operand(v, word)
    case Group(_, _) => ParenClose
    case Pair(_, _, r) => LaidFinal(r)
  }

  lemma {:induction false} LinesLast<V>(t: Token<V>, n: nat, ps: Parts<V>)
    requires ps.Cons?
    ensures Last(t, LineParts(n, ps)) == Last(t, ps)
    decreases n
  {
    if n > 0 {
      LinesLast(NewLine, n - 1, ps);
      assert Last(NewLine, ps) == Last(PartLast(ps.head), ps.tail) == Last(t, ps);
    }
  }

  lemma {:induction false} PartsLast<V>(t: Token<V>, x: Laid<V>, ps: Parts<V>)
    ensures Last(t, PartsOf(x, ps)) == Last(LaidFinal(x), ps)
    decreases x
  {
    match x
    case Atom(n, v, word) => LinesLast(t, n, Cons(Word(Operand(v, word)), ps));
    case Group(n, inner) => LinesLast(t, n, Cons(Round(PartsOf(inner, Empty)), ps));
    case Pair(op, l, r) =>
      PartsLast(t, l, Cons(Word(Binop(op)), PartsOf(r, ps)));
      PartsLast(Binop(op), r, ps);
  }

  /** A skip goes over the operand: it does not open with a parenthesis, and newlines stand directly after operators,
      or first of all, only. */
  predicate Skips<V>(x: Laid<V>) { Skippable(PartsOf(x, Empty)) }

  lemma {:induction false} LaidParts<V>(x: Laid<V>, ps: Parts<V>)
    ensures var qs := PartsOf(x, ps); qs.Cons? && (qs.head.Word? || qs.head == Edge(NewLine) || qs.head.Round?)
    ensures var qs := PartsOf(x, ps); qs.head.Round? ==> !Last(ParenOpen, qs.head.ps).Binop?
    ensures var qs := PartsOf(x, ps); qs.head.Word? ==> qs.head.t.Operand?
    decreases x
  {
    match x
    case Atom(_, _, _) =>
    case Group(_, inner) => PartsLast(ParenOpen, inner, Empty);
    case Pair(op, l, r) => LaidParts(l, Cons(Word(Binop(op)), PartsOf(r, ps)));
  }

  /** A skip reaches the end of a laid out operand, or acts as the next skip would, exactly when it goes over it. */
  lemma LaidSkipsIff<V>(op: Op, x: Laid<V>, rest: seq<Token<V>>)
    ensures IsTerminator(Head(rest)) ==> (Consume([Binop(op)] + (Lay(x) + rest)) == Some(rest) <==> Skips(x))
    ensures LogicHead(rest) && Skips(x) && (Head(Tail(rest)).Operand? || Head(Tail(rest)).NewLine?) ==>
      Consume([Binop(op)] + (Lay(x) + rest)) == Consume(rest)
  {
    var ps := PartsOf(x, Empty);
    PartsText(x, Empty);
    assert Lay(x) + [] == Lay(x);
    LaidParts(x, Empty);
    PartsLast(NewLine, x, Empty);
    assert Last(PartLast(ps.head), ps.tail) == LaidFinal(x);
    SkipReachesEndIff(op, ps, rest);
    SkipText(op, ps, rest);
    if LogicHead(rest) && Skips(x) && (Head(Tail(rest)).Operand? || Head(Tail(rest)).NewLine?) {
      ScanOn(LaidFinal(x), rest);
    }
  }

  lemma ScanOn<V>(last: Token<V>, rest: seq<Token<V>>)
    requires !last.Binop? && LogicHead(rest) && (Head(Tail(rest)).Operand? || Head(Tail(rest)).NewLine?)
    ensures Scan(0, 0, 0, [last] + rest) == Consume(rest)
  {
    assert Tail([last] + rest) == rest;
    assert Scan(0, 0, 0, [last] + rest) == Scan(0, 0, 0, rest);
  }

  // ----- Reading a laid out tree -----

  /** Wherever a chain ends early, the skip goes over the operand after the deciding operator. */
  predicate LaidSafe<V>(L: Lang<V>, x: Laid<V>, next: Token<V>) {
    match x
    case Atom(_, _, _) => true
    case Group(_, inner) => LaidSafe(L, inner, ParenClose)
    case Pair(op, l, r) =>
      && LaidSafe(L, l, Binop(op)) && LaidSafe(L, r, next)
      && (Value(L, Flat(l), Binop(op)).Stop? ==> Skips(r))
  }

  predicate LaidFollows<V>(L: Lang<V>, e: Expr<V>, rest: seq<Token<V>>) {
    && (Head(rest).Binop? ==> Head(rest).op.level >= Rank(e))
    && (Rank(e) == MAX_EXPR_LEVEL ==> LogicHead(rest) || IsTerminator(Head(rest)))
    && (Rank(e) == MAX_EXPR_LEVEL && Value(L, e, Head(rest)).Stop? && LogicHead(rest) ==>
          Head(Tail(rest)).Operand? || Head(Tail(rest)).NewLine?)
  }

  lemma FlatRank<V>(x: Laid<V>)
    ensures Rank(Flat(x)) == if x.Pair? then x.op.level else 0
  {
  }

  /** Newlines before operands and opening parentheses change nothing: in any context of open levels the value of
      the tree, and the place right after it. */
  lemma {:induction false} LaidTree<V>(L: Lang<V>, max: nat, x: Laid<V>, rest: seq<Token<V>>)
    requires Tight(Flat(x)) && LaidSafe(L, x, Head(rest)) && Rank(Flat(x)) <= max && LaidFollows(L, Flat(x), rest)
    ensures AnyError(ExprAt(L, max, Lay(x) + rest)) == Continue(L, max, Value(L, Flat(x), Head(rest)), rest)
    decreases x, 1
  {
    match x
    case Atom(n, v, word) =>
      var ts := [Operand(v, word)] + rest;
      assert Lay(x) + rest == Lines(n) + ts && Tail(ts) == rest;
      PrimaryPassesLines(L, n, ts);
    case Group(n, inner) =>
      LaidGroup(L, max, x, rest);
    case Pair(op, l, r) =>
      LaidPair(L, max, x, rest);
  }

  lemma {:induction false} LaidGroup<V>(L: Lang<V>, max: nat, x: Laid<V>, rest: seq<Token<V>>)
    requires x.Group? && Tight(Flat(x)) && LaidSafe(L, x, Head(rest)) && LaidFollows(L, Flat(x), rest)
    ensures AnyError(ExprAt(L, max, Lay(x) + rest)) == Continue(L, max, Value(L, Flat(x), Head(rest)), rest)
    decreases x, 0
  {
    var after := [ParenClose] + rest;
    var ts := [ParenOpen] + (Lay(x.inner) + after);
    assert Lay(x) + rest == Lines(x.lines) + ts;
    PrimaryPassesLines(L, x.lines, ts);
    assert Tail(ts) == Lay(x.inner) + after && Tail(after) == rest;
    LaidTree(L, MAX_EXPR_LEVEL, x.inner, after);
    InertNeverStops(L, Flat(x.inner), ParenClose);
    var p := ParseExpr(L, Tail(ts));
    assert AnyError(p) == match Value(L, Flat(x.inner), ParenClose)
                          case Val(v) => Ok(v, after)
                          case Ended(v) => Ok(v, after)
                          case _ => Err(OperatorFailed);
  }

  lemma {:induction false} LaidPair<V>(L: Lang<V>, max: nat, x: Laid<V>, rest: seq<Token<V>>)
    requires x.Pair? && Tight(Flat(x)) && LaidSafe(L, x, Head(rest)) && Rank(Flat(x)) <= max
    requires LaidFollows(L, Flat(x), rest)
    ensures AnyError(ExprAt(L, max, Lay(x) + rest)) == Continue(L, max, Value(L, Flat(x), Head(rest)), rest)
    decreases x, 0
  {
    var after := [Binop(x.op)] + (Lay(x.r) + rest);
    LaidLeft(L, x, rest);
    LaidTree(L, max, x.l, after);
    match Value(L, Flat(x.l), Binop(x.op))
    case Fail =>
    case Stop(v) => LaidStop(L, max, x, rest);
    case Val(y) =>
      LaidTree(L, x.op.level - 1, x.r, rest);
      ApplyOutcome(L, max, y, Flat(x), Lay(x.r) + rest, rest);
  }

  lemma LaidLeft<V>(L: Lang<V>, x: Laid<V>, rest: seq<Token<V>>)
    requires x.Pair? && Tight(Flat(x)) && LaidSafe(L, x, Head(rest)) && LaidFollows(L, Flat(x), rest)
    ensures var after := [Binop(x.op)] + (Lay(x.r) + rest);
      Lay(x) + rest == Lay(x.l) + after && Head(after) == Binop(x.op) && LaidFollows(L, Flat(x.l), after)
  {
    var after := [Binop(x.op)] + (Lay(x.r) + rest);
    Regroup(Lay(x.l), [Binop(x.op)], Lay(x.r), rest);
    assert Tail(after) == Lay(x.r) + rest;
    if Value(L, Flat(x.l), Binop(x.op)).Stop? { SkippedFirst(x.r, rest); }
  }

  lemma SkippedFirst<V>(x: Laid<V>, rest: seq<Token<V>>)
    requires Skips(x)
    ensures Head(Lay(x) + rest).Operand? || Head(Lay(x) + rest).NewLine?
  {
    PartsText(x, Empty);
    LaidParts(x, Empty);
    assert Lay(x) + [] == Lay(x);
    var ps := PartsOf(x, Empty);
    assert (Lay(x) + rest)[0] == PartText(ps.head)[0];
  }

  lemma LaidStop<V>(L: Lang<V>, max: nat, x: Laid<V>, rest: seq<Token<V>>)
    requires x.Pair? && Tight(Flat(x)) && LaidSafe(L, x, Head(rest)) && LaidFollows(L, Flat(x), rest)
    requires Value(L, Flat(x.l), Binop(x.op)).Stop?
    ensures Continue(L, max, Value(L, Flat(x.l), Binop(x.op)), [Binop(x.op)] + (Lay(x.r) + rest))
         == Continue(L, max, Value(L, Flat(x), Head(rest)), rest)
  {
    StopsAtTop(L, Flat(x));
    LaidSkipsIff(x.op, x.r, rest);
  }

  /** Without `and`/`or` every layout is evaluated as the tree it lays out, and is left at its end. */
  lemma LayoutEvaluates<V>(L: Lang<V>, x: Laid<V>, rest: seq<Token<V>>)
    requires Tight(Flat(x)) && NoLogic(Flat(x)) && !Head(rest).Binop? && Inert(Head(rest))
    ensures AnyError(ParseExpr(L, Lay(x) + rest))
         == if Eval(L, Flat(x)).Some? then Ok(Eval(L, Flat(x)).value, rest) else Err(OperatorFailed)
  {
    NoLogicNoStop(L, Flat(x), Head(rest));
    NoLogicLaidSafe(L, x, Head(rest));
    LaidTree(L, MAX_EXPR_LEVEL, x, rest);
  }

  lemma {:induction false} NoLogicLaidSafe<V>(L: Lang<V>, x: Laid<V>, next: Token<V>)
    requires Tight(Flat(x)) && NoLogic(Flat(x)) && Inert(next)
    ensures LaidSafe(L, x, next)
    decreases x
  {
    match x
    case Atom(_, _, _) =>
    case Group(_, inner) => NoLogicLaidSafe(L, inner, ParenClose);
    case Pair(op, l, r) =>
      NoLogicNoStop(L, Flat(l), Binop(op));
      NoLogicLaidSafe(L, l, Binop(op));
      NoLogicLaidSafe(L, r, next);
  }

  /** With `and`/`or` too, where every skip goes over its operand: the value and end of the tree on one line. */
  lemma LayoutIsRead<V>(L: Lang<V>, x: Laid<V>, rest: seq<Token<V>>)
    requires Tight(Flat(x)) && LaidSafe(L, x, Head(rest)) && SafeSkips(L, Flat(x), Head(rest))
      && IsTerminator(Head(rest))
    ensures AnyError(ParseExpr(L, Lay(x) + rest)) == AnyError(ParseExpr(L, Print(Flat(x)) + rest))
  {
    LaidTree(L, MAX_EXPR_LEVEL, x, rest);
    ParseComplete(L, Flat(x), rest);
  }

  // ----- Text that ends too early -----

  /** An opening parenthesis that is never closed changes nothing. */
  lemma UnclosedParenthesis<V>(L: Lang<V>, e: Expr<V>, rest: seq<Token<V>>)
    requires Tight(e) && NoLogic(e) && Eval(L, e).Some?
    requires !Head(rest).Binop? && !Head(rest).ParenClose? && Inert(Head(rest))
    ensures ParseExpr(L, [ParenOpen] + (Print(e) + rest)) == Ok(Eval(L, e).value, rest)
  {
    var ts := [ParenOpen] + (Print(e) + rest);
    assert Tail(ts) == Print(e) + rest && Head(ts) == ParenOpen;
    Precedence(L, e, rest);
    assert Primary(L, ts) == Ok(Eval(L, e).value, rest);
    assert Level(L, MAX_EXPR_LEVEL, Eval(L, e).value, rest) == Ok(Eval(L, e).value, rest);
    assert ParseExpr(L, ts) == ExprAt(L, MAX_EXPR_LEVEL, ts);
  }

  /** At the end of the input an operator gets the stale value as its right operand. */
  lemma OperandMissing<V>(L: Lang<V>, e: Expr<V>, op: Op)
    requires Tight(e) && NoLogic(e) && Eval(L, e).Some? && InTable(op) && !IsLogic(op) && Rank(e) <= op.level
    ensures var a := L.apply(op, Eval(L, e).value, L.unset);
      AnyError(ParseExpr(L, Print(e) + [Binop(op)])) == if a.ok then Ok(a.value, []) else Err(OperatorFailed)
  {
    NoLogicNoStop(L, e, Binop(op));
    ParseTree(L, MAX_EXPR_LEVEL, e, [Binop(op)]);
    LevelAtEnd(L, Eval(L, e).value, op);
  }

  lemma LevelAtEnd<V>(L: Lang<V>, x: V, op: Op)
    requires InTable(op)
    ensures var a := L.apply(op, x, L.unset);
      Level(L, MAX_EXPR_LEVEL, x, [Binop(op)]) == if a.ok then Ok(a.value, []) else Err(OperatorFailed)
  {
    var after: seq<Token<V>> := [Binop(op)];
    LevelStep(L, MAX_EXPR_LEVEL, x, op, []);
    assert after + [] == after;
    assert ExprAt(L, op.level - 1, []) == Ok(L.unset, []);
    var a := L.apply(op, x, L.unset);
    assert Level(L, MAX_EXPR_LEVEL, a.value, []) == Ok(a.value, []);
  }
}
