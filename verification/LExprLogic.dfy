/** Short-circuit evaluation in L: what a chain of `and`/`or` really computes, when this is the value
    of its tree, and where the skip of `l_consume_binop` ends. */
module LExprLogic {
  import opened LExpr
  import opened LExprTrees
  import opened LExprLaws

  /** Integer logic: `and`/`or` give the constants, comparisons give one of them, nothing else is assumed. */
  ghost predicate Logical<V(!new)>(L: Lang<V>) {
    && L.truthy(L.yes) && !L.truthy(L.no)
    && (forall op: Op, x: V, y: V :: op.word.And? ==>
          L.apply(op, x, y) == Applied(Truth(L, L.truthy(x) && L.truthy(y)), true))
    && (forall op: Op, x: V, y: V :: op.word.Or? ==>
          L.apply(op, x, y) == Applied(Truth(L, L.truthy(x) || L.truthy(y)), true))
    && (forall op: Op, x: V, y: V :: op.level == COMPARISON_LEVEL ==>
          L.apply(op, x, y).value == Truth(L, L.truthy(L.apply(op, x, y).value)))
  }

  function Truth<V>(L: Lang<V>, b: bool): V {
    if b then L.yes else L.no
  }

  // ----- One kind of operator per chain: nothing changes -----

  predicate SameWord(a: Op, b: Op) {
    a.word.And? == b.word.And? && a.word.Or? == b.word.Or?
  }

  /** Every unparenthesised chain of `and`/`or` uses one of the two only. */
  predicate Uniform<V>(e: Expr<V>) {
    match e
    case Lit(_, _) => true
    case Paren(e') => Uniform(e')
    case Bin(op, l, r) => Uniform(l) && Uniform(r) && (l.Bin? && IsLogic(l.op) ==> SameWord(l.op, op))
  }

  /** What a chain that ends early leaves behind, against plain evaluation. */
  lemma {:induction false} UniformAgrees<V(!new)>(L: Lang<V>, e: Expr<V>, next: Token<V>)
    requires Logical(L) && Tight(e) && Uniform(e) && Eval(L, e).Some?
    requires if next.Binop? then InTable(next.op) && next.op.level >= Rank(e) else Inert(next)
    requires next.Binop? && IsLogic(next.op) && e.Bin? && IsLogic(e.op) ==> SameWord(e.op, next.op)
    ensures !Value(L, e, next).Fail?
    ensures Value(L, e, next).Val? || Value(L, e, next).Ended? ==> Value(L, e, next).v == Eval(L, e).value
    ensures Value(L, e, next).Stop? ==>
      next.Binop? && IsLogic(next.op) && Decides(L, Eval(L, e).value, next)
    ensures Value(L, e, next).Stop? ==>
      Value(L, e, next).v == Truth(L, L.truthy(Eval(L, e).value)) && Rank(e) >= COMPARISON_LEVEL
    ensures Value(L, e, next).Stop? && Rank(e) == MAX_EXPR_LEVEL ==> Value(L, e, next).v == Eval(L, e).value
    decreases e
  {
    match e
    case Lit(_, _) =>
    case Paren(e') => UniformAgrees(L, e', ParenClose);
    case Bin(op, l, r) =>
      UniformAgrees(L, l, Binop(op));
      UniformAgrees(L, r, next);
      if Value(L, r, next).Stop? { StopsOnlyBeforeWords(L, r, next); }
      if Value(L, r, next).Ended? { EndsAtTop(L, r, next); }
      if Value(L, l, Binop(op)).Stop? { StopsAtTop(L, e); }
  }

  /** Short-circuiting preserves meaning when each chain is all `and` or all `or`: same value, same
      current token as evaluating everything. */
  lemma UniformFaithful<V(!new)>(L: Lang<V>, e: Expr<V>, rest: seq<Token<V>>)
    requires Logical(L) && Tight(e) && Uniform(e) && BareOperands(e)
    requires Eval(L, e).Some? && IsTerminator(Head(rest)) && Inert(Head(rest))
    ensures ParseExpr(L, Print(e) + rest) == Ok(Eval(L, e).value, rest)
  {
    BareIsSafe(L, e, Head(rest));
    UniformAgrees(L, e, Head(rest));
    ParseComplete(L, e, rest);
  }

  /** So a tree with `and`/`or`, printed with minimal parentheses, evaluates to its own value if each of its
      chains is of one word and none of its operands after `and`/`or` is printed with a parenthesis in front. */
  lemma PrintEvaluatesUniform<V(!new)>(L: Lang<V>, e: Expr<V>, rest: seq<Token<V>>)
    requires Logical(L) && InTableTree(e) && Uniform(Minimal(e)) && BareOperands(Minimal(e))
    requires Eval(L, e).Some? && IsTerminator(Head(rest)) && Inert(Head(rest))
    ensures ParseExpr(L, Print(Minimal(e)) + rest) == Ok(Eval(L, e).value, rest)
  {
    MinimalReads(L, e);
    UniformFaithful(L, Minimal(e), rest);
  }

  // ----- Mixed chains of comparisons -----

  function LeftTree<V>(cs: seq<Expr<V>>, ws: seq<Op>): Expr<V>
    requires |cs| == |ws| + 1
  {
    if ws == [] then cs[0]
    else Bin(ws[|ws| - 1], LeftTree(cs[..|ws|], ws[..|ws| - 1]), cs[|ws|])
  }

  function Join(w: Op, a: bool, b: bool): bool {
    if w.word.And? then a && b else a || b
  }

  /** The truth of the chain read from the left, as equal operator levels prescribe. */
  function LeftTruth(bs: seq<bool>, ws: seq<Op>): bool
    requires |bs| == |ws| + 1
  {
    if ws == [] then bs[0]
    else Join(ws[|ws| - 1], LeftTruth(bs[..|ws|], ws[..|ws| - 1]), bs[|ws|])
  }

  /** The truth of the chain nested to the right. */
  function RightTruth(bs: seq<bool>, ws: seq<Op>): bool
    requires |bs| == |ws| + 1
  {
    if ws == [] then bs[0] else Join(ws[0], bs[0], RightTruth(bs[1..], ws[1..]))
  }

  /** Some comparison decides the operator after it. */
  predicate Settled(bs: seq<bool>, ws: seq<Op>)
    requires |bs| == |ws|
  {
    exists i :: 0 <= i < |bs| && bs[i] != ws[i].word.And?
  }

  lemma {:induction false} RightTruthSnoc(bs: seq<bool>, ws: seq<Op>, b: bool, w: Op)
    requires |bs| == |ws| + 1
    ensures RightTruth(bs + [b], ws + [w]) == if Settled(bs, ws + [w]) then RightTruth(bs, ws) else b
    ensures !Settled(bs, ws + [w]) ==> RightTruth(bs, ws) == w.word.And?
    decreases |ws|
  {
    var cs, vs := bs + [b], ws + [w];
    if ws == [] {
      assert RightTruth(cs[1..], vs[1..]) == b;
      assert Settled(bs, vs) <==> bs[0] != vs[0].word.And?;
    } else {
      RightTruthSnoc(bs[1..], ws[1..], b, w);
      assert cs[1..] == bs[1..] + [b] && vs[1..] == ws[1..] + [w];
      SettledCons(bs, vs);
    }
  }

  lemma SettledCons(bs: seq<bool>, ws: seq<Op>)
    requires |bs| == |ws| > 0
    ensures Settled(bs, ws) <==> bs[0] != ws[0].word.And? || Settled(bs[1..], ws[1..])
  {
    if Settled(bs, ws) && bs[0] == ws[0].word.And? {
      var i :| 0 <= i < |bs| && bs[i] != ws[i].word.And?;
      assert bs[1..][i - 1] != ws[1..][i - 1].word.And?;
    }
    if Settled(bs[1..], ws[1..]) {
      var i :| 0 <= i < |bs| - 1 && bs[1..][i] != ws[1..][i].word.And?;
      assert bs[i + 1] != ws[i + 1].word.And?;
    }
  }

  predicate Comparison<V>(L: Lang<V>, c: Expr<V>) {
    Tight(c) && NoLogic(c) && Rank(c) == COMPARISON_LEVEL && Print(c)[0] != ParenOpen && Eval(L, c).Some?
  }

  predicate AreComparisons<V>(L: Lang<V>, cs: seq<Expr<V>>) {
    forall i :: 0 <= i < |cs| ==> Comparison(L, cs[i])
  }

  predicate AreLogic(ws: seq<Op>) {
    forall i :: 0 <= i < |ws| ==> InTable(ws[i]) && IsLogic(ws[i])
  }

  function Truths<V>(L: Lang<V>, cs: seq<Expr<V>>): (bs: seq<bool>)
    requires AreComparisons(L, cs)
    ensures |bs| == |cs|
  {
    seq(|cs|, i requires 0 <= i < |cs| => L.truthy(Eval(L, cs[i]).value))
  }

  lemma ComparisonValue<V(!new)>(L: Lang<V>, c: Expr<V>, next: Token<V>)
    requires Logical(L) && Comparison(L, c)
    ensures var b := L.truthy(Eval(L, c).value);
            && Eval(L, c).value == Truth(L, b)
            && Value(L, c, next) == if Decides(L, Truth(L, b), next) then Stop(Truth(L, b)) else Val(Truth(L, b))
  {
    NoLogicValue(L, c, next);
  }

  /** Before `and`/`or` a truth decides when it is not the one the operator goes on with. */
  lemma DecidesLogic<V(!new)>(L: Lang<V>, b: bool, op: Op)
    requires Logical(L) && IsLogic(op)
    ensures Decides(L, Truth(L, b), Binop(op)) <==> b != op.word.And?
  {
  }

  /** One more comparison at the right end of a chain: its evaluation in full ... */
  lemma ChainStepEval<V(!new)>(L: Lang<V>, l: Expr<V>, o: Op, c: Expr<V>, left: bool)
    requires Logical(L) && InTable(o) && IsLogic(o) && Comparison(L, c) && Tight(l) && BareOperands(l)
    requires Eval(L, l) == Some(Truth(L, left))
    ensures var e, b := Bin(o, l, c), L.truthy(Eval(L, c).value);
      Tight(e) && BareOperands(e) && Eval(L, e) == Some(Truth(L, Join(o, left, b)))
  {
    var b := L.truthy(Eval(L, c).value);
    ComparisonValue(L, c, NewLine);
    NoLogicIsBare(c);
    assert L.apply(o, Truth(L, left), Truth(L, b)) == Applied(Truth(L, Join(o, left, b)), true);
  }

  /** ... and with short circuits. */
  lemma ChainStep<V(!new)>(L: Lang<V>, l: Expr<V>, o: Op, c: Expr<V>, next: Token<V>, right: bool)
    requires Logical(L) && InTable(o) && IsLogic(o) && Comparison(L, c)
    requires Value(L, l, Binop(o)) == Stop(Truth(L, right))
             || (Value(L, l, Binop(o)) == Val(Truth(L, right)) && right == o.word.And?)
    ensures var b := L.truthy(Eval(L, c).value);
      Value(L, Bin(o, l, c), next)
      == if Value(L, l, Binop(o)).Stop? then
           if next.Binop? then Stop(Truth(L, right)) else Ended(Truth(L, right))
         else if Decides(L, Truth(L, b), next) then Stop(Truth(L, b))
         else Val(Truth(L, b))
  {
    var b := L.truthy(Eval(L, c).value);
    ComparisonValue(L, c, next);
    assert L.apply(o, Truth(L, right), Truth(L, b)) == Applied(Truth(L, Join(o, right, b)), true);
  }

  lemma ChainSplit<V(!new)>(L: Lang<V>, cs: seq<Expr<V>>, ws: seq<Op>)
    requires ws != [] && |cs| == |ws| + 1 && AreComparisons(L, cs) && Logical(L)
    ensures var n, bs := |ws|, Truths(L, cs);
      AreComparisons(L, cs[..n]) && Truths(L, cs[..n]) == bs[..n] && ws[..n - 1] + [ws[n - 1]] == ws
        && bs[..n] + [bs[n]] == bs
  {
  }

  /** Nothing before the last comparison decides, and the text after the chain does. */
  predicate ChainDecided<V>(L: Lang<V>, bs: seq<bool>, ws: seq<Op>, next: Token<V>)
    requires |bs| == |ws| + 1
  {
    !Settled(bs[..|ws|], ws) && Decides(L, Truth(L, bs[|ws|]), next)
  }

  /** What the chain `e` of comparisons with truths `bs` gives, and whether a skip begins after it. */
  ghost predicate Chained<V>(L: Lang<V>, e: Expr<V>, bs: seq<bool>, ws: seq<Op>, next: Token<V>)
    requires |bs| == |ws| + 1
  {
    && !Value(L, e, next).Fail? && Value(L, e, next).v == Truth(L, RightTruth(bs, ws))
    && (Value(L, e, next).Stop? <==>
          if next.Binop? then Settled(bs, ws + [next.op]) else ChainDecided(L, bs, ws, next))
  }

  lemma ChainOne<V(!new)>(L: Lang<V>, c: Expr<V>, next: Token<V>)
    requires Logical(L) && Comparison(L, c) && (next.Binop? ==> IsLogic(next.op))
    ensures Chained(L, c, [L.truthy(Eval(L, c).value)], [], next)
  {
    var b := L.truthy(Eval(L, c).value);
    ComparisonValue(L, c, next);
    if next.Binop? {
      DecidesLogic(L, b, next.op);
      assert [] + [next.op] == [next.op];
      SettledCons([b], [next.op]);
    }
  }

  lemma ChainSnoc<V(!new)>(L: Lang<V>, l: Expr<V>, bs: seq<bool>, ws: seq<Op>, o: Op, c: Expr<V>, next: Token<V>)
    requires Logical(L) && InTable(o) && IsLogic(o) && Comparison(L, c) && (next.Binop? ==> IsLogic(next.op))
    requires |bs| == |ws| + 1 && Chained(L, l, bs, ws, Binop(o))
    ensures Chained(L, Bin(o, l, c), bs + [L.truthy(Eval(L, c).value)], ws + [o], next)
  {
    var b, vs := L.truthy(Eval(L, c).value), ws + [o];
    RightTruthSnoc(bs, ws, b, o);
    ChainStep(L, l, o, c, next, RightTruth(bs, ws));
    assert (bs + [b])[..|vs|] == bs;
    if next.Binop? {
      SettledSnoc(bs, vs, b, next.op);
      DecidesLogic(L, b, next.op);
    }
  }

  lemma {:induction false} ChainPrefix<V(!new)>(L: Lang<V>, cs: seq<Expr<V>>, ws: seq<Op>, next: Token<V>)
    requires Logical(L) && AreComparisons(L, cs) && AreLogic(ws) && |cs| == |ws| + 1
    requires next.Binop? ==> IsLogic(next.op)
    ensures var e, bs := LeftTree(cs, ws), Truths(L, cs);
            && Tight(e) && BareOperands(e)
            && Eval(L, e) == Some(Truth(L, LeftTruth(bs, ws)))
            && Chained(L, e, bs, ws, next)
    decreases |ws|
  {
    var n := |ws|;
    var bs := Truths(L, cs);
    if n == 0 {
      ComparisonValue(L, cs[0], next);
      NoLogicIsBare(cs[0]);
      ChainOne(L, cs[0], next);
      assert bs == [bs[0]] && ws == [];
    } else {
      var o, bt, vs := ws[n - 1], bs[..n], ws[..n - 1];
      var l := LeftTree(cs[..n], vs);
      ChainPrefix(L, cs[..n], vs, Binop(o));
      ChainSplit(L, cs, ws);
      ChainStepEval(L, l, o, cs[n], LeftTruth(bt, vs));
      ChainSnoc(L, l, bt, vs, o, cs[n], next);
    }
  }

  lemma SettledSnoc(bs: seq<bool>, ws: seq<Op>, b: bool, w: Op)
    requires |bs| == |ws|
    ensures Settled(bs + [b], ws + [w]) <==> Settled(bs, ws) || b != w.word.And?
  {
    if Settled(bs, ws) {
      var i :| 0 <= i < |bs| && bs[i] != ws[i].word.And?;
      assert (bs + [b])[i] != (ws + [w])[i].word.And?;
    }
    if b != w.word.And? { assert (bs + [b])[|bs|] != (ws + [w])[|ws|].word.And?; }
  }

  lemma {:induction false} NoLogicIsBare<V>(e: Expr<V>)
    requires NoLogic(e)
    ensures BareOperands(e)
  {
    match e
    case Lit(_, _) =>
    case Paren(e') => NoLogicIsBare(e');
    case Bin(_, l, r) => NoLogicIsBare(l); NoLogicIsBare(r);
  }

  /** The interpreter reads a chain of comparisons nested to the right, although the levels nest it
      to the left; it stops at the end of the chain unless the last comparison is decided there. */
  lemma ChainIsRightNested<V(!new)>(L: Lang<V>, cs: seq<Expr<V>>, ws: seq<Op>, rest: seq<Token<V>>)
    requires Logical(L) && AreComparisons(L, cs) && AreLogic(ws) && |cs| == |ws| + 1
    requires IsTerminator(Head(rest))
    ensures var e, bs := LeftTree(cs, ws), Truths(L, cs);
            && Eval(L, e) == Some(Truth(L, LeftTruth(bs, ws)))
            && AnyError(ParseExpr(L, Print(e) + rest))
               == if !ChainDecided(L, bs, ws, Head(rest)) then Ok(Truth(L, RightTruth(bs, ws)), rest)
                  else match Consume(rest)
                       case None => Err(OperatorFailed)
                       case Some(u) => Ok(Truth(L, RightTruth(bs, ws)), u)
  {
    var e := LeftTree(cs, ws);
    ChainPrefix(L, cs, ws, Head(rest));
    BareIsSafe(L, e, Head(rest));
    ParseComplete(L, e, rest);
  }

  predicate OneWord(ws: seq<Op>) {
    forall i, j :: 0 <= i < |ws| && 0 <= j < |ws| ==> ws[i].word.And? == ws[j].word.And?
  }

  lemma {:induction false} AllSame(bs: seq<bool>, ws: seq<Op>, isAnd: bool)
    requires |bs| == |ws| + 1 && forall i :: 0 <= i < |ws| ==> ws[i].word.And? == isAnd
    ensures RightTruth(bs, ws) == if isAnd then (forall i :: 0 <= i < |bs| ==> bs[i])
                                  else (exists i :: 0 <= i < |bs| && bs[i])
    ensures LeftTruth(bs, ws) == RightTruth(bs, ws)
    decreases |ws|
  {
    if ws != [] {
      AllSame(bs[1..], ws[1..], isAnd);
      AllSame(bs[..|ws|], ws[..|ws| - 1], isAnd);
      var rest, init := bs[1..], bs[..|ws|];
      assert bs == [bs[0]] + rest && bs == init + [bs[|ws|]];
      assert forall i :: 0 <= i < |rest| ==> rest[i] == bs[i + 1];
      assert forall i :: 0 <= i < |init| ==> init[i] == bs[i];
    }
  }

  /** Where the operators first change: all of `ws[..k + 1]` are one word, `ws[k + 1]` is the other. */
  predicate FirstChange(ws: seq<Op>, k: nat) {
    && k + 1 < |ws| && ws[k + 1].word.And? != ws[0].word.And?
    && forall i :: 0 <= i <= k ==> ws[i].word.And? == ws[0].word.And?
  }

  lemma {:induction false} FindChange(ws: seq<Op>) returns (k: nat)
    requires !OneWord(ws)
    ensures FirstChange(ws, k)
  {
    k := 0;
    while ws[k + 1].word.And? == ws[0].word.And?
      invariant k + 1 < |ws|
      invariant forall i :: 0 <= i <= k ==> ws[i].word.And? == ws[0].word.And?
      decreases |ws| - k
    {
      k := k + 1;
      if k + 1 == |ws| { assert OneWord(ws); assert false; }
    }
  }

  /** Truth values that tell the two readings apart: only comparison `k` decides its operator. */
  function Separating(ws: seq<Op>, k: nat): (bs: seq<bool>)
    requires k < |ws|
    ensures |bs| == |ws| + 1
  {
    seq(|ws| + 1, i requires 0 <= i <= |ws| => (i == k) != ws[0].word.And?)
  }

  lemma {:induction false} RightSeparates(bs: seq<bool>, ws: seq<Op>, k: nat)
    requires |bs| == |ws| + 1 && k < |ws|
    requires forall i :: 0 <= i < k ==> bs[i] == ws[i].word.And?
    requires bs[k] != ws[k].word.And?
    ensures RightTruth(bs, ws) == bs[k]
    decreases k
  {
    if k > 0 { RightSeparates(bs[1..], ws[1..], k - 1); }
  }

  lemma {:induction false} LeftSeparates(ws: seq<Op>, k: nat, n: nat)
    requires FirstChange(ws, k) && n <= |ws|
    ensures LeftTruth(Separating(ws, k)[..n + 1], ws[..n]) == ((n == k || n == k + 1) != ws[0].word.And?)
    decreases n
  {
    if n > 0 {
      LeftSeparates(ws, k, n - 1);
      assert Separating(ws, k)[..n + 1][..n] == Separating(ws, k)[..n];
      assert ws[..n][..n - 1] == ws[..n - 1];
    }
  }

  /** The interpreter's value is the tree's value, for all operands of the chain. */
  ghost predicate ChainFaithful<V(!new)>(L: Lang<V>, ws: seq<Op>) {
    forall cs: seq<Expr<V>> {:trigger AreComparisons(L, cs)} :: |cs| == |ws| + 1 && AreComparisons(L, cs) ==>
      Eval(L, LeftTree(cs, ws)).Some? &&
      ParseExpr(L, Print(LeftTree(cs, ws)) + [NewLine]) == Ok(Eval(L, LeftTree(cs, ws)).value, [NewLine])
  }

  lemma OneWordFaithful<V(!new)>(L: Lang<V>, ws: seq<Op>)
    requires Logical(L) && AreLogic(ws) && OneWord(ws)
    ensures ChainFaithful(L, ws)
  {
    forall cs: seq<Expr<V>> | |cs| == |ws| + 1 && AreComparisons(L, cs)
      ensures Eval(L, LeftTree(cs, ws)).Some?
      ensures ParseExpr(L, Print(LeftTree(cs, ws)) + [NewLine]) == Ok(Eval(L, LeftTree(cs, ws)).value, [NewLine])
    {
      ChainIsRightNested(L, cs, ws, [NewLine]);
      AllSame(Truths(L, cs), ws, ws != [] && ws[0].word.And?);
    }
  }

  /** In a mixed chain some operands make the interpreter's answer differ from the tree's. */
  lemma MixedIsMisread<V(!new)>(L: Lang<V>, ws: seq<Op>, t: Expr<V>, f: Expr<V>) returns (cs: seq<Expr<V>>)
    requires Logical(L) && AreLogic(ws) && Comparison(L, t) && Comparison(L, f) && !OneWord(ws)
    requires L.truthy(Eval(L, t).value) && !L.truthy(Eval(L, f).value)
    ensures |cs| == |ws| + 1 && AreComparisons(L, cs) && Eval(L, LeftTree(cs, ws)).Some?
    ensures ParseExpr(L, Print(LeftTree(cs, ws)) + [NewLine]).Ok?
    ensures ParseExpr(L, Print(LeftTree(cs, ws)) + [NewLine]).value != Eval(L, LeftTree(cs, ws)).value
  {
    var bs := Telling(ws);
    cs := Choose(L, bs, t, f);
    ChainIsRightNested(L, cs, ws, [NewLine]);
  }

  /** Truth values for which the two readings of a mixed chain differ. */
  lemma Telling(ws: seq<Op>) returns (bs: seq<bool>)
    requires !OneWord(ws)
    ensures |bs| == |ws| + 1 && RightTruth(bs, ws) != LeftTruth(bs, ws)
  {
    var k := FindChange(ws);
    bs := Separating(ws, k);
    RightSeparates(bs, ws, k);
    LeftSeparates(ws, k, |ws|);
    assert bs[..|ws| + 1] == bs && ws[..|ws|] == ws;
  }

  /** Operands with the given truth values. */
  lemma Choose<V(!new)>(L: Lang<V>, bs: seq<bool>, t: Expr<V>, f: Expr<V>) returns (cs: seq<Expr<V>>)
    requires Logical(L) && Comparison(L, t) && Comparison(L, f)
    requires L.truthy(Eval(L, t).value) && !L.truthy(Eval(L, f).value)
    ensures |cs| == |bs| && AreComparisons(L, cs) && Truths(L, cs) == bs
  {
    cs := seq(|bs|, i requires 0 <= i < |bs| => if bs[i] then t else f);
  }

  /** Short-circuiting keeps the meaning of a chain, for all its operands, exactly when the chain is
      all `and` or all `or`.  `t` and `f` are a true and a false comparison of the language. */
  lemma FaithfulIffOneWord<V(!new)>(L: Lang<V>, ws: seq<Op>, t: Expr<V>, f: Expr<V>)
    requires Logical(L) && AreLogic(ws) && Comparison(L, t) && Comparison(L, f)
    requires L.truthy(Eval(L, t).value) && !L.truthy(Eval(L, f).value)
    ensures ChainFaithful(L, ws) <==> OneWord(ws)
  {
    if OneWord(ws) {
      OneWordFaithful(L, ws);
    } else {
      var cs := MixedIsMisread(L, ws, t, f);
    }
  }

  // ----- Where the skip ends -----

  function Leftmost<V>(e: Expr<V>): Expr<V> {
    if e.Bin? then Leftmost(e.l) else e
  }

  function AfterLeftmost<V>(e: Expr<V>): seq<Token<V>> {
    if e.Bin? then AfterLeftmost(e.l) + [Binop(e.op)] + Print(e.r) else []
  }

  lemma {:induction false} SplitLeftmost<V>(e: Expr<V>)
    ensures Print(e) == Print(Leftmost(e)) + AfterLeftmost(e) && !Leftmost(e).Bin?
    decreases e
  {
    if e.Bin? { SplitLeftmost(e.l); }
  }

  lemma SkipParenthesis<V>(op: Op, e: Expr<V>, after: seq<Token<V>>)
    requires Head(after) == ParenClose
    ensures Consume([Binop(op)] + ([ParenOpen] + Print(e) + after)) == Some(after)
  {
    var ts := [ParenOpen] + Print(e) + after;
    assert ts == [ParenOpen] + (Print(e) + after);
    assert Consume([Binop(op)] + ts) == Scan(0, 0, 0, ts) by { assert Tail([Binop(op)] + ts) == ts; }
    ScanOver(0, 0, 0, ParenOpen, e, after);
    ScanLast(Final(e), after);
  }

  /** A skipped operand that opens with a parenthesis is left at that parenthesis' closing one, because
      the token after the operator is never examined. */
  lemma SkipStopsInside<V>(op: Op, r: Expr<V>, rest: seq<Token<V>>)
    requires Print(r)[0] == ParenOpen
    ensures Consume([Binop(op)] + Print(r) + rest) == Some([ParenClose] + AfterLeftmost(r) + rest)
  {
    SplitLeftmost(r);
    var p, after := Leftmost(r), [ParenClose] + AfterLeftmost(r) + rest;
    assert Print(p)[0] == ParenOpen;
    assert p.Paren?;
    RegroupSkip(Binop(op), Print(p.e), AfterLeftmost(r), rest);
    SkipParenthesis(op, p.e, after);
  }

  lemma RegroupSkip<V>(t: Token<V>, inner: seq<Token<V>>, tail: seq<Token<V>>, rest: seq<Token<V>>)
    ensures [t] + ([ParenOpen] + inner + [ParenClose] + tail) + rest
            == [t] + ([ParenOpen] + inner + ([ParenClose] + tail + rest))
  {
  }

  /** The skip reaches the token that ends the expression exactly when no parenthesis follows the operator. */
  lemma SkipLandsIff<V>(op: Op, r: Expr<V>, rest: seq<Token<V>>)
    requires IsTerminator(Head(rest))
    ensures Consume([Binop(op)] + Print(r) + rest) == Some(rest) <==> Print(r)[0] != ParenOpen
  {
    FirstToken(r);
    if Print(r)[0] == ParenOpen {
      SkipStopsInside(op, r, rest);
    } else {
      ConsumeSkips(op, r, rest);
    }
  }

  /** A deciding comparison hands over to the skip. */
  lemma StoppedChain<V(!new)>(L: Lang<V>, c: Expr<V>, after: seq<Token<V>>)
    requires Comparison(L, c) && LogicHead(after) && InTable(after[0].op)
    requires Value(L, c, after[0]).Stop?
    ensures AnyError(ParseExpr(L, Print(c) + after))
            == if Consume(after).Some? then Ok(Value(L, c, after[0]).v, Consume(after).value) else Err(OperatorFailed)
  {
    NoLogicIsBare(c);
    BareIsSafe(L, c, after[0]);
    ParseTree(L, MAX_EXPR_LEVEL, c, after);
  }

  /** After an undecided comparison everything is evaluated, whatever ends the expression. */
  lemma UndecidedChain<V(!new)>(L: Lang<V>, c: Expr<V>, op: Op, r: Expr<V>, rest: seq<Token<V>>)
    requires Logical(L) && Comparison(L, c) && InTable(op) && IsLogic(op)
    requires Tight(r) && NoLogic(r) && Eval(L, r).Some? && !Head(rest).Binop?
    requires L.truthy(Eval(L, c).value) == op.word.And?
    ensures var p := ParseExpr(L, Print(Bin(op, c, r)) + rest);
      && (p.Ok? && p.rest == rest <==> !Decided(L, r, Head(rest)))
      && (Inert(Head(rest)) ==> p.Ok?)
  {
    var after := [Binop(op)] + (Print(r) + rest);
    var v := L.truthy(Eval(L, c).value);
    PrintBin(op, c, r, rest);
    ComparisonValue(L, c, Binop(op));
    ContinuedChain(L, c, after);
    JoinEnds(L, Truth(L, v), op, r, rest);
  }

  /** A comparison that does not decide goes on with its operator. */
  lemma ContinuedChain<V(!new)>(L: Lang<V>, c: Expr<V>, after: seq<Token<V>>)
    requires Comparison(L, c) && LogicHead(after) && InTable(after[0].op)
    requires Value(L, c, after[0]).Val?
    ensures AnyError(ParseExpr(L, Print(c) + after))
      == AnyError(Level(L, MAX_EXPR_LEVEL, Value(L, c, after[0]).v, after))
  {
    NoLogicIsBare(c);
    BareIsSafe(L, c, after[0]);
    ParseTree(L, MAX_EXPR_LEVEL, c, after);
  }

  /** An `and`/`or` whose left side does not decide ends where its right side does. */
  lemma JoinEnds<V(!new)>(L: Lang<V>, x: V, op: Op, r: Expr<V>, rest: seq<Token<V>>)
    requires Logical(L) && InTable(op) && IsLogic(op) && Tight(r) && NoLogic(r) && Eval(L, r).Some?
    requires !Head(rest).Binop?
    ensures var p := Level(L, MAX_EXPR_LEVEL, x, [Binop(op)] + (Print(r) + rest));
      && (p.Ok? && p.rest == rest <==> !Decided(L, r, Head(rest)))
      && (Inert(Head(rest)) ==> p.Ok?)
  {
    RightOperand(L, op, r, rest);
    LevelStep(L, MAX_EXPR_LEVEL, x, op, Print(r) + rest);
  }

  /** The operand after `and`/`or` is read to its end, unless it is decided there. */
  lemma RightOperand<V(!new)>(L: Lang<V>, op: Op, r: Expr<V>, rest: seq<Token<V>>)
    requires InTable(op) && IsLogic(op) && Tight(r) && NoLogic(r) && Eval(L, r).Some?
    requires !Head(rest).Binop?
    ensures var q := ExprAt(L, op.level - 1, Print(r) + rest);
      if Decided(L, r, Head(rest)) then q.Ok? ==> |q.rest| < |rest| else q == Ok(Eval(L, r).value, rest)
  {
    NoLogicRank(r);
    NoLogicValue(L, r, Head(rest));
    ParseTree(L, op.level - 1, r, rest);
  }

  lemma NoLogicRank<V>(r: Expr<V>)
    requires Tight(r) && NoLogic(r)
    ensures Rank(r) < MAX_EXPR_LEVEL
  {
  }

  lemma SkipLandsSomewhere<V>(op: Op, r: Expr<V>, rest: seq<Token<V>>)
    requires IsTerminator(Head(rest))
    ensures Consume([Binop(op)] + Print(r) + rest).Some?
  {
    FirstToken(r);
    if Print(r)[0] == ParenOpen {
      SkipStopsInside(op, r, rest);
    } else {
      ConsumeSkips(op, r, rest);
    }
  }

  /** A decided comparison leaves the cursor where the skip ends. */
  lemma DecidedChain<V(!new)>(L: Lang<V>, c: Expr<V>, op: Op, r: Expr<V>, rest: seq<Token<V>>)
    requires Logical(L) && Comparison(L, c) && InTable(op) && IsLogic(op) && IsTerminator(Head(rest))
    requires L.truthy(Eval(L, c).value) != op.word.And?
    ensures var p, u := ParseExpr(L, Print(Bin(op, c, r)) + rest), Consume([Binop(op)] + Print(r) + rest);
            u.Some? && p == Ok(Truth(L, !op.word.And?), u.value)
  {
    var after := [Binop(op)] + Print(r) + rest;
    PrintBin(op, c, r, rest);
    assert Value(L, c, after[0]) == Stop(Truth(L, !op.word.And?)) by { ComparisonValue(L, c, Binop(op)); }
    assert Consume(after).Some? by { SkipLandsSomewhere(op, r, rest); }
    StoppedChain(L, c, after);
  }

  lemma PrintBin<V>(op: Op, c: Expr<V>, r: Expr<V>, rest: seq<Token<V>>)
    ensures Print(Bin(op, c, r)) + rest == Print(c) + ([Binop(op)] + Print(r) + rest)
    ensures [Binop(op)] + Print(r) + rest == [Binop(op)] + (Print(r) + rest)
  {
  }

  /** The same seen from `l_parse_expr`: where `c` decides, the cursor is left at the end of `c and r` unless `r`
      opens with a parenthesis; where it does not, unless `r` is itself decided by the text at that end. */
  lemma ChainEndsAtTerminatorIff<V(!new)>(L: Lang<V>, c: Expr<V>, op: Op, r: Expr<V>, rest: seq<Token<V>>)
    requires Logical(L) && Comparison(L, c) && InTable(op) && IsLogic(op)
    requires Tight(r) && NoLogic(r) && Eval(L, r).Some? && IsTerminator(Head(rest))
    ensures var p := ParseExpr(L, Print(Bin(op, c, r)) + rest);
            && (p.Ok? && p.rest == rest <==>
                  if L.truthy(Eval(L, c).value) == op.word.And? then !Decided(L, r, Head(rest))
                  else Print(r)[0] != ParenOpen)
            && (Inert(Head(rest)) ==> p.Ok?)
  {
    if L.truthy(Eval(L, c).value) == op.word.And? {
      UndecidedChain(L, c, op, r, rest);
    } else {
      DecidedChain(L, c, op, r, rest);
      SkipLandsIff(op, r, rest);
    }
  }

  /** Before a comma the skip never ends where its expression does. */
  lemma SkipPassesComma<V>(op: Op, r: Expr<V>, rest: seq<Token<V>>)
    requires Head(rest).Comma?
    ensures var u := Consume([Binop(op)] + Print(r) + rest);
            && u != Some(rest)
            && (Print(r)[0] != ParenOpen ==> u == Scan(0, 0, 0, rest))
  {
    FirstToken(r);
    if Print(r)[0] == ParenOpen {
      SkipStopsInside(op, r, rest);
      assert ([ParenClose] + AfterLeftmost(r) + rest)[0] == ParenClose;
    } else {
      SkipIsScan(op, r, rest);
      assert Tail([Final(r)] + rest) == rest;
    }
  }

  /** An argument `c and r` before a comma is left at its comma exactly when `c` does not decide: else the
      skip takes the comma, and what follows it, with the operand. */
  lemma ArgumentEndsAtCommaIff<V(!new)>(L: Lang<V>, c: Expr<V>, op: Op, r: Expr<V>, rest: seq<Token<V>>)
    requires Logical(L) && Comparison(L, c) && InTable(op) && IsLogic(op)
    requires Tight(r) && NoLogic(r) && Eval(L, r).Some? && Head(rest).Comma?
    ensures var p := ParseExpr(L, Print(Bin(op, c, r)) + rest);
            (p.Ok? && p.rest == rest) <==> L.truthy(Eval(L, c).value) == op.word.And?
  {
    if L.truthy(Eval(L, c).value) == op.word.And? {
      UndecidedChain(L, c, op, r, rest);
    } else {
      var after := [Binop(op)] + Print(r) + rest;
      PrintBin(op, c, r, rest);
      assert Value(L, c, after[0]).Stop? by { ComparisonValue(L, c, Binop(op)); }
      StoppedChain(L, c, after);
      SkipPassesComma(op, r, rest);
    }
  }

  // ----- The integers -----

  /** The integer cases of `l_lt`, `l_equals`, `l_logical_and`, `l_logical_or`. */
  const INT_LANG: Lang<int> := Lang(
    (op: Op, x: int, y: int) =>
      if op.word.And? then Applied(if x != 0 && y != 0 then 1 else 0, true)
      else if op.word.Or? then Applied(if x != 0 || y != 0 then 1 else 0, true)
      else if op == LESS then Applied(if x < y then 1 else 0, true)
      else if op.level == COMPARISON_LEVEL then Applied(if x == y then 1 else 0, true)
      else Applied(0, false),
    (x: int) => x != 0, 1, 0, 0)

  const LESS: Op := Op(4, Other(0))
  const AND_OP: Op := Op(5, And(0))
  const OR_OP: Op := Op(5, Or(0))

  /** A number, as a tree and as a token. */
  function Num(n: int): Expr<int> { Lit(n, Other(0)) }

  function NumToken(n: int): Token<int> { Operand(n, Other(0)) }

  function Compare(m: int, n: int): Expr<int> { Bin(LESS, Num(m), Num(n)) }

  /** `2 < 1 and 1 < 2 or 1 < 2` is true by its levels; the interpreter answers false. */
  lemma MixedChainExample()
    ensures Logical(INT_LANG)
    ensures var e := LeftTree([Compare(2, 1), Compare(1, 2), Compare(1, 2)], [AND_OP, OR_OP]);
            && Eval(INT_LANG, e) == Some(1)
            && ParseExpr(INT_LANG, Print(e) + [NewLine]) == Ok(0, [NewLine])
  {
    var f, t := Compare(2, 1), Compare(1, 2);
    var cs, ws := [f, t, t], [AND_OP, OR_OP];
    assert Logical(INT_LANG);
    assert Eval(INT_LANG, f) == Some(0) && Eval(INT_LANG, t) == Some(1);
    assert AreComparisons(INT_LANG, cs);
    ChainIsRightNested(INT_LANG, cs, ws, [NewLine]);
    assert Truths(INT_LANG, cs) == [false, true, true];
    assert RightTruth([false, true, true], ws) == false;
    assert [false, true, true][..2] == [false, true] && ws[..1] == [AND_OP];
    assert LeftTruth([false, true], [AND_OP]) == false;
  }

  /** In the arguments `2 < 1 and 1, 7)` the second one is swallowed. */
  lemma CommaIsSkipped()
    ensures var args := Print(Compare(2, 1)) + ([Binop(AND_OP), NumToken(1)] + [Comma, NumToken(7), ParenClose]);
            ParseExpr(INT_LANG, args) == Ok(0, [ParenClose])
  {
    var c := Compare(2, 1);
    var rest := [Comma, NumToken(7), ParenClose];
    var after := [Binop(AND_OP)] + Print(Num(1)) + rest;
    assert after == [Binop(AND_OP), NumToken(1)] + rest;
    assert Eval(INT_LANG, c) == Some(0);
    SkipPassesComma(AND_OP, Num(1), rest);
    assert Tail(rest) == [NumToken(7), ParenClose] && Tail([NumToken(7), ParenClose]) == [ParenClose];
    ParseTree(INT_LANG, MAX_EXPR_LEVEL, c, after);
  }

  /** After `1 < 2` a block whose body begins with a name like `order` is skipped with the line that follows. */
  lemma BlockIsSkipped()
    ensures var body, line := [Block(Or(0)), NewLine], [NumToken(7), NewLine];
            ParseExpr(INT_LANG, Print(Compare(1, 2)) + (body + line)) == Ok(1, [NewLine])
  {
    var c, rest := Compare(1, 2), [Block(Or(0)), NewLine] + [NumToken(7), NewLine];
    assert Eval(INT_LANG, c) == Some(1);
    assert Tail(rest) == [NewLine, NumToken(7), NewLine] && Tail(Tail(rest)) == [NumToken(7), NewLine];
    assert Tail([NumToken(7), NewLine]) == [NewLine];
    assert Scan(0, 0, 0, [NumToken(7), NewLine]) == Some([NewLine]);
    assert Consume(rest) == Some([NewLine]);
    TextDecidesIff(INT_LANG, c, rest);
  }
}
