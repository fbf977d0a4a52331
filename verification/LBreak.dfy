/** Loops, `break N` and `return` in the L interpreter: what they mean, and the counters that carry it out.
    Actions and tests are opaque; fuel bounds the iterations of loops that may not end. */
module LBreak {

  datatype Option<T> = None | Some(value: T)

  datatype Stmt<!W> = Act(run: W -> W)
                    | Break(levels: Option<nat>, when: W -> bool)
                    | Continue(when: W -> bool)
                    | If(test: W -> bool, thens: Block<W>, elses: Block<W>)
                    | While(test: W -> bool, body: Block<W>)
                    | Times(count: nat, body: Block<W>)
                    | Forever(body: Block<W>)
                    | Return(when: W -> bool)
                    | Call(body: Block<W>)

  datatype Block<!W> = Empty | Seq(first: Stmt<W>, rest: Block<W>)

  // ----- Meaning: how a statement ends -----

  /** `Leave(n)` leaves n enclosing loops, `Next` ends the iteration of the innermost, and `Returned` the
      call of the function. */
  datatype Exit = Normal | Leave(levels: nat) | Next | Returned

  datatype Result<W> = Ran(world: W, exit: Exit) | Fault | NoFuel

  function Levels(levels: Option<nat>): nat { match levels case None => 1 case Some(n) => n }

  function Always<W>(w: W): bool { true }

  /** `depth` is the number of enclosing loops; a break that would leave more of them is an error. */
  function Exec<W>(fuel: nat, s: Stmt<W>, depth: nat, w: W): Result<W>
    decreases fuel, s, 0
  {
    match s
    case Act(run) => Ran(run(w), Normal)
    case Break(levels, when) =>
      if depth == 0 || (levels.Some? && levels.value > depth) then Fault
      else Ran(w, if when(w) then Leave(Levels(levels)) else Normal)
    case Continue(when) => if depth == 0 then Fault else Ran(w, if when(w) then Next else Normal)
    case If(test, thens, elses) => ExecBlock(fuel, if test(w) then thens else elses, depth, w)
    case While(test, body) => ExecWhile(fuel, test, body, depth, w)
    case Times(count, body) => ExecTimes(fuel, count, body, depth, w)
    case Forever(body) => ExecWhile(fuel, Always, body, depth, w)
    case Return(when) => Ran(w, if when(w) then Returned else Normal)
    case Call(body) => Called(ExecBlock(fuel, body, 0, w))
  }

  /** The loops around a call are not those of its body. */
  function Called<W>(r: Result<W>): Result<W> { match r case Ran(w, _) => Ran(w, Normal) case _ => r }

  function ExecBlock<W>(fuel: nat, b: Block<W>, depth: nat, w: W): Result<W>
    decreases fuel, b, 0
  {
    match b
    case Empty => Ran(w, Normal)
    case Seq(first, rest) =>
      match Exec(fuel, first, depth, w)
      case Ran(w', Normal) => ExecBlock(fuel, rest, depth, w')
      case r => r
  }

  function ExecWhile<W>(fuel: nat, test: W -> bool, body: Block<W>, depth: nat, w: W): Result<W>
    decreases fuel, body, 0
  {
    if !test(w) then Ran(w, Normal)
    else if fuel == 0 then NoFuel
    else
      match ExecBlock(fuel - 1, body, depth + 1, w)
      case Ran(w', Leave(n)) => Ran(w', Outer(n))
      case Ran(w', Returned) => Ran(w', Returned)
      case Ran(w', _) => ExecWhile(fuel - 1, test, body, depth, w')
      case r => r
  }

  function ExecTimes<W>(fuel: nat, count: nat, body: Block<W>, depth: nat, w: W): Result<W>
    decreases fuel, body, count + 1
  {
    if count == 0 then Ran(w, Normal)
    else
      match ExecBlock(fuel, body, depth + 1, w)
      case Ran(w', Leave(n)) => Ran(w', Outer(n))
      case Ran(w', Returned) => Ran(w', Returned)
      case Ran(w', _) => ExecTimes(fuel, count - 1, body, depth, w')
      case r => r
  }

  /** A loop that is left: it ends normally when it is the last to be. */
  function Outer(levels: nat): Exit { if levels <= 1 then Normal else Leave(levels - 1) }

  predicate Digits(s: Stmt) {
    match s
    case Break(levels, _) => levels.Some? ==> 1 <= levels.value <= 9
    case If(_, thens, elses) => BlockDigits(thens) && BlockDigits(elses)
    case While(_, body) => BlockDigits(body)
    case Times(_, body) => BlockDigits(body)
    case Forever(body) => BlockDigits(body)
    case Call(body) => BlockDigits(body) && BlockNoStray(body)
    case _ => true
  }

  predicate BlockDigits(b: Block) {
    match b
    case Empty => true
    case Seq(first, rest) => Digits(first) && BlockDigits(rest)
  }

  /** No `break` or `continue` outside the loops of the statement. */
  predicate NoStray(s: Stmt) {
    match s
    case Break(_, _) => false
    case Continue(_) => false
    case If(_, thens, elses) => BlockNoStray(thens) && BlockNoStray(elses)
    case _ => true
  }

  predicate BlockNoStray(b: Block) {
    match b
    case Empty => true
    case Seq(first, rest) => NoStray(first) && BlockNoStray(rest)
  }

  // ----- Laws -----

  predicate Within(r: Result, depth: nat) {
    match r
    case Ran(_, Leave(n)) => 1 <= n <= depth
    case Ran(_, Next) => depth > 0
    case _ => true
  }

  /** A statement never leaves more loops than enclose it; so no break goes past the outermost. */
  lemma {:induction false} NeverLeavesMore<W>(fuel: nat, s: Stmt<W>, depth: nat, w: W)
    requires Digits(s)
    ensures Within(Exec(fuel, s, depth, w), depth)
    decreases fuel, s, 0
  {
    match s {
      case If(test, thens, elses) => BlockNeverLeavesMore(fuel, if test(w) then thens else elses, depth, w);
      case While(test, body) => WhileNeverLeavesMore(fuel, test, body, depth, w);
      case Times(count, body) => TimesNeverLeavesMore(fuel, count, body, depth, w);
      case Forever(body) => WhileNeverLeavesMore(fuel, Always, body, depth, w);
      case _ =>
    }
  }

  lemma {:induction false} BlockNeverLeavesMore<W>(fuel: nat, b: Block<W>, depth: nat, w: W)
    requires BlockDigits(b)
    ensures Within(ExecBlock(fuel, b, depth, w), depth)
    decreases fuel, b, 0
  {
    match b {
      case Empty =>
      case Seq(first, rest) =>
        NeverLeavesMore(fuel, first, depth, w);
        match Exec(fuel, first, depth, w) {
          case Ran(w', Normal) => BlockNeverLeavesMore(fuel, rest, depth, w');
          case _ =>
        }
    }
  }

  lemma {:induction false} WhileNeverLeavesMore<W>(fuel: nat, test: W -> bool, body: Block<W>, depth: nat, w: W)
    requires BlockDigits(body)
    ensures Within(ExecWhile(fuel, test, body, depth, w), depth)
    decreases fuel, body, 0
  {
    if test(w) && fuel > 0 {
      BlockNeverLeavesMore(fuel - 1, body, depth + 1, w);
      match ExecBlock(fuel - 1, body, depth + 1, w) {
        case Ran(_, Leave(_)) =>
        case Ran(_, Returned) =>
        case Ran(w', _) => WhileNeverLeavesMore(fuel - 1, test, body, depth, w');
        case _ =>
      }
    }
  }

  lemma {:induction false} TimesNeverLeavesMore<W>(fuel: nat, count: nat, body: Block<W>, depth: nat, w: W)
    requires BlockDigits(body)
    ensures Within(ExecTimes(fuel, count, body, depth, w), depth)
    decreases fuel, body, count + 1
  {
    if count > 0 {
      BlockNeverLeavesMore(fuel, body, depth + 1, w);
      match ExecBlock(fuel, body, depth + 1, w) {
        case Ran(_, Leave(_)) =>
        case Ran(_, Returned) =>
        case Ran(w', _) => TimesNeverLeavesMore(fuel, count - 1, body, depth, w');
        case _ =>
      }
    }
  }

  /** Fuel only decides whether a run is seen to end, never how. */
  lemma {:induction false} MoreFuel<W>(fuel: nat, more: nat, s: Stmt<W>, depth: nat, w: W)
    requires fuel <= more && Exec(fuel, s, depth, w) != NoFuel
    ensures Exec(more, s, depth, w) == Exec(fuel, s, depth, w)
    decreases fuel, s, 0
  {
    match s {
      case If(test, thens, elses) => BlockMoreFuel(fuel, more, if test(w) then thens else elses, depth, w);
      case While(test, body) => WhileMoreFuel(fuel, more, test, body, depth, w);
      case Times(count, body) => TimesMoreFuel(fuel, more, count, body, depth, w);
      case Forever(body) => WhileMoreFuel(fuel, more, Always, body, depth, w);
      case Call(body) => BlockMoreFuel(fuel, more, body, 0, w);
      case _ =>
    }
  }

  lemma {:induction false} BlockMoreFuel<W>(fuel: nat, more: nat, b: Block<W>, depth: nat, w: W)
    requires fuel <= more && ExecBlock(fuel, b, depth, w) != NoFuel
    ensures ExecBlock(more, b, depth, w) == ExecBlock(fuel, b, depth, w)
    decreases fuel, b, 0
  {
    match b {
      case Empty =>
      case Seq(first, rest) =>
        MoreFuel(fuel, more, first, depth, w);
        match Exec(fuel, first, depth, w) {
          case Ran(w', Normal) => BlockMoreFuel(fuel, more, rest, depth, w');
          case _ =>
        }
    }
  }

  lemma {:induction false} WhileMoreFuel<W>(fuel: nat, more: nat, test: W -> bool, body: Block<W>, depth: nat, w: W)
    requires fuel <= more && ExecWhile(fuel, test, body, depth, w) != NoFuel
    ensures ExecWhile(more, test, body, depth, w) == ExecWhile(fuel, test, body, depth, w)
    decreases fuel, body, 0
  {
    if test(w) {
      BlockMoreFuel(fuel - 1, more - 1, body, depth + 1, w);
      match ExecBlock(fuel - 1, body, depth + 1, w) {
        case Ran(_, Leave(_)) =>
        case Ran(_, Returned) =>
        case Ran(w', _) => WhileMoreFuel(fuel - 1, more - 1, test, body, depth, w');
        case _ =>
      }
    }
  }

  lemma {:induction false} TimesMoreFuel<W>(fuel: nat, more: nat, count: nat, body: Block<W>, depth: nat, w: W)
    requires fuel <= more && ExecTimes(fuel, count, body, depth, w) != NoFuel
    ensures ExecTimes(more, count, body, depth, w) == ExecTimes(fuel, count, body, depth, w)
    decreases fuel, body, count + 1
  {
    if count > 0 {
      BlockMoreFuel(fuel, more, body, depth + 1, w);
      match ExecBlock(fuel, body, depth + 1, w) {
        case Ran(_, Leave(_)) =>
        case Ran(_, Returned) =>
        case Ran(w', _) => TimesMoreFuel(fuel, more, count - 1, body, depth, w');
        case _ =>
      }
    }
  }

  // ----- What a break leaves -----

  /** What is still to be done when a statement inside loops and blocks ends: innermost first. */
  datatype Frame<!W> = Then(fuel: nat, rest: Block<W>)
                     | Again(fuel: nat, test: W -> bool, body: Block<W>)
                     | Repeat(fuel: nat, left: nat, body: Block<W>)
                     | Caller

  predicate IsLoop(f: Frame) { f.Again? || f.Repeat? }

  /** The loops around, up to the innermost call. */
  function Loops(fs: seq<Frame>): nat {
    if fs == [] || fs[0].Caller? then 0 else (if IsLoop(fs[0]) then 1 else 0) + Loops(fs[1..])
  }

  /** How everything around it ends, when the innermost statement has ended so. */
  function Resume<W>(fs: seq<Frame<W>>, r: Result<W>): Result<W>
    decreases |fs|
  {
    if fs == [] then r
    else
      var d := Loops(fs[1..]);
      var r' := match (fs[0], r)
        case (Then(fuel, rest), Ran(w, Normal)) => ExecBlock(fuel, rest, d, w)
        case (Again(fuel, test, body), Ran(w, exit)) =>
          if exit.Leave? then Ran(w, Outer(exit.levels)) else if exit.Returned? then r
          else ExecWhile(fuel, test, body, d, w)
        case (Repeat(fuel, left, body), Ran(w, exit)) =>
          if exit.Leave? then Ran(w, Outer(exit.levels)) else if exit.Returned? then r
          else ExecTimes(fuel, left, body, d, w)
        case (Caller, _) => Called(r)
        case (_, _) => r;
      Resume(fs[1..], r')
  }

  /** The frames around the n-th enclosing loop. */
  function Around<W>(fs: seq<Frame<W>>, n: nat): seq<Frame<W>>
    requires n <= Loops(fs)
    decreases |fs|
  {
    if n == 0 then fs else Around(fs[1..], if IsLoop(fs[0]) then n - 1 else n)
  }

  /** Leaving n loops is for the n-th enclosing loop to end normally: nothing inside it runs any more. */
  lemma {:induction false} LeavingIsEnding<W>(fs: seq<Frame<W>>, n: nat, w: W)
    requires 1 <= n <= Loops(fs)
    ensures Resume(fs, Ran(w, Leave(n))) == Resume(Around(fs, n), Ran(w, Normal))
    decreases |fs|
  {
    if !IsLoop(fs[0]) {
      LeavingIsEnding(fs[1..], n, w);
    } else if n > 1 {
      LeavingIsEnding(fs[1..], n - 1, w);
    }
  }

  /** `break N` leaves exactly N loops, through any blocks between them, and is an error when there are fewer. */
  lemma BreakLeavesExactly<W>(fuel: nat, levels: Option<nat>, when: W -> bool, fs: seq<Frame<W>>, w: W)
    requires when(w) && (levels.Some? ==> 1 <= levels.value <= 9)
    ensures var n, r := Levels(levels), Exec(fuel, Break(levels, when), Loops(fs), w);
      if n > Loops(fs) then r == Fault && Resume(fs, r) == Fault
      else Resume(fs, r) == Resume(Around(fs, n), Ran(w, Normal))
  {
    if Levels(levels) > Loops(fs) {
      FaultsStay(fs);
    } else {
      LeavingIsEnding(fs, Levels(levels), w);
    }
  }

  /** The frames around the innermost call. */
  function AfterCall<W>(fs: seq<Frame<W>>): Option<seq<Frame<W>>> {
    if fs == [] then None else if fs[0].Caller? then Some(fs[1..]) else AfterCall(fs[1..])
  }

  /** `return` in any nest of loops and blocks is for the call around them to end: nothing inside it runs
      any more; outside all calls it ends everything. */
  lemma {:induction false} ReturningEndsCall<W>(fs: seq<Frame<W>>, w: W)
    ensures Resume(fs, Ran(w, Returned))
         == match AfterCall(fs) case None => Ran(w, Returned) case Some(gs) => Resume(gs, Ran(w, Normal))
    decreases |fs|
  {
    if fs != [] && !fs[0].Caller? { ReturningEndsCall(fs[1..], w); }
  }

  lemma {:induction false} FaultsStay<W>(fs: seq<Frame<W>>)
    ensures Resume(fs, Fault) == Fault
    decreases |fs|
  {
    if fs != [] { FaultsStay(fs[1..]); }
  }

  /** Running a statement where it stands is running it and then resuming its frames. */
  lemma {:induction false} FramesAreContexts<W>(fuel: nat, s: Stmt<W>, rest: Block<W>, fs: seq<Frame<W>>,
                                                test: W -> bool, count: nat, w: W)
    ensures Resume(fs, ExecBlock(fuel, Seq(s, rest), Loops(fs), w))
         == Resume([Then(fuel, rest)] + fs, Exec(fuel, s, Loops(fs), w))
    ensures test(w) ==>
      Resume(fs, Exec(fuel + 1, While(test, Seq(s, rest)), Loops(fs), w))
      == Resume([Then(fuel, rest), Again(fuel, test, Seq(s, rest))] + fs, Exec(fuel, s, Loops(fs) + 1, w))
    ensures Resume(fs, Exec(fuel + 1, Forever(Seq(s, rest)), Loops(fs), w))
      == Resume([Then(fuel, rest), Again(fuel, Always, Seq(s, rest))] + fs, Exec(fuel, s, Loops(fs) + 1, w))
    ensures Resume(fs, Exec(fuel, Times(count + 1, Seq(s, rest)), Loops(fs), w))
      == Resume([Then(fuel, rest), Repeat(fuel, count, Seq(s, rest))] + fs, Exec(fuel, s, Loops(fs) + 1, w))
    ensures Resume(fs, Exec(fuel, Call(Seq(s, rest)), Loops(fs), w))
      == Resume([Then(fuel, rest), Caller] + fs, Exec(fuel, s, 0, w))
  {
    var b := Seq(s, rest);
    BlockFrame(fuel, s, rest, fs, w);
    if test(w) { LoopFrame(fuel, s, rest, Again(fuel, test, b), fs, w); }
    LoopFrame(fuel, s, rest, Again(fuel, Always, b), fs, w);
    LoopFrame(fuel, s, rest, Repeat(fuel, count, b), fs, w);
    CallFrame(fuel, s, rest, fs, w);
  }

  lemma CallFrame<W>(fuel: nat, s: Stmt<W>, rest: Block<W>, fs: seq<Frame<W>>, w: W)
    ensures Resume(fs, Exec(fuel, Call(Seq(s, rest)), Loops(fs), w))
         == Resume([Then(fuel, rest), Caller] + fs, Exec(fuel, s, 0, w))
  {
    var gs := [Caller] + fs;
    assert gs[1..] == fs;
    assert [Then(fuel, rest), Caller] + fs == [Then(fuel, rest)] + gs;
    BlockFrame(fuel, s, rest, gs, w);
  }

  lemma BlockFrame<W>(fuel: nat, s: Stmt<W>, rest: Block<W>, fs: seq<Frame<W>>, w: W)
    ensures Resume(fs, ExecBlock(fuel, Seq(s, rest), Loops(fs), w))
         == Resume([Then(fuel, rest)] + fs, Exec(fuel, s, Loops(fs), w))
  {
    assert ([Then(fuel, rest)] + fs)[1..] == fs;
  }

  lemma LoopFrame<W>(fuel: nat, s: Stmt<W>, rest: Block<W>, f: Frame<W>, fs: seq<Frame<W>>, w: W)
    requires IsLoop(f) && f.fuel == fuel && f.body == Seq(s, rest)
    requires f.Again? ==> f.test(w)
    ensures Resume(fs, if f.Again? then ExecWhile(fuel + 1, f.test, f.body, Loops(fs), w)
                       else ExecTimes(fuel, f.left + 1, f.body, Loops(fs), w))
         == Resume([Then(fuel, rest), f] + fs, Exec(fuel, s, Loops(fs) + 1, w))
  {
    var gs := [f] + fs;
    assert gs[1..] == fs;
    assert [Then(fuel, rest), f] + fs == [Then(fuel, rest)] + gs;
    BlockFrame(fuel, s, rest, gs, w);
  }

  // ----- What each statement does where it stands -----

  /** What is still to be done after a block's first statement, if it has one. */
  function Inside<W>(fuel: nat, b: Block<W>, fs: seq<Frame<W>>): seq<Frame<W>> {
    if b.Empty? then fs else [Then(fuel, b.rest)] + fs
  }

  /** A conditional goes on with the first statement of the block its test chooses, and with nothing if that
      block is empty. */
  lemma IfRunsChosen<W>(fuel: nat, test: W -> bool, thens: Block<W>, elses: Block<W>, fs: seq<Frame<W>>, w: W)
    ensures test(w) ==>
      Resume(fs, Exec(fuel, If(test, thens, elses), Loops(fs), w))
      == Resume(Inside(fuel, thens, fs), if thens.Empty? then Ran(w, Normal) else Exec(fuel, thens.first, Loops(fs), w))
    ensures !test(w) ==>
      Resume(fs, Exec(fuel, If(test, thens, elses), Loops(fs), w))
      == Resume(Inside(fuel, elses, fs), if elses.Empty? then Ran(w, Normal) else Exec(fuel, elses.first, Loops(fs), w))
  {
    var b := if test(w) then thens else elses;
    if b.Seq? { BlockFrame(fuel, b.first, b.rest, fs, w); }
  }

  /** The frames from the innermost loop on, if there is one before a call. */
  function LoopAround<W>(fs: seq<Frame<W>>): Option<seq<Frame<W>>> {
    if fs == [] || fs[0].Caller? then None else if IsLoop(fs[0]) then Some(fs) else LoopAround(fs[1..])
  }

  lemma {:induction false} NextReachesLoop<W>(fs: seq<Frame<W>>, w: W)
    ensures LoopAround(fs).Some? <==> Loops(fs) > 0
    ensures Loops(fs) > 0 ==> Resume(fs, Ran(w, Next)) == Resume(LoopAround(fs).value, Ran(w, Normal))
    decreases |fs|
  {
    if fs != [] && !fs[0].Caller? && !IsLoop(fs[0]) { NextReachesLoop(fs[1..], w); }
  }

  /** `continue` goes on with the next iteration of the innermost loop, past everything before it; it is an
      error when there is none, and nothing happens when its condition fails. */
  lemma ContinueIterates<W>(fuel: nat, when: W -> bool, fs: seq<Frame<W>>, w: W)
    ensures LoopAround(fs).None? ==> Resume(fs, Exec(fuel, Continue(when), Loops(fs), w)) == Fault
    ensures LoopAround(fs).Some? && when(w) ==>
      Resume(fs, Exec(fuel, Continue(when), Loops(fs), w)) == Resume(LoopAround(fs).value, Ran(w, Normal))
    ensures LoopAround(fs).Some? && !when(w) ==>
      Resume(fs, Exec(fuel, Continue(when), Loops(fs), w)) == Resume(fs, Ran(w, Normal))
  {
    NextReachesLoop(fs, w);
    FaultsStay(fs);
  }

  /** An action changes the world and what is left goes on. */
  lemma ActGoesOn<W>(fuel: nat, run: W -> W, fs: seq<Frame<W>>, w: W)
    ensures Resume(fs, Exec(fuel, Act(run), Loops(fs), w)) == Resume(fs, Ran(run(w), Normal))
  {
  }

  /** `break` and `return` whose conditions fail do nothing; but a break out of too many loops is an error. */
  lemma FailedConditions<W>(fuel: nat, levels: Option<nat>, when: W -> bool, fs: seq<Frame<W>>, w: W)
    requires !when(w) && (levels.Some? ==> levels.value > 0)
    ensures Resume(fs, Exec(fuel, Break(levels, when), Loops(fs), w))
         == if Levels(levels) <= Loops(fs) then Resume(fs, Ran(w, Normal)) else Fault
    ensures Resume(fs, Exec(fuel, Return(when), Loops(fs), w)) == Resume(fs, Ran(w, Normal))
  {
    FaultsStay(fs);
  }

  /** `return` whose condition holds goes on after the innermost call. */
  lemma ReturnGoesOnAfterCall<W>(fuel: nat, when: W -> bool, fs: seq<Frame<W>>, w: W)
    requires when(w)
    ensures Resume(fs, Exec(fuel, Return(when), Loops(fs), w))
         == match AfterCall(fs) case None => Ran(w, Returned) case Some(gs) => Resume(gs, Ran(w, Normal))
  {
    ReturningEndsCall(fs, w);
  }

  /** A loop whose test fails, or whose count is used up, ends without running its body. */
  lemma LoopsThatAreOver<W>(fuel: nat, test: W -> bool, body: Block<W>, fs: seq<Frame<W>>, w: W)
    ensures !test(w) ==> Resume(fs, Exec(fuel, While(test, body), Loops(fs), w)) == Resume(fs, Ran(w, Normal))
    ensures Resume(fs, Exec(fuel, Times(0, body), Loops(fs), w)) == Resume(fs, Ran(w, Normal))
  {
  }

  /** The action `run` n times. */
  function Iterate<W>(run: W -> W, n: nat, w: W): W { if n == 0 then w else Iterate(run, n - 1, run(w)) }

  /** A body without exits runs exactly as often as a loop says ... */
  lemma {:induction false} TimesRunsCount<W>(fuel: nat, count: nat, run: W -> W, depth: nat, w: W)
    ensures Exec(fuel, Times(count, Seq(Act(run), Empty)), depth, w) == Ran(Iterate(run, count, w), Normal)
    decreases count
  {
    OnlyAct(fuel, run, depth + 1, w);
    if count > 0 { TimesRunsCount(fuel, count - 1, run, depth, run(w)); }
  }

  /** ... and under a test as often as it holds before it fails first. */
  lemma {:induction false} WhileRunsToTest<W>(fuel: nat, n: nat, test: W -> bool, run: W -> W, depth: nat, w: W)
    requires n <= fuel && !test(Iterate(run, n, w)) && forall i: nat :: i < n ==> test(Iterate(run, i, w))
    ensures Exec(fuel, While(test, Seq(Act(run), Empty)), depth, w) == Ran(Iterate(run, n, w), Normal)
    decreases n
  {
    if n > 0 {
      assert test(Iterate(run, 0, w));
      OnlyAct(fuel - 1, run, depth + 1, w);
      forall i: nat | i < n - 1 ensures test(Iterate(run, i, run(w))) { assert test(Iterate(run, i + 1, w)); }
      WhileRunsToTest(fuel - 1, n - 1, test, run, depth, run(w));
    }
  }

  lemma OnlyAct<W>(fuel: nat, run: W -> W, depth: nat, w: W)
    ensures ExecBlock(fuel, Seq(Act(run), Empty), depth, w) == Ran(run(w), Normal)
  {
  }

  // ----- The counters -----

  datatype Code = Ok | BreakCode | ContinueCode | SyntaxError | OutOfFuel

  class Interp {
    var loopCount: nat
    var breakCount: nat
    var inLoop: bool
    var hasToReturn: bool

    constructor ()
      ensures Settled(false) && loopCount == 0
    {
      loopCount, breakCount, inLoop, hasToReturn := 0, 0, false, false;
    }

    /** Between statements no break or return is under way, and the loop flag tells whether there is a loop.
        A function called from a loop finds the flag set, which only a stray `break` could notice. */
    ghost predicate Settled(noStray: bool)
      reads this
    {
      breakCount == 0 && !hasToReturn && (loopCount > 0 ==> inLoop) && (inLoop && loopCount == 0 ==> noStray)
    }

    /** The code returned and the counters say how the statement ended.  A return leaves the loop counter
        as it is inside the loops it comes from. */
    ghost predicate Agrees<W>(r: Result<W>, code: Code, w: W, depth: nat, flag: bool)
      reads this
    {
      match r
      case Ran(w', exit) =>
        && w == w' && (depth == 0 && !flag ==> !inLoop)
        && (match exit
            case Normal => code == Ok && breakCount == 0 && At(depth)
            case Leave(n) => code == BreakCode && breakCount + 1 == n && At(depth)
            case Next => code == ContinueCode && breakCount == 0 && At(depth)
            case Returned => code == Ok && breakCount == 0 && hasToReturn && loopCount >= depth)
      case Fault => code == SyntaxError
      case NoFuel => code == OutOfFuel
    }

    ghost predicate At(depth: nat)
      reads this
    {
      loopCount == depth && (depth > 0 ==> inLoop) && !hasToReturn
    }

    method HandleBreak<W>(levels: Option<nat>, when: W -> bool, w: W) returns (code: Code)
      requires Settled(false) && (levels.Some? ==> 1 <= levels.value <= 9)
      modifies this
      ensures Agrees(Exec(0, Break(levels, when), old(loopCount), w), code, w, old(loopCount), old(inLoop))
    {
      if !inLoop {
        return SyntaxError;
      }
      var level := 0;
      if levels.Some? {
        var num := levels.value - 1;
        if num >= loopCount {
          return SyntaxError;
        }
        level := num;
      }
      if !when(w) {
        return Ok;
      }
      breakCount := level;
      return BreakCode;
    }

    method ParseStmt<W>(fuel: nat, s: Stmt<W>, w: W) returns (code: Code, w': W)
      requires Settled(NoStray(s)) && Digits(s)
      modifies this
      ensures Agrees(Exec(fuel, s, old(loopCount), w), code, w', old(loopCount), old(inLoop))
      decreases fuel, s, 0
    {
      w' := w;
      match s {
        case Act(run) =>
          w' := run(w);
          code := Ok;
        case Break(levels, when) =>
          code := HandleBreak(levels, when, w);
        case Continue(when) =>
          if !inLoop {
            return SyntaxError, w;
          }
          code := if when(w) then ContinueCode else Ok;
        case If(test, thens, elses) =>
          if test(w) {
            code, w' := ParseString(fuel, thens, w);
          } else {
            code, w' := ParseString(fuel, elses, w);
          }
        case While(test, body) =>
          code, w' := ParseWhile(fuel, test, body, w);
        case Times(count, body) =>
          code, w' := ParseTimes(fuel, count, body, w);
        case Forever(body) =>
          code, w' := ParseForever(fuel, body, w);
        case Return(when) =>
          hasToReturn := when(w);
          code := Ok;
        case Call(body) =>
          code, w' := CallFunction(fuel, body, w);
      }
    }

    /** A call of a function: the loop counter starts at zero and comes back, whatever the body left it at. */
    method CallFunction<W>(fuel: nat, body: Block<W>, w: W) returns (code: Code, w': W)
      requires Settled(true) && BlockDigits(body) && BlockNoStray(body)
      modifies this
      ensures Agrees(Called(ExecBlock(fuel, body, 0, w)), code, w', old(loopCount), old(inLoop))
      decreases fuel, body, 1
    {
      var saved := loopCount;
      loopCount := 0;
      BlockNeverLeavesMore(fuel, body, 0, w);
      code, w' := ParseString(fuel, body, w);
      loopCount := saved;
      if loopCount != 0 { inLoop := true; }
      hasToReturn := false;
    }

    /** The statements of a block, until one does not end normally; a return cuts off what is left of it. */
    method ParseString<W>(fuel: nat, b: Block<W>, w: W) returns (code: Code, w': W)
      requires Settled(BlockNoStray(b)) && BlockDigits(b)
      modifies this
      ensures Agrees(ExecBlock(fuel, b, old(loopCount), w), code, w', old(loopCount), old(inLoop))
      decreases fuel, b, 0
    {
      w' := w;
      var left := b;
      while left.Seq?
        invariant Settled(BlockNoStray(left)) && loopCount == old(loopCount) && BlockDigits(left)
        invariant loopCount == 0 && !old(inLoop) ==> !inLoop
        invariant left == b || left < b
        invariant ExecBlock(fuel, b, loopCount, w) == ExecBlock(fuel, left, loopCount, w')
        decreases left
      {
        code, w' := ParseStmt(fuel, left.first, w');
        if code != Ok || hasToReturn {
          return;
        }
        left := left.rest;
      }
      code := Ok;
    }

    /** One loop ends: the flag says whether another encloses it, and a break still under way goes on. */
    method EndLoop(broke: bool) returns (code: Code)
      requires loopCount > 0 && (!broke ==> breakCount == 0)
      modifies `loopCount, `inLoop, `breakCount
      ensures loopCount == old(loopCount) - 1 && inLoop == (loopCount > 0)
      ensures if broke && old(breakCount) > 0 then code == BreakCode && breakCount == old(breakCount) - 1
              else code == Ok && breakCount == 0
    {
      loopCount := loopCount - 1;
      inLoop := loopCount != 0;
      if broke && breakCount != 0 {
        breakCount := breakCount - 1;
        return BreakCode;
      }
      return Ok;
    }

    method ParseWhile<W>(fuel: nat, test: W -> bool, body: Block<W>, w: W) returns (code: Code, w': W)
      requires Settled(true) && BlockDigits(body)
      modifies this
      ensures Agrees(ExecWhile(fuel, test, body, old(loopCount), w), code, w', old(loopCount), old(inLoop))
      decreases fuel, body, 1
    {
      var f: nat := fuel;
      w' := w;
      code := Ok;
      loopCount := loopCount + 1;
      while test(w')
        invariant loopCount == old(loopCount) + 1 && breakCount == 0 && !hasToReturn && f <= fuel
        invariant code == Ok || code == ContinueCode
        invariant ExecWhile(fuel, test, body, old(loopCount), w) == ExecWhile(f, test, body, old(loopCount), w')
        decreases f
      {
        if f == 0 {
          return OutOfFuel, w';
        }
        f := f - 1;
        inLoop := true;
        code, w' := ParseString(f, body, w');
        if code == SyntaxError || code == OutOfFuel {
          return;
        }
        inLoop := false;
        if code == BreakCode {
          break;
        }
        if hasToReturn {
          return Ok, w';
        }
      }
      code := EndLoop(code == BreakCode);
    }

    method ParseTimes<W>(fuel: nat, count: nat, body: Block<W>, w: W) returns (code: Code, w': W)
      requires Settled(true) && BlockDigits(body)
      modifies this
      ensures Agrees(ExecTimes(fuel, count, body, old(loopCount), w), code, w', old(loopCount), old(inLoop))
      decreases fuel, body, count + 1
    {
      var i := 0;
      w' := w;
      code := Ok;
      loopCount := loopCount + 1;
      while i < count
        invariant loopCount == old(loopCount) + 1 && breakCount == 0 && !hasToReturn && i <= count
        invariant code == Ok || code == ContinueCode
        invariant ExecTimes(fuel, count, body, old(loopCount), w)
          == ExecTimes(fuel, count - i, body, old(loopCount), w')
      {
        inLoop := true;
        code, w' := ParseString(fuel, body, w');
        if code == SyntaxError || code == OutOfFuel {
          return;
        }
        inLoop := false;
        if code == BreakCode {
          break;
        }
        if hasToReturn {
          return Ok, w';
        }
        i := i + 1;
      }
      code := EndLoop(code == BreakCode);
    }

    method ParseForever<W>(fuel: nat, body: Block<W>, w: W) returns (code: Code, w': W)
      requires Settled(true) && BlockDigits(body)
      modifies this
      ensures Agrees(ExecWhile(fuel, Always, body, old(loopCount), w), code, w', old(loopCount), old(inLoop))
      decreases fuel, body, 1
    {
      var f: nat := fuel;
      w' := w;
      loopCount := loopCount + 1;
      while true
        invariant loopCount == old(loopCount) + 1 && breakCount == 0 && !hasToReturn && f <= fuel
        invariant ExecWhile(fuel, Always, body, old(loopCount), w) == ExecWhile(f, Always, body, old(loopCount), w')
        decreases f
      {
        if f == 0 {
          return OutOfFuel, w';
        }
        f := f - 1;
        inLoop := true;
        code, w' := ParseString(f, body, w');
        if code == SyntaxError || code == OutOfFuel {
          return;
        }
        inLoop := false;
        if code == BreakCode {
          break;
        }
        if hasToReturn {
          return Ok, w';
        }
      }
      code := EndLoop(true);
    }
  }
}
