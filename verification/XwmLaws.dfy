/** What the window manager's runs guarantee: focus order, independence of desktops, and where a
    destroyed window is found. */
module XwmLaws {
  import opened XwmSpec

  // ----- The focus stack is the history of focusing -----

  /** The window an event gives the focus to on desktop `k`, if any. */
  ghost function FocusedBy(st: State, e: Event, k: nat): seq<int>
    requires Ok(st) && Admissible(st, e)
  {
    var d := st.desks[st.cur];
    match e
    case Map(w) => if k == st.cur && w !in d.list then [w] else []
    case MapOn(w, j, _) => if k == j && w !in d.list then [w] else []
    case FocusNext => if k == st.cur && |d.list| >= 2 then [NextOf(d)] else []
    case FocusPrev => if k == st.cur && |d.list| >= 2 then [PrevOf(d)] else []
    case _ => []
  }

  /** Every focusing on desktop `k` during a run, oldest first. */
  ghost function FocusLog(st: State, es: seq<Event>, k: nat): seq<int>
    requires Ok(st) && AllAdmissible(st, es)
    decreases |es|
  {
    if es == [] then []
    else StepOk(st, es[0]); FocusedBy(st, es[0], k) + FocusLog(Step(st, es[0]), es[1..], k)
  }

  /** The windows still alive, most recently focused first. */
  function Recency(log: seq<int>, alive: set<int>): seq<int> {
    if log == [] then []
    else
      var w, older := log[|log| - 1], log[..|log| - 1];
      if w in alive then [w] + Recency(older, alive - {w}) else Recency(older, alive)
  }

  function Windows(s: seq<int>): set<int> {
    set w | w in s
  }

  lemma {:induction false} RecencyMembers(log: seq<int>, alive: set<int>)
    ensures forall w :: w in Recency(log, alive) ==> w in alive
  {
    if log != [] {
      var w, older := log[|log| - 1], log[..|log| - 1];
      RecencyMembers(older, if w in alive then alive - {w} else alive);
    }
  }

  lemma {:induction false} RecencyWithout(log: seq<int>, alive: set<int>, w: int)
    ensures Recency(log, alive - {w}) == Without(Recency(log, alive), w)
  {
    if log != [] {
      var v, older := log[|log| - 1], log[..|log| - 1];
      if v == w {
        RecencyWithout(older, alive, w);
        assert (alive - {w}) - {w} == alive - {w};
      } else {
        RecencyWithout(older, if v in alive then alive - {v} else alive, w);
        assert (alive - {v}) - {w} == (alive - {w}) - {v};
      }
    }
  }

  lemma RecencySnoc(log: seq<int>, alive: set<int>, w: int)
    ensures Recency(log + [w], alive + {w}) == [w] + Without(Recency(log, alive), w)
  {
    var l := log + [w];
    assert l[..|l| - 1] == log;
    assert (alive + {w}) - {w} == alive - {w};
    RecencyWithout(log, alive, w);
  }

  /** The stack of a desktop agrees with a focus history. */
  predicate Follows(d: Desk, log: seq<int>) {
    d.mru == Recency(log, Windows(d.list))
  }

  lemma PushFollows(d: Desk, log: seq<int>, w: int)
    requires DeskOk(d) && Follows(d, log) && w !in d.list
    ensures Follows(Push(d, w), log + [w])
  {
    RecencySnoc(log, Windows(d.list), w);
    RecencyMembers(log, Windows(d.list));
    assert Windows([w] + d.list) == Windows(d.list) + {w};
  }

  lemma FocusFollows(d: Desk, log: seq<int>, w: int)
    requires DeskOk(d) && Follows(d, log) && w in d.list
    ensures Follows(Focus(d, w), log + [w])
  {
    RecencySnoc(log, Windows(d.list), w);
    assert Windows(d.list) + {w} == Windows(d.list);
  }

  lemma CloseFollows(d: Desk, log: seq<int>, w: int)
    requires DeskOk(d) && Follows(d, log) && w in d.list
    ensures Follows(Close(d, w), log)
  {
    RecencyWithout(log, Windows(d.list), w);
    WithoutMembers(d.list, w);
    assert Windows(Without(d.list, w)) == Windows(d.list) - {w};
  }

  /** A destroyed window is removed from one desktop, or nothing happens. */
  lemma {:induction false} RemoveFirstCases(st: State, v: seq<nat>, w: int) returns (i: nat)
    requires forall i :: 0 <= i < |v| ==> v[i] < |st.desks|
    ensures i <= |v| && forall j :: 0 <= j < i ==> !OnDesk(st, v[j], w)
    ensures i < |v| ==> OnDesk(st, v[i], w) && RemoveFirst(st, v, w) == Remove(st, v[i], w)
    ensures i == |v| ==> RemoveFirst(st, v, w) == st
  {
    if v == [] || OnDesk(st, v[0], w) {
      i := 0;
    } else {
      i := RemoveFirstCases(st, v[1..], w);
      i := i + 1;
    }
  }

  lemma StepFollows(st: State, e: Event, k: nat, log: seq<int>)
    requires Ok(st) && Admissible(st, e) && k < |st.desks| && Follows(st.desks[k], log)
    ensures |Step(st, e).desks| == |st.desks|
    ensures Follows(Step(st, e).desks[k], log + FocusedBy(st, e, k))
  {
    var d := st.desks[k];
    assert log + [] == log;
    match e
    case Map(w) => if k == st.cur && w !in d.list { PushFollows(d, log, w); }
    case MapTransient(w) =>
    case MapOn(w, j, _) =>
      if k == j && w !in st.desks[st.cur].list {
        assert !OnDesk(st, k, w);
        PushFollows(d, log, w);
      }
    case FocusNext => if k == st.cur && |d.list| >= 2 { FocusFollows(d, log, NextOf(d)); }
    case FocusPrev => if k == st.cur && |d.list| >= 2 { FocusFollows(d, log, PrevOf(d)); }
    case Kill =>
      if k == st.cur && d.list != [] {
        FocusedInList(d);
        CloseFollows(d, log, d.mru[0]);
      }
    case Destroy(w) =>
      var v := Visited(st.cur, |st.desks|);
      var i := RemoveFirstCases(st, v, w);
      if i < |v| && v[i] == k && w in d.list { CloseFollows(d, log, w); }
    case Unmap(w) => if k == st.cur && w in d.list { CloseFollows(d, log, w); }
    case SwitchTo(_) =>
    case SetMode(_, _) =>
  }

  lemma Associate(a: seq<int>, b: seq<int>, c: seq<int>)
    ensures (a + b) + c == a + (b + c)
  {
  }

  /** Over any run, the focus stack of every desktop lists exactly its surviving clients, ordered by
      when each was last given the focus. */
  lemma {:induction false} RunFollows(st: State, es: seq<Event>, k: nat, log: seq<int>)
    requires Ok(st) && AllAdmissible(st, es) && k < |st.desks| && Follows(st.desks[k], log)
    ensures |Steps(st, es).desks| == |st.desks|
    ensures Follows(Steps(st, es).desks[k], log + FocusLog(st, es, k))
    decreases |es|
  {
    if es == [] {
      assert log + [] == log;
    } else {
      StepOk(st, es[0]);
      var next, now := Step(st, es[0]), FocusedBy(st, es[0], k);
      assert |next.desks| == |st.desks| && Follows(next.desks[k], log + now) by { StepFollows(st, es[0], k, log); }
      RunFollows(next, es[1..], k, log + now);
      Associate(log, now, FocusLog(next, es[1..], k));
    }
  }

  function Empty(n: nat): State {
    State(seq(n, _ => NO_DESK), 0)
  }

  /** Started empty, the stack is the focus history of the run. */
  lemma FocusHistory(n: nat, es: seq<Event>, k: nat)
    requires k < n && AllAdmissible(Empty(n), es)
    ensures |Steps(Empty(n), es).desks| == n
    ensures var d := Steps(Empty(n), es).desks[k];
            d.mru == Recency(FocusLog(Empty(n), es, k), Windows(d.list))
  {
    assert Windows([]) == {};
    RunFollows(Empty(n), es, k, []);
    assert [] + FocusLog(Empty(n), es, k) == FocusLog(Empty(n), es, k);
  }

  /** Closing the window that has the focus passes it to the one focused most recently before, among
      the survivors; closing another one leaves it where it is. */
  lemma CloseKeepsOrder(d: Desk, w: int)
    requires DeskOk(d) && w in d.list
    ensures DeskOk(Close(d, w))
    ensures w == d.mru[0] ==> Close(d, w).mru == d.mru[1..]
    ensures w != d.mru[0] ==> Close(d, w).mru[0] == d.mru[0]
  {
    FocusedInList(d);
    CloseOk(d, w);
  }

  // ----- Desktops do not disturb each other -----

  /** The event is about desktop `j`. */
  ghost predicate Touches(st: State, e: Event, j: nat) {
    match e
    case Map(_) => j == st.cur
    case MapTransient(_) => j == st.cur
    case MapOn(_, k, _) => j == k
    case Destroy(w) => OnDesk(st, j, w)
    case SwitchTo(_) => false
    case SetMode(k, _) => TakesMode(st, k) && j == k - 1
    case _ => j == st.cur
  }

  lemma StepLeavesAlone(st: State, e: Event, j: nat)
    requires Ok(st) && Admissible(st, e) && j < |st.desks| && !Touches(st, e, j)
    ensures |Step(st, e).desks| == |st.desks| && Step(st, e).desks[j] == st.desks[j]
  {
    if e.Destroy? {
      var i := RemoveFirstCases(st, Visited(st.cur, |st.desks|), e.win);
    }
  }

  ghost predicate RunTouches(st: State, es: seq<Event>, j: nat)
    requires Ok(st) && AllAdmissible(st, es)
    decreases |es|
  {
    es != [] && (Touches(st, es[0], j) || (StepOk(st, es[0]); RunTouches(Step(st, es[0]), es[1..], j)))
  }

  /** A desktop a run does not touch is, after any amount of switching, what it was. */
  lemma {:induction false} RunLeavesAlone(st: State, es: seq<Event>, j: nat)
    requires Ok(st) && AllAdmissible(st, es) && j < |st.desks| && !RunTouches(st, es, j)
    ensures |Steps(st, es).desks| == |st.desks| && Steps(st, es).desks[j] == st.desks[j]
    decreases |es|
  {
    if es != [] {
      StepOk(st, es[0]);
      StepLeavesAlone(st, es[0], j);
      RunLeavesAlone(Step(st, es[0]), es[1..], j);
    }
  }

  // ----- Destroyed windows -----

  /** A destroyed window is forgotten exactly when its desktop is the first or not below the selected one. */
  lemma DestroyFindsIff(st: State, k: nat, w: int)
    requires Ok(st) && OnDesk(st, k, w)
    ensures !Managed(Step(st, Destroy(w)), w) <==> k == 0 || k >= st.cur
    ensures k != 0 && k < st.cur ==> Step(st, Destroy(w)) == st
  {
    var n := |st.desks|;
    var v := Visited(st.cur, n);
    assert k >= st.cur ==> v[k - st.cur] == k;
    assert k == 0 && st.cur > 0 ==> v[n - st.cur] == 0;
    var i := RemoveFirstCases(st, v, w);
    if i < |v| {
      assert v[i] == k;
      RemoveForgets(st, k, w);
    } else {
      assert OnDesk(Step(st, Destroy(w)), k, w);
    }
  }

  lemma RemoveForgets(st: State, k: nat, w: int)
    requires Ok(st) && OnDesk(st, k, w)
    ensures !Managed(Remove(st, k, w), w)
  {
    var d := st.desks[k];
    if w in d.list { WithoutMembers(d.list, w); } else { WithoutMembers(d.trans, w); }
    var after := Remove(st, k, w);
    forall j ensures !OnDesk(after, j, w) {
      if j != k && OnDesk(after, j, w) { assert OnDesk(st, j, w); }
    }
  }

  /** With the third desktop selected, a window destroyed on the second one stays listed. */
  lemma DestroyMissesExample()
    ensures var st := State([NO_DESK, NO_DESK.(list := [7], mru := [7]), NO_DESK], 2);
            Ok(st) && Step(st, Destroy(7)) == st
  {
    var st := State([NO_DESK, NO_DESK.(list := [7], mru := [7]), NO_DESK], 2);
    assert OnDesk(st, 1, 7);
    DestroyFindsIff(st, 1, 7);
  }

  // ----- Mapping and unmapping -----

  /** The parts of a desktop that windows make up. */
  predicate SameWindows(d: Desk, e: Desk) { d.list == e.list && d.mru == e.mru && d.trans == e.trans }

  lemma NotOnDesk(st: State, k: nat, w: int)
    requires Ok(st) && k < |st.desks| && !Managed(st, w)
    ensures w !in st.desks[k].list && w !in st.desks[k].mru && w !in st.desks[k].trans
  {
    assert !OnDesk(st, k, w);
    var d := st.desks[k];
    assert multiset(d.mru)[w] == multiset(d.list)[w] == 0;
  }

  lemma WithoutFirst(w: int, s: seq<int>)
    ensures Without([w] + s, w) == s
  {
    assert ([w] + s)[1..] == s;
  }

  /** A new window comes first in its list: a client gets the focus, a transient one does not; a desktop named by an
      entry is selected if that says so, and no other desktop changes. */
  lemma MapPlaces(st: State, w: int, k: nat, follow: bool)
    requires Ok(st) && !Managed(st, w) && k < |st.desks|
    ensures var e, d := Step(st, Map(w)), st.desks[st.cur];
      && e.desks[st.cur].list == [w] + d.list && e.desks[st.cur].mru == [w] + d.mru && e.desks[st.cur].trans == d.trans
      && e.cur == st.cur && (forall j :: 0 <= j < |st.desks| && j != st.cur ==> e.desks[j] == st.desks[j])
    ensures var e, d := Step(st, MapTransient(w)), st.desks[st.cur];
      && e.desks[st.cur] == d.(trans := [w] + d.trans)
      && e.cur == st.cur && (forall j :: 0 <= j < |st.desks| && j != st.cur ==> e.desks[j] == st.desks[j])
    ensures var e, d := Step(st, MapOn(w, k, follow)), st.desks[k];
      && e.desks[k].list == [w] + d.list && e.desks[k].mru == [w] + d.mru && e.desks[k].trans == d.trans
      && (follow ==> e.cur == k) && (!follow ==> e.cur == st.cur)
      && (forall j :: 0 <= j < |st.desks| && j != k ==> e.desks[j] == st.desks[j])
  {
    NotOnDesk(st, st.cur, w);
  }

  /** Unmapping or destroying a client that was just mapped, or destroying a transient one, brings every list and
      stack back; unmapping does not look at transients. */
  lemma UnmapUndoesMap(st: State, w: int)
    requires Ok(st) && !Managed(st, w)
    ensures var m := Step(st, Map(w));
      Ok(m) && SameWindows(Step(m, Unmap(w)).desks[st.cur], st.desks[st.cur])
      && SameWindows(Step(m, Destroy(w)).desks[st.cur], st.desks[st.cur])
    ensures var m := Step(st, MapTransient(w));
      Ok(m) && SameWindows(Step(m, Destroy(w)).desks[st.cur], st.desks[st.cur]) && Step(m, Unmap(w)) == m
  {
    NotOnDesk(st, st.cur, w);
    StepOk(st, Map(w));
    StepOk(st, MapTransient(w));
    var d := st.desks[st.cur];
    WithoutFirst(w, d.list);
    WithoutFirst(w, d.mru);
    WithoutFirst(w, d.trans);
    DestroysHere(Step(st, Map(w)), w);
    DestroysHere(Step(st, MapTransient(w)), w);
  }

  lemma DestroysHere(st: State, w: int)
    requires Ok(st) && OnDesk(st, st.cur, w)
    ensures Step(st, Destroy(w)) == Remove(st, st.cur, w)
  {
    var v := Visited(st.cur, |st.desks|);
    assert v[0] == st.cur;
  }

  // ----- Mode and growth -----

  /** With one window more the growth is scaled down by as many as there were to as many as there are, rounded down, and
      none is left of one that is not positive; when fewer than three windows are left it is gone. */
  lemma GrowthShared(d: Desk, w: int, v: int)
    requires v in d.list
    ensures var n, g := |d.list| + 1, Push(d, w).growth;
      if d.growth <= 0 then g == 0 else g * n <= d.growth * (n - 1) < (g + 1) * n
    ensures |Close(d, v).list| == |d.list| - 1
    ensures Close(d, v).growth == if |d.list| <= 3 then 0 else d.growth
    ensures PushTransient(d, w).growth == d.growth && CloseTransient(d, w).growth == d.growth
    ensures Push(d, w).mode == d.mode && Close(d, v).mode == d.mode
  {
    Shorter(d.list, v);
    var n := |d.list| + 1;
    if d.growth > 0 { Quotient(d.growth * (n - 1), n); }
  }

  lemma Quotient(a: int, n: nat)
    requires n > 0
    ensures a / n * n <= a < (a / n + 1) * n
  {
  }

  lemma {:induction false} Shorter(s: seq<int>, w: int)
    requires w in s
    ensures |Without(s, w)| == |s| - 1
  {
    if s[0] != w { Shorter(s[1..], w); }
  }

  /** Setting a mode changes the mode of the desktop with that number and nothing else, and nothing at all when it is
      the selected one, the last one, or there is none. */
  lemma SetModeOnly(st: State, number: int, mode: int)
    requires Ok(st)
    ensures var e := Step(st, SetMode(number, mode));
      && e.cur == st.cur && |e.desks| == |st.desks|
      && forall j :: 0 <= j < |st.desks| ==>
           e.desks[j] == if j + 1 == number && j != st.cur && j + 1 < |st.desks| then st.desks[j].(mode := mode)
                         else st.desks[j]
  {
  }
}
