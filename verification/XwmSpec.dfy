/** Desktops of the window manager as values: window lists, focus stacks, and what each event does. */
module XwmSpec {

  /** `list` is the client list from its head, `mru` the windows from the most to the least recently
      focused one, `trans` the list of transient windows; `mode` and `growth` say how they are laid out. */
  datatype Desk = Desk(list: seq<int>, mru: seq<int>, trans: seq<int>, mode: int, growth: int)

  const DEFAULT_MODE: int := 0

  const NO_DESK: Desk := Desk([], [], [], DEFAULT_MODE, 0)

  datatype State = State(desks: seq<Desk>, cur: nat)

  datatype Event =
    | Map(win: int)
    | MapTransient(win: int)
    | MapOn(win: int, desk: nat, follow: bool)
    | FocusNext
    | FocusPrev
    | Kill
    | Destroy(win: int)
    | Unmap(win: int)
    | SwitchTo(desk: nat)
    | SetMode(number: int, mode: int)

  // ----- Sequences without repetition -----

  predicate NoDup(s: seq<int>) {
    forall i, j :: 0 <= i < j < |s| ==> s[i] != s[j]
  }

  function Without(s: seq<int>, w: int): (r: seq<int>)
    ensures w !in s ==> r == s
    ensures forall v :: v in r ==> v in s
  {
    if s == [] then [] else if s[0] == w then s[1..] else [s[0]] + Without(s[1..], w)
  }

  function IndexOf(s: seq<int>, w: int): (k: nat)
    requires w in s
    ensures k < |s| && s[k] == w
  {
    if s[0] == w then 0 else 1 + IndexOf(s[1..], w)
  }

  lemma {:induction false} WithoutAt(s: seq<int>, k: nat)
    requires NoDup(s) && k < |s|
    ensures Without(s, s[k]) == s[..k] + s[k + 1..]
  {
    if k > 0 {
      WithoutAt(s[1..], k - 1);
      assert s[1..][k - 1] == s[k];
      assert s[..k] + s[k + 1..] == [s[0]] + (s[1..][..k - 1] + s[1..][k..]);
    }
  }

  lemma {:induction false} WithoutMultiset(s: seq<int>, w: int)
    requires w in s
    ensures multiset(Without(s, w)) == multiset(s) - multiset{w}
  {
    assert s == [s[0]] + s[1..];
    if s[0] != w { WithoutMultiset(s[1..], w); }
  }

  lemma {:induction false} WithoutMembers(s: seq<int>, w: int)
    requires NoDup(s) && w in s
    ensures NoDup(Without(s, w)) && |Without(s, w)| == |s| - 1
    ensures forall v :: v in Without(s, w) <==> v in s && v != w
  {
    if s[0] != w {
      WithoutMembers(s[1..], w);
      assert s == [s[0]] + s[1..];
      var r := Without(s[1..], w);
      assert s[0] !in r;
    }
  }

  // ----- One desktop -----

  /** Both lists hold each window once, and the focus stack is a permutation of the client list. */
  ghost predicate DeskOk(d: Desk) {
    && NoDup(d.list) && NoDup(d.mru) && NoDup(d.trans)
    && multiset(d.mru) == multiset(d.list)
    && (forall w :: w in d.list ==> w !in d.trans)
  }

  /** The growth a desktop has left when it has one window more, `n` in all. */
  function Grown(growth: int, n: nat): int
    requires n > 0
  {
    if growth > 0 then growth * (n - 1) / n else 0
  }

  function Push(d: Desk, w: int): Desk {
    d.(list := [w] + d.list, mru := [w] + d.mru, growth := Grown(d.growth, |d.list| + 1))
  }

  function PushTransient(d: Desk, w: int): Desk { d.(trans := [w] + d.trans) }

  function Focus(d: Desk, w: int): Desk { d.(mru := [w] + Without(d.mru, w)) }

  function Close(d: Desk, w: int): Desk {
    var list := Without(d.list, w);
    d.(list := list, mru := Without(d.mru, w), growth := if |list| < 3 then 0 else d.growth)
  }

  function CloseTransient(d: Desk, w: int): Desk { d.(trans := Without(d.trans, w)) }

  lemma FocusedInList(d: Desk)
    requires DeskOk(d) && d.list != []
    ensures d.mru != [] && d.mru[0] in d.list
  {
    assert |multiset(d.mru)| == |multiset(d.list)|;
    assert d.mru[0] in multiset(d.list);
  }

  /** The client after the focused one, around the end of the list. */
  function NextOf(d: Desk): (w: int)
    requires DeskOk(d) && d.list != []
    ensures w in d.list
  {
    FocusedInList(d);
    d.list[(IndexOf(d.list, d.mru[0]) + 1) % |d.list|]
  }

  function PrevOf(d: Desk): (w: int)
    requires DeskOk(d) && d.list != []
    ensures w in d.list
  {
    FocusedInList(d);
    var k := IndexOf(d.list, d.mru[0]);
    d.list[if k == 0 then |d.list| - 1 else k - 1]
  }

  lemma NextAt(d: Desk, k: nat)
    requires DeskOk(d) && d.list != [] && d.mru != [] && k < |d.list| && d.list[k] == d.mru[0]
    ensures NextOf(d) == d.list[if k + 1 == |d.list| then 0 else k + 1]
  {
    assert IndexOf(d.list, d.mru[0]) == k;
    NextIndex(k, |d.list|);
  }

  lemma NextIndex(k: nat, n: nat)
    requires k < n
    ensures (k + 1) % n == if k + 1 == n then 0 else k + 1
  {
  }

  lemma IndexUnique(s: seq<int>, k: nat)
    requires NoDup(s) && k < |s|
    ensures IndexOf(s, s[k]) == k
  {
    assert s[IndexOf(s, s[k])] == s[k];
  }

  lemma PrevAt(d: Desk, k: nat)
    requires DeskOk(d) && d.list != [] && d.mru != [] && k < |d.list| && d.list[k] == d.mru[0]
    ensures PrevOf(d) == d.list[if k == 0 then |d.list| - 1 else k - 1]
  {
    IndexUnique(d.list, k);
  }

  /** Each of the two commands undoes the other: the focus is back where it was. */
  lemma NextUndoesPrev(d: Desk)
    requires DeskOk(d) && d.list != []
    ensures d.mru != []
    ensures var e := Focus(d, PrevOf(d)); DeskOk(e) && e.list == d.list && NextOf(e) == d.mru[0]
    ensures var e := Focus(d, NextOf(d)); DeskOk(e) && e.list == d.list && PrevOf(e) == d.mru[0]
  {
    FocusedInList(d);
    var k := IndexOf(d.list, d.mru[0]);
    NextAfterPrev(d, k);
    PrevAfterNext(d, k);
  }

  lemma NextAfterPrev(d: Desk, k: nat)
    requires DeskOk(d) && d.list != [] && d.mru != [] && k < |d.list| && d.list[k] == d.mru[0]
    ensures var e := Focus(d, PrevOf(d)); DeskOk(e) && e.list == d.list && NextOf(e) == d.mru[0]
  {
    PrevAt(d, k);
    FocusOk(d, PrevOf(d));
    NextAt(Focus(d, PrevOf(d)), if k == 0 then |d.list| - 1 else k - 1);
  }

  lemma PrevAfterNext(d: Desk, k: nat)
    requires DeskOk(d) && d.list != [] && d.mru != [] && k < |d.list| && d.list[k] == d.mru[0]
    ensures var e := Focus(d, NextOf(d)); DeskOk(e) && e.list == d.list && PrevOf(e) == d.mru[0]
  {
    NextAt(d, k);
    FocusOk(d, NextOf(d));
    PrevAt(Focus(d, NextOf(d)), if k + 1 == |d.list| then 0 else k + 1);
  }

  /** The focus goes down the list and around its end, or up and around its beginning. */
  lemma NeighboursOf(d: Desk, k: nat)
    requires DeskOk(d) && k < |d.list| && d.mru != [] && d.mru[0] == d.list[k]
    ensures k + 1 < |d.list| ==> NextOf(d) == d.list[k + 1]
    ensures k + 1 == |d.list| ==> NextOf(d) == d.list[0]
    ensures k > 0 ==> PrevOf(d) == d.list[k - 1]
    ensures k == 0 ==> PrevOf(d) == d.list[|d.list| - 1]
  {
    NextAt(d, k);
    PrevAt(d, k);
  }

  // ----- The whole screen -----

  predicate OnDesk(st: State, k: nat, w: int) {
    k < |st.desks| && (w in st.desks[k].list || w in st.desks[k].trans)
  }

  ghost predicate Managed(st: State, w: int) {
    exists k :: OnDesk(st, k, w)
  }

  /** Desktops own disjoint sets of windows. */
  ghost predicate Ok(st: State) {
    && st.cur < |st.desks|
    && (forall k :: 0 <= k < |st.desks| ==> DeskOk(st.desks[k]))
    && (forall w, j, k :: OnDesk(st, j, w) && OnDesk(st, k, w) ==> j == k)
  }

  function Update(st: State, k: nat, d: Desk): State
    requires k < |st.desks|
  {
    st.(desks := st.desks[k := d])
  }

  /** The desktops `xwm_destroynotify` looks at: from the selected one up, and then the first. */
  function Visited(cur: nat, n: nat): (v: seq<nat>)
    requires cur < n
    ensures |v| == n - cur + (if n > 1 then 1 else 0)
    ensures forall i :: 0 <= i < |v| ==> v[i] == if i < n - cur then cur + i else 0
  {
    seq(n - cur, i requires 0 <= i < n - cur => cur + i) + if n > 1 then [0] else []
  }

  /** Before turn `i` of the loop the selected desktop is the one visited last. */
  predicate SelectedAt(cur: nat, n: nat, i: nat, selected: nat)
    requires cur < n
  {
    && cur <= i && i - cur <= |Visited(cur, n)|
    && selected == if i == cur then cur else Visited(cur, n)[i - cur - 1]
  }

  /** The loop of `xwm_destroynotify` selects the visited desktops in turn ... */
  lemma VisitedAt(cur: nat, n: nat, i: nat, selected: nat)
    requires cur < n && SelectedAt(cur, n, i, selected) && i < selected + n
    ensures i - cur < |Visited(cur, n)| && Visited(cur, n)[i - cur] == i % n
  {
    if i < n { assert i % n == i; } else { assert i == n && i % n == 0; }
  }

  /** ... and its moving bound stops it after the last of them. */
  lemma GuardEnds(cur: nat, n: nat, i: nat, selected: nat)
    requires cur < n && SelectedAt(cur, n, i, selected) && i >= selected + n
    ensures i - cur == |Visited(cur, n)|
  {
  }

  function Remove(st: State, k: nat, w: int): State
    requires k < |st.desks|
  {
    Update(st, k, if w in st.desks[k].list then Close(st.desks[k], w) else CloseTransient(st.desks[k], w))
  }

  /** Remove the window from the first of the given desktops that holds it. */
  function RemoveFirst(st: State, v: seq<nat>, w: int): State
    requires forall i :: 0 <= i < |v| ==> v[i] < |st.desks|
  {
    if v == [] then st
    else if OnDesk(st, v[0], w) then Remove(st, v[0], w)
    else RemoveFirst(st, v[1..], w)
  }

  /** Map requests come from unmanaged windows, and desktops exist. */
  ghost predicate Admissible(st: State, e: Event) {
    match e
    case Map(w) => st.cur < |st.desks| && (w in st.desks[st.cur].list || !Managed(st, w))
    case MapTransient(w) => st.cur < |st.desks| && (w in st.desks[st.cur].list || !Managed(st, w))
    case MapOn(w, k, _) => st.cur < |st.desks| && k < |st.desks| && (w in st.desks[st.cur].list || !Managed(st, w))
    case SwitchTo(k) => k < |st.desks|
    case _ => true
  }

  function Step(st: State, e: Event): State
    requires Ok(st) && Admissible(st, e)
  {
    var d := st.desks[st.cur];
    match e
    case Map(w) => if w in d.list then st else Update(st, st.cur, Push(d, w))
    case MapTransient(w) => if w in d.list then st else Update(st, st.cur, PushTransient(d, w))
    case MapOn(w, k, follow) =>
      if w in d.list then st
      else Update(st, k, Push(st.desks[k], w)).(cur := if follow then k else st.cur)
    case FocusNext => if |d.list| < 2 then st else Update(st, st.cur, Focus(d, NextOf(d)))
    case FocusPrev => if |d.list| < 2 then st else Update(st, st.cur, Focus(d, PrevOf(d)))
    case Kill => if d.list == [] then st else Update(st, st.cur, Close(d, d.mru[0]))
    case Destroy(w) => RemoveFirst(st, Visited(st.cur, |st.desks|), w)
    case Unmap(w) => if w in d.list then Update(st, st.cur, Close(d, w)) else st
    case SwitchTo(k) => st.(cur := k)
    case SetMode(k, mode) => if TakesMode(st, k) then Update(st, k - 1, st.desks[k - 1].(mode := mode)) else st
  }

  /** Desktops are numbered from 1, the last one has no number, and the selected one keeps its mode. */
  predicate TakesMode(st: State, k: int) { 1 <= k < |st.desks| && k - 1 != st.cur }

  /** Whatever desktop is selected, the next visit either removes the window or leaves the rest to do. */
  lemma RemoveFirstStep(st: State, v: seq<nat>, w: int, selected: nat)
    requires v != [] && forall j :: 0 <= j < |v| ==> v[j] < |st.desks|
    ensures var now := st.(cur := selected);
      RemoveFirst(st, v, w)
      == if OnDesk(now, v[0], w) then Remove(now, v[0], w).(cur := st.cur) else RemoveFirst(st, v[1..], w)
  {
  }

  // ----- Runs -----

  lemma PushOk(d: Desk, w: int)
    requires DeskOk(d) && w !in d.list && w !in d.trans
    ensures DeskOk(Push(d, w)) && DeskOk(PushTransient(d, w))
  {
    assert w !in multiset(d.list);
    assert w !in d.mru;
  }

  lemma FocusOk(d: Desk, w: int)
    requires DeskOk(d) && w in d.list
    ensures DeskOk(Focus(d, w))
  {
    assert w in multiset(d.mru);
    WithoutMembers(d.mru, w);
    WithoutMultiset(d.mru, w);
  }

  lemma CloseOk(d: Desk, w: int)
    requires DeskOk(d)
    ensures w in d.list ==> DeskOk(Close(d, w))
    ensures w in d.trans ==> DeskOk(CloseTransient(d, w))
  {
    if w in d.list {
      assert w in multiset(d.mru);
      WithoutMembers(d.list, w);
      WithoutMultiset(d.list, w);
      WithoutMembers(d.mru, w);
      WithoutMultiset(d.mru, w);
    }
    if w in d.trans { WithoutMembers(d.trans, w); }
  }

  /** Replacing a desktop by one that holds no window of another desktop keeps the screen in order. */
  lemma UpdateOk(st: State, k: nat, d: Desk)
    requires Ok(st) && k < |st.desks| && DeskOk(d)
    requires forall w :: w in d.list || w in d.trans ==> OnDesk(st, k, w) || !Managed(st, w)
    ensures Ok(Update(st, k, d))
  {
    var after := Update(st, k, d);
    forall w, i, j | OnDesk(after, i, w) && OnDesk(after, j, w) ensures i == j {
      assert i != k ==> OnDesk(st, i, w);
      assert j != k ==> OnDesk(st, j, w);
    }
  }

  lemma RemoveOk(st: State, k: nat, w: int)
    requires Ok(st) && OnDesk(st, k, w)
    ensures Ok(Remove(st, k, w))
  {
    CloseOk(st.desks[k], w);
    var d := if w in st.desks[k].list then Close(st.desks[k], w) else CloseTransient(st.desks[k], w);
    UpdateOk(st, k, d);
  }

  lemma {:induction false} RemoveFirstOk(st: State, v: seq<nat>, w: int)
    requires Ok(st) && forall i :: 0 <= i < |v| ==> v[i] < |st.desks|
    ensures Ok(RemoveFirst(st, v, w)) && RemoveFirst(st, v, w).cur == st.cur
  {
    if v != [] {
      if OnDesk(st, v[0], w) { RemoveOk(st, v[0], w); } else { RemoveFirstOk(st, v[1..], w); }
    }
  }

  /** Every event keeps each list free of duplicates, each focus stack a permutation of its list, and
      the desktops disjoint. */
  lemma StepOk(st: State, e: Event)
    requires Ok(st) && Admissible(st, e)
    ensures Ok(Step(st, e))
  {
    var d := st.desks[st.cur];
    match e
    case Map(w) =>
      if w !in d.list { PushStepOk(st, st.cur, w); }
    case MapTransient(w) =>
      if w !in d.list { PushStepOk(st, st.cur, w); }
    case MapOn(w, k, follow) =>
      if w !in d.list { PushStepOk(st, k, w); }
    case FocusNext =>
      if |d.list| >= 2 { FocusOk(d, NextOf(d)); UpdateOk(st, st.cur, Focus(d, NextOf(d))); }
    case FocusPrev =>
      if |d.list| >= 2 { FocusOk(d, PrevOf(d)); UpdateOk(st, st.cur, Focus(d, PrevOf(d))); }
    case Kill =>
      if d.list != [] {
        FocusedInList(d);
        CloseOk(d, d.mru[0]);
        UpdateOk(st, st.cur, Close(d, d.mru[0]));
      }
    case Destroy(w) => RemoveFirstOk(st, Visited(st.cur, |st.desks|), w);
    case Unmap(w) =>
      if w in d.list { CloseOk(d, w); UpdateOk(st, st.cur, Close(d, w)); }
    case SwitchTo(k) =>
      assert forall w, j :: OnDesk(st.(cur := k), j, w) <==> OnDesk(st, j, w);
    case SetMode(k, mode) =>
      if TakesMode(st, k) {
        var e := st.desks[k - 1].(mode := mode);
        assert DeskOk(e);
        assert forall w :: w in e.list || w in e.trans ==> OnDesk(st, k - 1, w);
        UpdateOk(st, k - 1, e);
      }
  }

  lemma PushStepOk(st: State, k: nat, w: int)
    requires Ok(st) && k < |st.desks| && !Managed(st, w)
    ensures Ok(Update(st, k, Push(st.desks[k], w))) && Ok(Update(st, k, PushTransient(st.desks[k], w)))
    ensures forall c: nat :: c < |st.desks| ==> Ok(Update(st, k, Push(st.desks[k], w)).(cur := c))
  {
    var d := st.desks[k];
    assert !OnDesk(st, k, w);
    PushOk(d, w);
    UpdateOk(st, k, Push(d, w));
    UpdateOk(st, k, PushTransient(d, w));
    var after := Update(st, k, Push(d, w));
    forall c: nat | c < |st.desks| ensures Ok(after.(cur := c)) {
      assert forall v, j :: OnDesk(after.(cur := c), j, v) <==> OnDesk(after, j, v);
    }
  }

  /** Mapping a window keeps the screen in order exactly when it is on no desktop: only the client list of
      the selected desktop is searched for it. */
  lemma MapKeepsOrderIff(st: State, k: nat, w: int)
    requires Ok(st) && k < |st.desks|
    ensures Ok(Update(st, k, Push(st.desks[k], w))) <==> !Managed(st, w)
    ensures Ok(Update(st, k, PushTransient(st.desks[k], w))) <==> !Managed(st, w)
  {
    if Managed(st, w) {
      var j :| OnDesk(st, j, w);
      NotTwice(st, k, j, w, Push(st.desks[k], w));
      NotTwice(st, k, j, w, PushTransient(st.desks[k], w));
    } else {
      PushStepOk(st, k, w);
    }
  }

  lemma NotTwice(st: State, k: nat, j: nat, w: int, d: Desk)
    requires Ok(st) && k < |st.desks| && OnDesk(st, j, w)
    requires d == Push(st.desks[k], w) || d == PushTransient(st.desks[k], w)
    ensures !Ok(Update(st, k, d))
  {
    var after := Update(st, k, d);
    var list, trans := st.desks[k].list, st.desks[k].trans;
    assert after.desks[k] == d;
    assert OnDesk(after, k, w) by { assert ([w] + list)[0] == w && ([w] + trans)[0] == w; }
    if j != k {
      assert after.desks[j] == st.desks[j] && OnDesk(after, j, w);
    } else {
      if w in list { Doubled(w, list); }
      if w in trans { Doubled(w, trans); }
      assert !DeskOk(d);
    }
  }

  lemma Doubled(w: int, s: seq<int>)
    requires w in s
    ensures !NoDup([w] + s)
  {
    var i :| 0 <= i < |s| && s[i] == w;
    assert ([w] + s)[0] == ([w] + s)[i + 1];
  }

  ghost predicate AllAdmissible(st: State, es: seq<Event>)
    requires Ok(st)
    decreases |es|
  {
    es == [] || (Admissible(st, es[0]) && (StepOk(st, es[0]); AllAdmissible(Step(st, es[0]), es[1..])))
  }

  ghost function Steps(st: State, es: seq<Event>): (r: State)
    requires Ok(st) && AllAdmissible(st, es)
    ensures Ok(r)
    decreases |es|
  {
    if es == [] then st else StepOk(st, es[0]); Steps(Step(st, es[0]), es[1..])
  }
}
