/** The window manager's state as the program keeps it: doubly linked client lists, live registers for
    the selected desktop, and a saved record for every other one.  Each method is tied to `XwmSpec`. */
module Xwm {
  import opened XwmSpec

  class Client {
    const win: int
    var order: int
    var next: Client?
    var prev: Client?

    constructor (win: int)
      ensures this.win == win && order == 0 && next == null && prev == null
    {
      this.win, order, next, prev := win, 0, null, null;
    }
  }

  /** The part of a desktop record that the registers stand in for. */
  datatype Saved = Saved(numwins: int, mode: int, growth: int, head: Client?, current: Client?, transient: Client?)

  const BLANK: Saved := Saved(0, DEFAULT_MODE, 0, null, null, null)

  type Cells = map<int, Client>

  ghost predicate Named(nodes: Cells) {
    forall w {:trigger nodes[w]} :: w in nodes ==> nodes[w].win == w
  }

  ghost predicate Known(nodes: Cells, s: seq<int>) {
    forall i :: 0 <= i < |s| ==> s[i] in nodes
  }

  /** The client at an index, and null before and after the ends. */
  ghost function At(nodes: Cells, s: seq<int>, i: int): Client? {
    if 0 <= i < |s| && s[i] in nodes then nodes[s[i]] else null
  }

  /** The clients of `s`, in this order, form a well-formed doubly linked list. */
  ghost predicate Linked(nodes: Cells, s: seq<int>)
    reads nodes.Values`prev, nodes.Values`next
  {
    && Known(nodes, s) && NoDup(s)
    && (forall i {:trigger nodes[s[i]].prev} :: 0 <= i < |s| ==> nodes[s[i]].prev == At(nodes, s, i - 1))
    && (forall i {:trigger nodes[s[i]].next} :: 0 <= i < |s| ==> nodes[s[i]].next == At(nodes, s, i + 1))
  }

  /** Each client's recency number is its place in the focus stack. */
  ghost predicate Ranked(nodes: Cells, s: seq<int>, mru: seq<int>)
    reads nodes.Values`order
  {
    && Known(nodes, mru) && multiset(mru) == multiset(s)
    && forall j {:trigger nodes[mru[j]].order} :: 0 <= j < |mru| ==> nodes[mru[j]].order == j
  }

  lemma RankedNoDup(nodes: Cells, s: seq<int>, mru: seq<int>)
    requires Ranked(nodes, s, mru)
    ensures NoDup(mru)
  {
    assert forall j :: 0 <= j < |mru| ==> nodes[mru[j]].order == j;
  }

  lemma SameMembers(s: seq<int>, t: seq<int>, w: int)
    requires multiset(s) == multiset(t) && w in s
    ensures w in t
  {
    assert w in multiset(t);
  }

  lemma TopOfStack(s: seq<int>, mru: seq<int>)
    requires multiset(mru) == multiset(s) && s != []
    ensures mru != [] && mru[0] in s
  {
    assert |multiset(mru)| == |multiset(s)|;
    SameMembers(mru, s, mru[0]);
  }

  /** Focusing the window that has the focus changes nothing. */
  lemma FocusTop(st: State)
    requires st.cur < |st.desks| && st.desks[st.cur].mru != []
    ensures Update(st, st.cur, Focus(st.desks[st.cur], st.desks[st.cur].mru[0])) == st
  {
    var d := st.desks[st.cur];
    assert [d.mru[0]] + d.mru[1..] == d.mru;
    assert st.desks[st.cur := d] == st.desks;
  }

  /** Which list a window is in: `2k` for the clients of desktop k, `2k + 1` for its transients. */
  type Homes = map<int, int>

  ghost predicate Placed(homes: Homes, s: seq<int>, home: int) {
    forall i :: 0 <= i < |s| ==> s[i] in homes && homes[s[i]] == home
  }

  ghost predicate AllLinked(nodes: Cells, desks: seq<Desk>)
    reads nodes.Values`prev, nodes.Values`next
  {
    forall k :: 0 <= k < |desks| ==> Linked(nodes, desks[k].list) && Linked(nodes, desks[k].trans)
  }

  ghost predicate AllRanked(nodes: Cells, desks: seq<Desk>)
    reads nodes.Values`order
  {
    forall k :: 0 <= k < |desks| ==> Ranked(nodes, desks[k].list, desks[k].mru)
  }

  /** The transient list or the client list of a desktop. */
  ghost function ListOf(d: Desk, tw: bool): seq<int> {
    if tw then d.trans else d.list
  }

  ghost function PushOn(d: Desk, tw: bool, w: int): Desk {
    if tw then PushTransient(d, w) else Push(d, w)
  }

  ghost function CloseOn(d: Desk, tw: bool, w: int): Desk {
    if tw then CloseTransient(d, w) else Close(d, w)
  }

  ghost predicate AllPlaced(homes: Homes, desks: seq<Desk>) {
    forall k :: 0 <= k < |desks| ==>
      && Placed(homes, desks[k].list, 2 * k)
      && Placed(homes, desks[k].mru, 2 * k)
      && Placed(homes, desks[k].trans, 2 * k + 1)
  }

  /** The window is on no desktop. */
  ghost predicate Unused(desks: seq<Desk>, w: int) {
    forall k :: 0 <= k < |desks| ==> w !in desks[k].list && w !in desks[k].mru && w !in desks[k].trans
  }

  lemma LinkedExtend(nodes: Cells, s: seq<int>, c: Client)
    requires Linked(nodes, s) && c.win !in s
    ensures Linked(nodes[c.win := c], s)
  {
    var after := nodes[c.win := c];
    assert forall i :: 0 <= i < |s| ==> s[i] in after && after[s[i]] == nodes[s[i]];
    assert forall i :: At(after, s, i) == At(nodes, s, i);
  }

  lemma AdoptLinked(nodes: Cells, desks: seq<Desk>, c: Client)
    requires AllLinked(nodes, desks) && Unused(desks, c.win)
    ensures AllLinked(nodes[c.win := c], desks)
  {
    forall k | 0 <= k < |desks|
      ensures Linked(nodes[c.win := c], desks[k].list) && Linked(nodes[c.win := c], desks[k].trans)
    {
      LinkedExtend(nodes, desks[k].list, c);
      LinkedExtend(nodes, desks[k].trans, c);
    }
  }

  lemma AdoptRanked(nodes: Cells, desks: seq<Desk>, c: Client)
    requires AllRanked(nodes, desks) && Unused(desks, c.win)
    ensures AllRanked(nodes[c.win := c], desks)
  {
    forall k | 0 <= k < |desks| ensures Ranked(nodes[c.win := c], desks[k].list, desks[k].mru) {
      assert Ranked(nodes, desks[k].list, desks[k].mru);
    }
  }

  lemma AdoptPlaced(homes: Homes, desks: seq<Desk>, w: int, home: int)
    requires AllPlaced(homes, desks) && Unused(desks, w)
    ensures AllPlaced(homes[w := home], desks)
  {
  }

  lemma AdoptRecords(nodes: Cells, desks: seq<Desk>, c: Client)
    requires Unused(desks, c.win)
    ensures forall k :: 0 <= k < |desks| ==> RecordOf(nodes[c.win := c], desks[k]) == RecordOf(nodes, desks[k])
  {
  }

  lemma PlacedWithout(homes: Homes, s: seq<int>, home: int, w: int)
    requires Placed(homes, s, home)
    ensures Placed(homes, Without(s, w), home)
  {
    var r := Without(s, w);
    forall i | 0 <= i < |r| ensures r[i] in homes && homes[r[i]] == home {
      assert r[i] in s;
    }
  }

  lemma ClosePlaced(homes: Homes, desks: seq<Desk>, cur: nat, tw: bool, w: int)
    requires cur < |desks| && AllPlaced(homes, desks)
    ensures AllPlaced(homes, desks[cur := CloseOn(desks[cur], tw, w)])
  {
    PlacedWithout(homes, desks[cur].list, 2 * cur, w);
    PlacedWithout(homes, desks[cur].mru, 2 * cur, w);
    PlacedWithout(homes, desks[cur].trans, 2 * cur + 1, w);
  }

  lemma CloseSizes(nodes: Cells, d: Desk, w: int)
    requires NoDup(d.list) && Ranked(nodes, d.list, d.mru) && w in d.list
    ensures |Close(d, w).list| == |d.list| - 1 && multiset(Close(d, w).list) == multiset(Close(d, w).mru)
    ensures Close(d, w).list == [] ==> Close(d, w).mru == []
  {
    SameMembers(d.list, d.mru, w);
    WithoutMultiset(d.list, w);
    WithoutMultiset(d.mru, w);
    WithoutMembers(d.list, w);
    assert |multiset(Close(d, w).list)| == |multiset(Close(d, w).mru)|;
  }

  lemma PushPlaced(homes: Homes, desks: seq<Desk>, cur: nat, tw: bool, w: int)
    requires cur < |desks| && AllPlaced(homes, desks)
    requires w in homes && homes[w] == if tw then 2 * cur + 1 else 2 * cur
    ensures AllPlaced(homes, desks[cur := PushOn(desks[cur], tw, w)])
  {
  }

  lemma FocusPlaced(homes: Homes, desks: seq<Desk>, cur: nat, w: int)
    requires cur < |desks| && AllPlaced(homes, desks) && w in desks[cur].list
    ensures AllPlaced(homes, desks[cur := Focus(desks[cur], w)])
  {
    PlacedWithout(homes, desks[cur].mru, 2 * cur, w);
  }

  /** What the record of a desktop must say. */
  ghost function RecordOf(nodes: Cells, d: Desk): Saved {
    Saved(|d.list|, d.mode, d.growth, At(nodes, d.list, 0), At(nodes, d.mru, 0), At(nodes, d.trans, 0))
  }

  lemma PushRecord(nodes: Cells, d: Desk, tw: bool, w: int)
    requires w in nodes
    ensures var r := RecordOf(nodes, d);
      RecordOf(nodes, PushOn(d, tw, w))
      == if tw then r.(transient := nodes[w])
         else r.(numwins := r.numwins + 1, growth := Grown(r.growth, r.numwins + 1),
                head := nodes[w], current := nodes[w])
  {
  }

  lemma FocusRecord(nodes: Cells, d: Desk, w: int)
    requires w in nodes
    ensures RecordOf(nodes, Focus(d, w)) == RecordOf(nodes, d).(current := nodes[w])
  {
  }

  lemma CloseRecord(nodes: Cells, d: Desk, w: int)
    requires NoDup(d.list) && w in d.list
    ensures var r, n := RecordOf(nodes, d), |d.list| - 1;
      RecordOf(nodes, Close(d, w))
      == r.(numwins := n, growth := if n < 3 then 0 else r.growth, head := At(nodes, Without(d.list, w), 0),
            current := At(nodes, Without(d.mru, w), 0))
  {
    WithoutMembers(d.list, w);
  }

  /** Links speak of the client and transient lists only. */
  lemma SameLinks(nodes: Cells, desks: seq<Desk>, cur: nat, d: Desk)
    requires AllLinked(nodes, desks) && cur < |desks| && d.list == desks[cur].list && d.trans == desks[cur].trans
    ensures AllLinked(nodes, desks[cur := d])
  {
  }

  class Wm {
    /** The registers: the record of the selected desktop, as it is now. */
    var live: Saved
    var currentDesktop: int
    var previousDesktop: int
    /** The window that last received the X input focus. */
    var inputFocus: int
    const desktops: array<Saved>

    ghost var model: State
    ghost var nodes: Cells
    ghost var homes: Homes

    /** `xwm_set_desktops`: one desktop more than asked for, all of them empty. */
    constructor (num: nat)
      ensures Valid() && Stored() && Ok(model) && fresh(desktops)
      ensures model == State(seq(num + 1, _ => NO_DESK), 0)
    {
      desktops := new Saved[num + 1](_ => BLANK);
      live := BLANK;
      currentDesktop, previousDesktop, inputFocus := 0, 0, 0;
      model := State(seq(num + 1, _ => NO_DESK), 0);
      nodes, homes := map[], map[];
    }

    ghost function Here(): Desk
      requires model.cur < |model.desks|
      reads this`model
    {
      model.desks[model.cur]
    }

    /** Everything but the registers and the records of the selected desktop. */
    ghost predicate Core()
      reads this`model, this`nodes, this`homes, this`currentDesktop, desktops
      reads nodes.Values`prev, nodes.Values`next, nodes.Values`order
    {
      && currentDesktop == model.cur < |model.desks| == desktops.Length
      && Named(nodes) && AllPlaced(homes, model.desks)
      && AllLinked(nodes, model.desks) && AllRanked(nodes, model.desks)
      && (forall k :: 0 <= k < |model.desks| && k != model.cur ==> desktops[k] == RecordOf(nodes, model.desks[k]))
    }

    /** The registers describe the selected desktop, except that another client may be `current`. */
    ghost predicate Loaded()
      requires model.cur < |model.desks|
      reads this`model, this`live, this`nodes
    {
      && live == RecordOf(nodes, Here()).(current := live.current)
      && (Here().list == [] ==> live.current == null)
      && (Here().list != [] ==>
            live.current != null && live.current.win in Here().list
            && live.current.win in nodes && nodes[live.current.win] == live.current)
    }

    ghost predicate Valid()
      reads this, desktops, nodes.Values`prev, nodes.Values`next, nodes.Values`order
    {
      Core() && live == RecordOf(nodes, Here())
    }

    /** Every record says what its desktop is, the selected one's too. */
    ghost predicate Stored()
      reads this`model, this`nodes, this`homes, this`currentDesktop, desktops
      reads nodes.Values`prev, nodes.Values`next, nodes.Values`order
    {
      Core() && desktops[model.cur] == RecordOf(nodes, Here())
    }

    /** `xwm_save_desktop` for the selected desktop. */
    method SaveDesktop()
      requires Valid()
      modifies desktops
      ensures Valid() && desktops[model.cur] == live
    {
      desktops[currentDesktop] := live;
    }

    /** `xwm_select_desktop`: load the registers. */
    method SelectDesktop(k: nat)
      requires Stored() && k < |model.desks|
      modifies this`live, this`currentDesktop, this`model
      ensures model == old(model).(cur := k)
      ensures Valid() && desktops[k] == live
    {
      ghost var desks := model.desks;
      model := model.(cur := k);
      assert model.desks == desks && desktops[k] == RecordOf(nodes, desks[k]);
      live, currentDesktop := desktops[k], k;
    }

    /** The walk of `xwm_update_current` from the tail: every client focused more recently than
        `current` moves down one place. */
    method DemoteAbove(tail: Client, ghost L: seq<int>, ghost mru: seq<int>, ghost p: nat)
      requires Named(nodes) && L != [] && Linked(nodes, L) && Ranked(nodes, L, mru)
      requires tail == At(nodes, L, |L| - 1) && p < |mru| && live.current == At(nodes, mru, p)
      modifies this`inputFocus, (set i | 0 <= i < |L| :: nodes[L[i]])`order
      ensures inputFocus == mru[p]
      ensures forall j {:trigger nodes[mru[j]].order} :: 0 <= j < |mru| ==>
        nodes[mru[j]].order == if j < p then j + 1 else j
    {
      ghost var k := |L| - 1;
      var d: Client? := tail;
      SameMembers(mru, L, mru[p]);
      ghost var c :| 0 <= c < |L| && L[c] == mru[p];
      while d != null
        invariant -1 <= k < |L| && d == At(nodes, L, k)
        invariant forall i {:trigger nodes[L[i]].order} :: 0 <= i <= k ==> nodes[L[i]].order == old(nodes[L[i]].order)
        invariant forall i {:trigger nodes[L[i]].order} :: k < i < |L| ==>
          nodes[L[i]].order == old(nodes[L[i]].order) + if old(nodes[L[i]].order) < p then 1 else 0
        invariant live.current.order == p
        invariant k < c ==> inputFocus == mru[p]
        decreases k
      {
        if d != live.current {
          if d.order < live.current.order { d.order := d.order + 1; }
        } else {
          inputFocus := d.win;
        }
        d := d.prev;
        k := k - 1;
      }
      forall j | 0 <= j < |mru| ensures nodes[mru[j]].order == if j < p then j + 1 else j {
        SameMembers(mru, L, mru[j]);
        var i :| 0 <= i < |L| && L[i] == mru[j];
        assert old(nodes[mru[j]].order) == j;
      }
    }

    /** The walk and the final store of `xwm_update_current`: `current` goes to rank 0. */
    method Promote(tail: Client, ghost L: seq<int>, ghost mru: seq<int>)
      requires Named(nodes) && L != [] && Linked(nodes, L) && Ranked(nodes, L, mru)
      requires tail == At(nodes, L, |L| - 1)
      requires live.current != null && live.current.win in L && nodes[live.current.win] == live.current
      modifies this`inputFocus, (set i | 0 <= i < |L| :: nodes[L[i]])`order
      ensures inputFocus == live.current.win
      ensures Ranked(nodes, L, [live.current.win] + Without(mru, live.current.win))
      ensures forall w :: w in nodes && w !in L ==> nodes[w].order == old(nodes[w].order)
    {
      RankedNoDup(nodes, L, mru);
      SameMembers(L, mru, live.current.win);
      ghost var p: nat :| p < |mru| && mru[p] == live.current.win;
      DemoteAbove(tail, L, mru, p);
      live.current.order := 0;
      FocusRanked(L, mru, p);
    }

    /** The last client of the list, found by following the links from its head. */
    method Last(ghost L: seq<int>) returns (c: Client)
      requires L != [] && Linked(nodes, L) && live.head == At(nodes, L, 0)
      ensures c == At(nodes, L, |L| - 1)
    {
      c := live.head;
      ghost var k := 0;
      while c.next != null
        invariant 0 <= k < |L| && c == nodes[L[k]]
        decreases |L| - k
      {
        c := c.next;
        k := k + 1;
      }
    }

    /** `xwm_update_current`: bring `current` to the top of the focus stack and give it the focus. */
    method UpdateCurrent()
      requires Core() && Loaded()
      modifies this`model, this`inputFocus, nodes.Values`order
      ensures Valid()
      ensures old(Here().list) == [] ==> model == old(model) && inputFocus == old(inputFocus)
      ensures old(Here().list) != [] ==>
        && model == Update(old(model), old(model.cur), Focus(old(Here()), live.current.win))
        && inputFocus == if Here().trans != [] then Here().trans[0] else live.current.win
    {
      ghost var desks, cur, d := model.desks, model.cur, Here();
      assert Linked(nodes, d.list) && Linked(nodes, d.trans) && Ranked(nodes, d.list, d.mru);
      if live.head == null {
        assert d.list == [];
        return;
      }
      var w := live.current.win;
      PromoteHere(d.list, desks, cur);
      if live.transient != null { inputFocus := live.transient.win; }
      FocusPlaced(homes, desks, cur, w);
      SameLinks(nodes, desks, cur, Focus(d, w));
      FocusRecord(nodes, d, w);
      Commit(Focus(d, w));
    }

    /** `Promote` on the selected desktop; the other desktops keep their ranks. */
    method PromoteHere(ghost L: seq<int>, ghost desks: seq<Desk>, ghost cur: nat)
      requires cur < |desks| && L == desks[cur].list
      requires Named(nodes) && AllPlaced(homes, desks) && AllRanked(nodes, desks)
      requires L != [] && Linked(nodes, L) && live.head == At(nodes, L, 0)
      requires live.current != null && live.current.win in L
      requires live.current.win in nodes && nodes[live.current.win] == live.current
      modifies this`inputFocus, nodes.Values`order
      ensures inputFocus == live.current.win
      ensures AllRanked(nodes, desks[cur := Focus(desks[cur], live.current.win)])
    {
      ghost var mru := desks[cur].mru;
      assert Ranked(nodes, L, mru);
      var c := Last(L);
      Promote(c, L, mru);
      forall k | 0 <= k < |desks| && k != cur ensures Ranked(nodes, desks[k].list, desks[k].mru) {
        assert old(Ranked(nodes, desks[k].list, desks[k].mru));
        OtherDesk(desks, cur, k);
        ghost var other := desks[k].mru;
        forall j | 0 <= j < |other| ensures nodes[other[j]].order == j {
          var w := other[j];
          assert w in nodes && w !in L;
          assert nodes[w].order == old(nodes[w].order);
        }
      }
    }

    /** Two different lists of the screen share no window. */
    lemma ApartFrom(desks: seq<Desk>, cur: nat, tw: bool, k: nat, tk: bool)
      requires AllPlaced(homes, desks) && cur < |desks| && k < |desks| && (k != cur || tw != tk)
      ensures forall i :: 0 <= i < |ListOf(desks[k], tk)| ==> ListOf(desks[k], tk)[i] !in ListOf(desks[cur], tw)
    {
      var L, s := ListOf(desks[cur], tw), ListOf(desks[k], tk);
      forall i | 0 <= i < |s| ensures s[i] !in L {
        assert homes[s[i]] == if tk then 2 * k + 1 else 2 * k;
      }
    }

    /** Windows of another desktop are not in this desktop's client list. */
    lemma OtherDesk(desks: seq<Desk>, cur: nat, k: nat)
      requires AllPlaced(homes, desks) && cur < |desks| && k < |desks| && k != cur
      ensures forall j :: 0 <= j < |desks[k].mru| ==> desks[k].mru[j] !in desks[cur].list
    {
      forall j | 0 <= j < |desks[k].mru| ensures desks[k].mru[j] !in desks[cur].list {
        assert homes[desks[k].mru[j]] == 2 * k;
      }
    }

    /** After the demotion, and with `current` at 0, the orders number the stack with `current` on top. */
    lemma FocusRanked(L: seq<int>, mru: seq<int>, p: nat)
      requires Known(nodes, L) && Known(nodes, mru) && multiset(mru) == multiset(L) && NoDup(mru) && p < |mru|
      requires forall j {:trigger nodes[mru[j]].order} :: 0 <= j < |mru| ==>
        nodes[mru[j]].order == if j < p then j + 1 else if j == p then 0 else j
      ensures Ranked(nodes, L, [mru[p]] + Without(mru, mru[p]))
    {
      var r := [mru[p]] + (mru[..p] + mru[p + 1..]);
      WithoutMultiset(mru, mru[p]);
      WithoutAt(mru, p);
      forall j | 0 <= j < |r| ensures r[j] in nodes && nodes[r[j]].order == j {
        var i := if j == 0 then p else if j <= p then j - 1 else j;
        assert r[j] == mru[i];
      }
    }

    /** Name a new client.  It is in no list yet, so nothing else changes. */
    ghost method Adopt(c: Client, home: int)
      requires Valid() && c !in nodes.Values && Unused(model.desks, c.win)
      modifies this`nodes, this`homes
      ensures nodes == old(nodes)[c.win := c] && homes == old(homes)[c.win := home]
      ensures Valid()
    {
      AdoptLinked(nodes, model.desks, c);
      AdoptRanked(nodes, model.desks, c);
      AdoptRecords(nodes, model.desks, c);
      AdoptPlaced(homes, model.desks, c.win, home);
      nodes, homes := nodes[c.win := c], homes[c.win := home];
    }

    /** Every client of the list goes down one place. */
    method BumpOrders(first: Client?, ghost L: seq<int>)
      requires Named(nodes) && Linked(nodes, L) && first == At(nodes, L, 0)
      modifies nodes.Values`order
      ensures forall w {:trigger nodes[w].order} :: w in nodes ==>
        nodes[w].order == old(nodes[w].order) + if w in L then 1 else 0
    {
      var t := first;
      ghost var k := 0;
      while t != null
        invariant 0 <= k <= |L| && t == At(nodes, L, k)
        invariant forall i :: 0 <= i < k ==> nodes[L[i]].order == old(nodes[L[i]].order) + 1
        invariant forall i :: k <= i < |L| ==> nodes[L[i]].order == old(nodes[L[i]].order)
        invariant forall w {:trigger nodes[w].order} :: w in nodes && w !in L ==> nodes[w].order == old(nodes[w].order)
        decreases |L| - k
      {
        t.order := t.order + 1;
        t := t.next;
        k := k + 1;
      }
    }

    /** Link a client in front of a list. */
    method LinkFront(c: Client, first: Client?, ghost L: seq<int>)
      requires Named(nodes) && Linked(nodes, L) && first == At(nodes, L, 0)
      requires c.win in nodes && nodes[c.win] == c && c.win !in L
      modifies nodes.Values`prev, c`next
      ensures Linked(nodes, [c.win] + L)
      ensures forall w {:trigger nodes[w].prev} :: w in nodes && w != c.win && w !in L ==>
        nodes[w].prev == old(nodes[w].prev)
      ensures forall w {:trigger nodes[w].next} :: w in nodes && w != c.win ==> nodes[w].next == old(nodes[w].next)
    {
      assert first != null ==> first.win == L[0] && first.win in L;
      c.prev := null;
      c.next := first;
      if first != null { first.prev := c; }
      ghost var s := [c.win] + L;
      forall i | 0 <= i < |s|
        ensures nodes[s[i]].prev == At(nodes, s, i - 1) && nodes[s[i]].next == At(nodes, s, i + 1)
      {
        if i > 0 {
          var w := L[i - 1];
          assert s[i] == w && old(nodes[w].prev) == At(nodes, L, i - 2) && old(nodes[w].next) == At(nodes, L, i);
          assert At(nodes, s, i + 1) == At(nodes, L, i);
          assert i > 1 ==> At(nodes, s, i - 1) == At(nodes, L, i - 2) && w != L[0];
        }
      }
    }

    /** With its clients counted up, or untouched, a stack is numbered as it is after a push. */
    lemma BumpedRanked(d: Desk, w: int, tw: bool, here: bool)
      requires Known(nodes, d.mru) && multiset(d.mru) == multiset(d.list) && w in nodes && nodes[w].order == 0
      requires forall j {:trigger nodes[d.mru[j]].order} :: 0 <= j < |d.mru| ==>
        nodes[d.mru[j]].order == if here && !tw then j + 1 else j
      ensures here ==> Ranked(nodes, PushOn(d, tw, w).list, PushOn(d, tw, w).mru)
      ensures !here ==> Ranked(nodes, d.list, d.mru)
    {
      if here && !tw {
        var r := [w] + d.mru;
        forall j | 0 <= j < |r| ensures r[j] in nodes && nodes[r[j]].order == j {
          if j > 0 { assert r[j] == d.mru[j - 1]; }
        }
      }
    }

    /** Counting the orders of a list up makes room on top of that desktop's focus stack. */
    method BumpOn(first: Client?, w: int, ghost desks: seq<Desk>, ghost cur: nat, ghost tw: bool)
      requires Named(nodes) && AllPlaced(homes, desks) && AllLinked(nodes, desks) && AllRanked(nodes, desks)
      requires cur < |desks| && Unused(desks, w) && w in nodes && nodes[w].order == 0
      requires first == At(nodes, ListOf(desks[cur], tw), 0)
      modifies nodes.Values`order
      ensures AllRanked(nodes, desks[cur := PushOn(desks[cur], tw, w)])
    {
      ghost var L := ListOf(desks[cur], tw);
      assert Linked(nodes, L);
      MruApart(desks, cur, tw);
      BumpOrders(first, L);
      assert w !in L && nodes[w].order == 0;
      forall k | 0 <= k < |desks|
        ensures k != cur ==> Ranked(nodes, desks[k].list, desks[k].mru)
        ensures k == cur ==> Ranked(nodes, PushOn(desks[k], tw, w).list, PushOn(desks[k], tw, w).mru)
      {
        ghost var mru := desks[k].mru;
        assert old(Ranked(nodes, desks[k].list, mru));
        forall j | 0 <= j < |mru| ensures nodes[mru[j]].order == if k == cur && !tw then j + 1 else j {
          ghost var v := mru[j];
          assert v in nodes && old(nodes[v].order) == j;
          assert desks[k].mru[j] == v;
          assert v in L <==> k == cur && !tw;
          assert nodes[v].order == old(nodes[v].order) + if v in L then 1 else 0;
        }
        BumpedRanked(desks[k], w, tw, k == cur);
      }
    }

    /** Count the orders of a list up and link an adopted client in front of it; other lists stay as they are. */
    method Insert(c: Client, first: Client?, ghost desks: seq<Desk>, ghost cur: nat, ghost tw: bool)
      requires Named(nodes) && AllPlaced(homes, desks) && AllLinked(nodes, desks) && AllRanked(nodes, desks)
      requires cur < |desks| && Unused(desks, c.win) && c.win in nodes && nodes[c.win] == c && c.order == 0
      requires first == At(nodes, ListOf(desks[cur], tw), 0)
      modifies nodes.Values`prev, nodes.Values`order, c`next
      ensures AllLinked(nodes, desks[cur := PushOn(desks[cur], tw, c.win)])
      ensures AllRanked(nodes, desks[cur := PushOn(desks[cur], tw, c.win)])
    {
      ghost var L := ListOf(desks[cur], tw);
      assert Linked(nodes, L);
      BumpOn(first, c.win, desks, cur, tw);
      LinkFront(c, first, L);
      forall k, tk {:trigger ListOf(desks[k], tk)} | 0 <= k < |desks| && (k != cur || tw != tk)
        ensures Linked(nodes, ListOf(desks[k], tk))
      {
        ghost var s := ListOf(desks[k], tk);
        ApartFrom(desks, cur, tw, k, tk);
        forall i | 0 <= i < |s|
          ensures nodes[s[i]].prev == At(nodes, s, i - 1) && nodes[s[i]].next == At(nodes, s, i + 1)
        {
          ghost var v := s[i];
          assert v in nodes && v != c.win && v !in L;
          assert old(Linked(nodes, s));
          assert old(nodes[s[i]].prev) == At(nodes, s, i - 1) && old(nodes[s[i]].next) == At(nodes, s, i + 1);
        }
      }
      forall k | 0 <= k < |desks| && k != cur
        ensures Linked(nodes, desks[k].list) && Linked(nodes, desks[k].trans)
      {
        assert Linked(nodes, ListOf(desks[k], false)) && Linked(nodes, ListOf(desks[k], true));
      }
      assert Linked(nodes, ListOf(desks[cur], !tw));
    }

    /** The focus stacks hold the clients of a list of the selected desktop, or none of them. */
    lemma MruApart(desks: seq<Desk>, cur: nat, tw: bool)
      requires AllPlaced(homes, desks) && AllRanked(nodes, desks) && cur < |desks|
      ensures forall k, j {:trigger desks[k].mru[j]} :: 0 <= k < |desks| && 0 <= j < |desks[k].mru| ==>
        (desks[k].mru[j] in ListOf(desks[cur], tw) <==> k == cur && !tw)
    {
      forall k, j {:trigger desks[k].mru[j]} | 0 <= k < |desks| && 0 <= j < |desks[k].mru|
        ensures desks[k].mru[j] in ListOf(desks[cur], tw) <==> k == cur && !tw
      {
        var mru := desks[k].mru;
        assert homes[mru[j]] == 2 * k && Ranked(nodes, desks[k].list, mru);
        if k == cur && !tw { SameMembers(mru, desks[k].list, mru[j]); }
      }
    }

    /** Everything holds of the selected desktop's new lists; record them. */
    ghost method Commit(d: Desk)
      requires currentDesktop == model.cur < |model.desks| == desktops.Length && Named(nodes)
      requires AllPlaced(homes, model.desks[model.cur := d])
      requires AllLinked(nodes, model.desks[model.cur := d]) && AllRanked(nodes, model.desks[model.cur := d])
      requires RecordsKept()
      modifies this`model
      ensures Core() && model == Update(old(model), old(model.cur), d)
    {
      model := Update(model, model.cur, d);
    }

    /** The other desktops' records are right. */
    ghost predicate RecordsKept()
      requires |model.desks| == desktops.Length
      reads this`model, this`nodes, desktops
    {
      forall k :: 0 <= k < |model.desks| && k != model.cur ==> desktops[k] == RecordOf(nodes, model.desks[k])
    }

    /** Allocate a client and link it into the selected desktop; the registers are still to be set. */
    method NewClient(w: int, tw: bool) returns (c: Client)
      requires Valid() && Unused(model.desks, w)
      modifies this`nodes, this`homes, this`model, nodes.Values`prev, nodes.Values`order
      ensures c.win == w && nodes == old(nodes)[w := c] && fresh(c)
      ensures Core() && model == Update(old(model), old(model.cur), PushOn(old(Here()), tw, w))
      ensures RecordOf(nodes, old(Here())) == live
    {
      c := new Client(w);
      ghost var desks, cur := model.desks, model.cur;
      AdoptRecords(nodes, desks, c);
      Adopt(c, if tw then 2 * cur + 1 else 2 * cur);
      var first := if tw then live.transient else live.head;
      Insert(c, first, desks, cur, tw);
      PushPlaced(homes, desks, cur, tw, w);
      Commit(PushOn(desks[cur], tw, w));
    }

    /** The new client and the registers that now describe its desktop. */
    method LinkNew(w: int, tw: bool)
      requires Valid() && Unused(model.desks, w)
      modifies this`live, this`model, this`nodes, this`homes
      modifies nodes.Values`prev, nodes.Values`order
      ensures Valid()
      ensures model == Update(old(model), old(model.cur), PushOn(old(Here()), tw, w))
      ensures fresh(nodes.Values - old(nodes.Values))
    {
      ghost var d := Here();
      var c := NewClient(w, tw);
      PushRecord(nodes, d, tw, w);
      var r := live;
      if tw {
        r := r.(transient := c);
      } else {
        var n := r.numwins + 1;
        r := r.(numwins := n, growth := Grown(r.growth, n), head := c, current := c);
      }
      assert r == RecordOf(nodes, PushOn(d, tw, w));
      live := r;
    }

    /** `xwm_add_window`: a new client goes to the front of the client list and gets the focus, a
        transient one to the front of the transient list. */
    method AddWindow(w: int, tw: bool)
      requires Valid() && Unused(model.desks, w)
      modifies this`live, this`model, this`nodes, this`homes, desktops
      modifies nodes.Values`prev, nodes.Values`order
      ensures Valid() && desktops[model.cur] == live
      ensures model == Update(old(model), old(model.cur), PushOn(old(Here()), tw, w))
      ensures fresh(nodes.Values - old(nodes.Values))
    {
      LinkNew(w, tw);
      SaveDesktop();
    }

    /** The client of a window, or null when the list does not hold it. */
    method FindClient(first: Client?, w: int, ghost L: seq<int>) returns (c: Client?)
      requires Named(nodes) && Linked(nodes, L) && first == At(nodes, L, 0)
      ensures c == if w in L && w in nodes then nodes[w] else null
    {
      c := first;
      ghost var k := 0;
      while c != null && c.win != w
        invariant 0 <= k <= |L| && c == At(nodes, L, k)
        invariant w !in L[..k]
        decreases |L| - k
      {
        c := c.next;
        k := k + 1;
      }
      if c == null {
        assert L[..k] == L;
      } else {
        assert L[k] == w;
      }
    }

    /** Redirect the links of a client's neighbours past it. */
    method Bypass(c: Client, first: Client, ghost L: seq<int>, ghost k: nat) returns (r: Client?)
      requires Named(nodes) && Linked(nodes, L) && first == At(nodes, L, 0)
      requires k < |L| && L[k] == c.win && c.win in nodes && nodes[c.win] == c
      modifies nodes.Values`prev, nodes.Values`next
      ensures r == if k == 0 then At(nodes, L, 1) else first
      ensures forall w {:trigger nodes[w].prev} :: w in nodes ==>
        nodes[w].prev == if k + 1 < |L| && w == L[k + 1] then At(nodes, L, k - 1) else old(nodes[w].prev)
      ensures forall w {:trigger nodes[w].next} :: w in nodes ==>
        nodes[w].next == if k > 0 && w == L[k - 1] then At(nodes, L, k + 1) else old(nodes[w].next)
    {
      assert c.prev == At(nodes, L, k - 1) && c.next == At(nodes, L, k + 1);
      if c.prev == null && c.next == null {
        r := null;
      } else if c.prev == null {
        r := c.next;
        c.next.prev := null;
      } else if c.next == null {
        r := first;
        c.prev.next := null;
      } else {
        r := first;
        c.prev.next := c.next;
        c.next.prev := c.prev;
      }
    }

    /** Take a client out of its list. */
    method Unlink(c: Client, first: Client, ghost L: seq<int>) returns (r: Client?)
      requires Named(nodes) && Linked(nodes, L) && first == At(nodes, L, 0)
      requires c.win in L && c.win in nodes && nodes[c.win] == c
      modifies nodes.Values`prev, nodes.Values`next
      ensures Linked(nodes, Without(L, c.win)) && r == At(nodes, Without(L, c.win), 0)
      ensures forall w {:trigger nodes[w].prev} :: w in nodes && w !in L ==> nodes[w].prev == old(nodes[w].prev)
      ensures forall w {:trigger nodes[w].next} :: w in nodes && w !in L ==> nodes[w].next == old(nodes[w].next)
    {
      ghost var k := IndexOf(L, c.win);
      ghost var s := L[..k] + L[k + 1..];
      WithoutAt(L, k);
      r := Bypass(c, first, L, k);
      forall i | 0 <= i < |s|
        ensures nodes[s[i]].prev == At(nodes, s, i - 1) && nodes[s[i]].next == At(nodes, s, i + 1)
      {
        ghost var j := if i < k then i else i + 1;
        ghost var w := L[j];
        assert s[i] == w && old(nodes[w].prev) == At(nodes, L, j - 1) && old(nodes[w].next) == At(nodes, L, j + 1);
      }
    }

    /** The order loop of `xwm_remove_window`: close the gap the removed client leaves in the stack, and
        make the client that is now on top the current one. `idx` are the old places in the stack. */
    method CloseRanks(c: Client, first: Client, ghost L: seq<int>, ghost r: nat, ghost idx: seq<nat>, ghost z: nat)
      requires Named(nodes) && Linked(nodes, L) && first == At(nodes, L, 0)
      requires c.win !in L && c.win in nodes && nodes[c.win] == c && c.order == r
      requires |idx| == |L| && z < |L| && forall i :: 0 <= i < |L| ==> nodes[L[i]].order == idx[i] != r
      requires forall i :: 0 <= i < |L| ==> (i == z <==> idx[i] == if r == 0 then 1 else 0)
      modifies nodes.Values`order, this`live
      ensures live == old(live).(current := nodes[L[z]])
      ensures forall i :: 0 <= i < |L| ==> nodes[L[i]].order == if idx[i] > r then idx[i] - 1 else idx[i]
      ensures forall w {:trigger nodes[w].order} :: w in nodes && w !in L ==> nodes[w].order == old(nodes[w].order)
    {
      var t: Client? := first;
      ghost var k := 0;
      while t != null
        invariant 0 <= k <= |L| && t == At(nodes, L, k)
        invariant forall i :: 0 <= i < k ==> nodes[L[i]].order == if idx[i] > r then idx[i] - 1 else idx[i]
        invariant forall i :: k <= i < |L| ==> nodes[L[i]].order == idx[i]
        invariant forall w {:trigger nodes[w].order} :: w in nodes && w !in L ==> nodes[w].order == old(nodes[w].order)
        invariant live == old(live).(current := live.current)
        invariant c.order == r
        invariant k > z ==> live.current == nodes[L[z]]
        decreases |L| - k
      {
        if t.order > c.order { t.order := t.order - 1; }
        if t.order == 0 { live := live.(current := t); }
        t := t.next;
        k := k + 1;
      }
    }

    /** Where the remaining clients stood in the focus stack. */
    lemma Places(L: seq<int>, mru: seq<int>, r: nat) returns (idx: seq<nat>, z: nat)
      requires r < |mru| && NoDup(mru) && Known(nodes, mru) && L != [] && NoDup(L)
      requires forall j {:trigger nodes[mru[j]].order} :: 0 <= j < |mru| ==> nodes[mru[j]].order == j
      requires multiset(L) == multiset(Without(mru, mru[r]))
      ensures |idx| == |L| && z < |L| && Without(mru, mru[r]) != [] && L[z] == Without(mru, mru[r])[0]
      ensures forall i :: 0 <= i < |L| ==>
        idx[i] < |mru| && idx[i] != r && mru[idx[i]] == L[i] && L[i] in nodes && nodes[L[i]].order == idx[i]
      ensures forall i :: 0 <= i < |L| ==> (i == z <==> idx[i] == if r == 0 then 1 else 0)
    {
      WithoutAt(mru, r);
      var R := Without(mru, mru[r]);
      assert |multiset(L)| == |multiset(R)|;
      idx := Indices(L, mru, r);
      forall i | 0 <= i < |L| ensures L[i] in nodes && nodes[L[i]].order == idx[i] { assert mru[idx[i]] in mru; }
      SameMembers(R, L, R[0]);
      z :| 0 <= z < |L| && L[z] == R[0];
      assert R[0] == mru[if r == 0 then 1 else 0];
    }

    static lemma Indices(L: seq<int>, mru: seq<int>, r: nat) returns (idx: seq<nat>)
      requires r < |mru| && NoDup(mru) && multiset(L) == multiset(Without(mru, mru[r]))
      ensures |idx| == |L| && forall i :: 0 <= i < |L| ==> idx[i] < |mru| && idx[i] != r && mru[idx[i]] == L[i]
    {
      var R := mru[..r] + mru[r + 1..];
      WithoutAt(mru, r);
      assert forall j :: 0 <= j < |R| ==> R[j] == mru[if j < r then j else j + 1];
      idx := [];
      while |idx| < |L|
        invariant |idx| <= |L|
        invariant forall i :: 0 <= i < |idx| ==> idx[i] < |mru| && idx[i] != r && mru[idx[i]] == L[i]
      {
        assert L[|idx|] in L;
        SameMembers(L, R, L[|idx|]);
        var j: nat :| j < |R| && R[j] == L[|idx|];
        var q: nat := if j < r then j else j + 1;
        assert q < |mru| && q != r && mru[q] == L[|idx|];
        idx := idx + [q];
      }
    }

    /** The decremented orders number the stack without the removed client. */
    lemma ClosedRanks(L: seq<int>, mru: seq<int>, r: nat, idx: seq<nat>)
      requires r < |mru| && NoDup(mru) && |idx| == |L| && multiset(L) == multiset(Without(mru, mru[r]))
        && Known(nodes, L)
      requires forall i :: 0 <= i < |L| ==> idx[i] < |mru| && idx[i] != r && mru[idx[i]] == L[i]
      requires forall i :: 0 <= i < |L| ==> nodes[L[i]].order == if idx[i] > r then idx[i] - 1 else idx[i]
      ensures Ranked(nodes, L, Without(mru, mru[r]))
    {
      var R := mru[..r] + mru[r + 1..];
      WithoutAt(mru, r);
      forall j | 0 <= j < |R| ensures R[j] in nodes && nodes[R[j]].order == j {
        SameMembers(R, L, R[j]);
        var i :| 0 <= i < |L| && L[i] == R[j];
        var q := if j < r then j else j + 1;
        assert mru[q] == R[j];
      }
    }

    /** Close the gap in one stack. */
    method CloseStack(c: Client, first: Client, ghost all: seq<int>, ghost mru: seq<int>)
      requires Named(nodes) && Ranked(nodes, all, mru)
      requires c.win in all && c.win in nodes && nodes[c.win] == c && NoDup(all)
      requires Without(all, c.win) != [] && Linked(nodes, Without(all, c.win))
      requires first == At(nodes, Without(all, c.win), 0)
      modifies nodes.Values`order, this`live
      ensures Ranked(nodes, Without(all, c.win), Without(mru, c.win))
      ensures live == old(live).(current := At(nodes, Without(mru, c.win), 0))
      ensures forall w {:trigger nodes[w].order} :: w in nodes && w !in all ==> nodes[w].order == old(nodes[w].order)
    {
      ghost var L := Without(all, c.win);
      RankedNoDup(nodes, all, mru);
      SameMembers(all, mru, c.win);
      ghost var r := IndexOf(mru, c.win);
      assert nodes[mru[r]].order == r;
      WithoutMultiset(all, c.win);
      WithoutMultiset(mru, c.win);
      WithoutMembers(all, c.win);
      ghost var idx, z := Places(L, mru, r);
      CloseRanks(c, first, L, r, idx, z);
      ClosedRanks(L, mru, r, idx);
    }

    /** Close the gap in the selected desktop's stack; the other desktops keep their ranks. */
    method CloseHere(c: Client, first: Client, ghost desks: seq<Desk>, ghost cur: nat)
      requires Named(nodes) && AllPlaced(homes, desks) && AllRanked(nodes, desks) && cur < |desks|
      requires c.win in desks[cur].list && c.win in nodes && nodes[c.win] == c && NoDup(desks[cur].list)
      requires Without(desks[cur].list, c.win) != [] && Linked(nodes, Without(desks[cur].list, c.win))
      requires first == At(nodes, Without(desks[cur].list, c.win), 0)
      modifies nodes.Values`order, this`live
      ensures AllRanked(nodes, desks[cur := Close(desks[cur], c.win)])
      ensures live == old(live).(current := At(nodes, Without(desks[cur].mru, c.win), 0))
    {
      ghost var L := Without(desks[cur].list, c.win);
      assert Ranked(nodes, desks[cur].list, desks[cur].mru);
      WithoutMembers(desks[cur].list, c.win);
      CloseStack(c, first, desks[cur].list, desks[cur].mru);
      forall k | 0 <= k < |desks| && k != cur ensures Ranked(nodes, desks[k].list, desks[k].mru) {
        assert old(Ranked(nodes, desks[k].list, desks[k].mru));
        OtherDesk(desks, cur, k);
        ghost var other := desks[k].mru;
        forall j | 0 <= j < |other| ensures nodes[other[j]].order == j {
          ghost var w := other[j];
          assert w in nodes && w !in L;
          assert nodes[w].order == old(nodes[w].order);
        }
      }
    }

    /** Unlink a client; the other lists stay as they are. */
    method UnlinkHere(c: Client, first: Client, ghost desks: seq<Desk>, ghost cur: nat, ghost tw: bool)
        returns (r: Client?)
      requires Named(nodes) && AllPlaced(homes, desks) && AllLinked(nodes, desks) && cur < |desks|
      requires first == At(nodes, ListOf(desks[cur], tw), 0)
      requires c.win in ListOf(desks[cur], tw) && c.win in nodes && nodes[c.win] == c
      modifies nodes.Values`prev, nodes.Values`next
      ensures r == At(nodes, Without(ListOf(desks[cur], tw), c.win), 0)
      ensures AllLinked(nodes, desks[cur := CloseOn(desks[cur], tw, c.win)])
    {
      ghost var L := ListOf(desks[cur], tw);
      assert Linked(nodes, L);
      r := Unlink(c, first, L);
      forall k, tk {:trigger ListOf(desks[k], tk)} | 0 <= k < |desks| && (k != cur || tw != tk)
        ensures Linked(nodes, ListOf(desks[k], tk))
      {
        ghost var s := ListOf(desks[k], tk);
        ApartFrom(desks, cur, tw, k, tk);
        forall i | 0 <= i < |s|
          ensures nodes[s[i]].prev == At(nodes, s, i - 1) && nodes[s[i]].next == At(nodes, s, i + 1)
        {
          ghost var v := s[i];
          assert v in nodes && v !in L;
          assert old(Linked(nodes, s));
          assert old(nodes[s[i]].prev) == At(nodes, s, i - 1) && old(nodes[s[i]].next) == At(nodes, s, i + 1);
        }
      }
      forall k | 0 <= k < |desks| && k != cur
        ensures Linked(nodes, desks[k].list) && Linked(nodes, desks[k].trans)
      {
        assert Linked(nodes, ListOf(desks[k], false)) && Linked(nodes, ListOf(desks[k], true));
      }
      assert Linked(nodes, ListOf(desks[cur], !tw));
    }

    /** The transient branch of `xwm_remove_window`, up to its save. */
    method TakeTransient(w: int)
      requires Valid() && w in Here().trans
      modifies this`live, this`model, nodes.Values`prev, nodes.Values`next
      ensures Valid() && model == Update(old(model), old(model.cur), CloseTransient(old(Here()), w))
    {
      ghost var desks, cur := model.desks, model.cur;
      assert Linked(nodes, desks[cur].trans);
      var c := FindClient(live.transient, w, desks[cur].trans);
      var r := UnlinkHere(c, live.transient, desks, cur, true);
      live := live.(transient := r);
      ClosePlaced(homes, desks, cur, true, w);
      assert AllRanked(nodes, desks[cur := CloseTransient(desks[cur], w)]);
      Commit(CloseTransient(desks[cur], w));
    }

    /** The rank part of `xwm_remove_window`: the stack closes its gap, and its top becomes current. */
    method Rerank(c: Client, ghost desks: seq<Desk>, ghost cur: nat)
      requires Named(nodes) && AllPlaced(homes, desks) && AllRanked(nodes, desks) && cur < |desks|
      requires c.win in desks[cur].list && c.win in nodes && nodes[c.win] == c && NoDup(desks[cur].list)
      requires Linked(nodes, Without(desks[cur].list, c.win))
      requires live.head == At(nodes, Without(desks[cur].list, c.win), 0)
      requires AllLinked(nodes, desks[cur := Close(desks[cur], c.win)])
      modifies nodes.Values`order, this`live
      ensures AllRanked(nodes, desks[cur := Close(desks[cur], c.win)])
      ensures AllLinked(nodes, desks[cur := Close(desks[cur], c.win)])
      ensures live == old(live).(current := At(nodes, Without(desks[cur].mru, c.win), 0))
    {
      ghost var d := Close(desks[cur], c.win);
      assert Ranked(nodes, desks[cur].list, desks[cur].mru);
      CloseSizes(nodes, desks[cur], c.win);
      if live.head != null {
        CloseHere(c, live.head, desks, cur);
      } else {
        live := live.(current := null);
        assert d.list == [] && d.mru == [];
        assert Ranked(nodes, d.list, d.mru);
      }
    }

    /** Unlink a client and close its gap: links, ranks and registers are those of the shorter lists. */
    method DropClient(w: int, ghost desks: seq<Desk>, ghost cur: nat)
      requires Named(nodes) && AllPlaced(homes, desks) && AllLinked(nodes, desks) && AllRanked(nodes, desks)
      requires cur < |desks| && w in desks[cur].list && live == RecordOf(nodes, desks[cur])
      modifies this`live, nodes.Values`prev, nodes.Values`next, nodes.Values`order
      ensures AllLinked(nodes, desks[cur := Close(desks[cur], w)])
      ensures AllRanked(nodes, desks[cur := Close(desks[cur], w)])
      ensures live == RecordOf(nodes, Close(desks[cur], w))
    {
      assert Linked(nodes, desks[cur].list);
      CloseRecord(nodes, desks[cur], w);
      var c := FindClient(live.head, w, desks[cur].list);
      var r := UnlinkHere(c, live.head, desks, cur, false);
      live := live.(head := r, numwins := live.numwins - 1);
      ghost var after := desks[cur := Close(desks[cur], w)];
      assert after == desks[cur := CloseOn(desks[cur], false, w)];
      assert AllLinked(nodes, after) && Linked(nodes, after[cur].list);
      Rerank(c, desks, cur);
      if live.numwins < 3 { live := live.(growth := 0); }
    }

    /** The client branch of `xwm_remove_window`, up to its save. */
    method TakeClient(w: int)
      requires Valid() && w in Here().list
      modifies this`live, this`model, nodes.Values`prev, nodes.Values`next, nodes.Values`order
      ensures Valid() && model == Update(old(model), old(model.cur), Close(old(Here()), w))
    {
      ghost var desks, cur := model.desks, model.cur;
      DropClient(w, desks, cur);
      ClosePlaced(homes, desks, cur, false, w);
      Commit(Close(desks[cur], w));
    }

    /** `xwm_remove_window` for the clients of the selected desktop or, with `tw`, its transients. */
    method RemoveWindow(w: int, tw: bool)
      requires Valid() && w in ListOf(Here(), tw)
      modifies this`live, this`model, this`inputFocus, desktops
      modifies nodes.Values`prev, nodes.Values`next, nodes.Values`order
      ensures Valid() && desktops[model.cur] == live
      ensures model == Update(old(model), old(model.cur), CloseOn(old(Here()), tw, w))
      ensures Here().list != [] ==> inputFocus == if Here().trans != [] then Here().trans[0] else Here().mru[0]
    {
      if tw {
        TakeTransient(w);
      } else {
        TakeClient(w);
      }
      SaveDesktop();
      Refocus();
    }

    /** `xwm_update_current` when `current` is already on top: only the input focus is set. */
    method Refocus()
      requires Valid()
      modifies this`model, this`inputFocus, nodes.Values`order
      ensures Valid() && model == old(model)
      ensures Here().list != [] ==> inputFocus == if Here().trans != [] then Here().trans[0] else Here().mru[0]
    {
      assert Ranked(nodes, Here().list, Here().mru) && Linked(nodes, Here().list);
      if Here().list != [] {
        TopOfStack(Here().list, Here().mru);
        FocusTop(model);
      }
      UpdateCurrent();
    }

    /** `xwm_next_win`. */
    method NextWin()
      requires Valid() && DeskOk(Here())
      modifies this`live, this`model, this`inputFocus, nodes.Values`order
      ensures Valid()
      ensures model == if |old(Here()).list| < 2 then old(model)
                       else Update(old(model), old(model.cur), Focus(old(Here()), NextOf(old(Here()))))
    {
      if live.numwins < 2 { return; }
      ghost var L := Here().list;
      assert Linked(nodes, L);
      FocusedInList(Here());
      ghost var k := IndexOf(L, Here().mru[0]);
      assert nodes[L[k]] == live.current;
      var c := live.current.next;
      live := live.(current := if c == null then live.head else c);
      NextAt(Here(), k);
      assert live.current.win == NextOf(Here());
      UpdateCurrent();
    }

    /** `xwm_prev_win`. */
    method PrevWin()
      requires Valid() && DeskOk(Here())
      modifies this`live, this`model, this`inputFocus, nodes.Values`order
      ensures Valid()
      ensures model == if |old(Here()).list| < 2 then old(model)
                       else Update(old(model), old(model.cur), Focus(old(Here()), PrevOf(old(Here()))))
    {
      if live.numwins < 2 { return; }
      ghost var L := Here().list;
      assert Linked(nodes, L);
      FocusedInList(Here());
      ghost var k := IndexOf(L, Here().mru[0]);
      assert nodes[L[k]] == live.current;
      var c := live.current.prev;
      if c == null { c := Last(L); }
      live := live.(current := c);
      assert live.current.win == PrevOf(Here());
      UpdateCurrent();
    }

    /** `xwm_kill_client`: the window that has the focus is closed. */
    method KillClient()
      requires Valid() && DeskOk(Here())
      modifies this`live, this`model, this`inputFocus, desktops
      modifies nodes.Values`prev, nodes.Values`next, nodes.Values`order
      ensures Valid()
      ensures model == if old(Here()).list == [] then old(model)
                       else Update(old(model), old(model.cur), Close(old(Here()), old(Here()).mru[0]))
    {
      assert Linked(nodes, Here().list);
      if live.head == null { return; }
      FocusedInList(Here());
      assert Ranked(nodes, Here().list, Here().mru);
      RemoveWindow(live.current.win, false);
    }

    /** `xwm_unmapnotify`, for an event sent by the window's owner. */
    method UnmapNotify(w: int)
      requires Valid()
      modifies this`live, this`model, this`inputFocus, desktops
      modifies nodes.Values`prev, nodes.Values`next, nodes.Values`order
      ensures Valid()
      ensures model == if w in old(Here()).list then Update(old(model), old(model.cur), Close(old(Here()), w))
                       else old(model)
    {
      assert Linked(nodes, Here().list);
      var c := FindClient(live.head, w, Here().list);
      if c != null { RemoveWindow(w, false); }
    }

    /** `xwm_change_desktop`. */
    method ChangeDesktop(desk: nat)
      requires Valid() && desk < |model.desks|
      modifies this`live, this`currentDesktop, this`previousDesktop, this`model, this`inputFocus, desktops,
        nodes.Values`order
      ensures Valid() && model == old(model).(cur := desk)
      ensures previousDesktop == if desk == old(model.cur) then old(previousDesktop) else old(model.cur)
    {
      if desk == currentDesktop { return; }
      var tmp := currentDesktop;
      SaveDesktop();
      previousDesktop := currentDesktop;
      SelectBetween(tmp, desk);
      Refocus();
    }

    /** The three selections of a switch. */
    method SelectBetween(from: nat, desk: nat)
      requires Valid() && desktops[model.cur] == live && from < |model.desks| && desk < |model.desks|
      modifies this`live, this`currentDesktop, this`model
      ensures Valid() && model == old(model).(cur := desk)
    {
      SelectDesktop(desk);
      SelectDesktop(from);
      SelectDesktop(desk);
    }

    /** Two switches, there and back: registers, orders and all links are what they were. */
    method SwitchThereAndBack(desk: nat)
      requires Valid() && desk < |model.desks|
      modifies this`live, this`currentDesktop, this`previousDesktop, this`model, this`inputFocus, desktops,
        nodes.Values`order
      ensures Valid() && model == old(model) && live == old(live)
      ensures nodes == old(nodes)
      ensures forall w {:trigger nodes[w]} :: w in nodes ==>
        nodes[w].prev == old(nodes[w].prev) && nodes[w].next == old(nodes[w].next)
      ensures forall k, i {:trigger model.desks[k].list[i]} ::
        0 <= k < |model.desks| && 0 <= i < |model.desks[k].list| ==>
        var w := model.desks[k].list[i];
        w in nodes && nodes[w].order == old(nodes[w].order)
    {
      ghost var back, before := model.cur, model;
      var tmp := currentDesktop;
      ChangeDesktop(desk);
      ChangeDesktop(tmp);
      forall k, i {:trigger model.desks[k].list[i]} | 0 <= k < |model.desks| && 0 <= i < |model.desks[k].list|
        ensures var w := model.desks[k].list[i]; w in nodes && nodes[w].order == old(nodes[w].order)
      {
        ghost var d := model.desks[k];
        ghost var w := d.list[i];
        assert Ranked(nodes, d.list, d.mru) && old(Ranked(nodes, d.list, d.mru));
        SameMembers(d.list, d.mru, w);
        ghost var j :| 0 <= j < |d.mru| && d.mru[j] == w;
        assert nodes[d.mru[j]].order == j && old(nodes[d.mru[j]].order) == j;
      }
    }

    /** `xwm_set_mode`: the mode goes into the record of a desktop that has a number. */
    method StoreMode(desk: int, mode: int)
      requires Core()
      modifies desktops
      ensures AllPlaced(homes, model.desks) && AllLinked(nodes, model.desks) && AllRanked(nodes, model.desks)
      ensures !(1 <= desk < desktops.Length && desk - 1 != model.cur) ==> Core()
      ensures forall j {:trigger desktops[j]} :: 0 <= j < desktops.Length ==>
        desktops[j] == if j == desk - 1 < desktops.Length - 1 then old(desktops[j]).(mode := mode) else old(desktops[j])
    {
      var k := desk - 1;
      if k < 0 || k >= desktops.Length - 1 { return; }
      desktops[k] := desktops[k].(mode := mode);
    }

    /** Record `k` has got its mode; the other records are what they were. */
    ghost method Remode(k: nat, mode: int)
      requires currentDesktop == model.cur < |model.desks| == desktops.Length && k < |model.desks| && Named(nodes)
      requires AllPlaced(homes, model.desks) && AllLinked(nodes, model.desks) && AllRanked(nodes, model.desks)
      requires forall j :: 0 <= j < |model.desks| && j != model.cur ==>
        desktops[j] == var r := RecordOf(nodes, model.desks[j]); if j == k then r.(mode := mode) else r
      modifies this`model
      ensures Core() && model == Update(old(model), k, old(model).desks[k].(mode := mode))
    {
      ModeKept(model.desks, k, mode);
      model := Update(model, k, model.desks[k].(mode := mode));
    }

    /** Before the start the records alone count: every numbered desktop gets its mode, the first one too. */
    method SetFirstMode(desk: int, mode: int)
      requires Stored()
      modifies desktops, this`model
      ensures Stored()
      ensures model == if 1 <= desk < |old(model).desks|
                       then Update(old(model), desk - 1, old(model).desks[desk - 1].(mode := mode)) else old(model)
    {
      StoreMode(desk, mode);
      if 1 <= desk < desktops.Length { Remode(desk - 1, mode); }
    }

    /** `xwm_startx`, as far as desktops go: the first record is loaded. */
    method Start()
      requires Stored()
      modifies this`live, this`currentDesktop, this`model
      ensures Valid() && model == old(model).(cur := 0) && live.mode == model.desks[0].mode
    {
      SelectDesktop(0);
    }

    /** While events are handled the registers count: the selected desktop keeps its mode, and its record is
        overwritten by the next save. */
    method SetDeskMode(desk: int, mode: int)
      requires Valid()
      modifies desktops, this`model
      ensures Valid()
      ensures model == if TakesMode(old(model), desk)
                       then Update(old(model), desk - 1, old(model).desks[desk - 1].(mode := mode)) else old(model)
    {
      StoreMode(desk, mode);
      if 1 <= desk < desktops.Length && desk - 1 != currentDesktop { Remode(desk - 1, mode); }
    }

    lemma ModeKept(desks: seq<Desk>, k: nat, mode: int)
      requires k < |desks| && AllPlaced(homes, desks) && AllLinked(nodes, desks) && AllRanked(nodes, desks)
      ensures var after := desks[k := desks[k].(mode := mode)];
        AllPlaced(homes, after) && AllLinked(nodes, after) && AllRanked(nodes, after)
    {
    }

    static lemma DropOne(v: seq<nat>, j: nat)
      requires j < |v|
      ensures v[j..][1..] == v[j + 1..]
    {
    }

    /** The loop of `xwm_destroynotify`; its bound moves with the selected desktop. */
    method SearchDesks(w: int)
      requires Valid() && desktops[model.cur] == live
      modifies this`live, this`currentDesktop, this`model, this`inputFocus, desktops
      modifies nodes.Values`prev, nodes.Values`next, nodes.Values`order
      ensures Valid() && desktops[model.cur] == live
      ensures model.(cur := old(model.cur)) == RemoveFirst(old(model), Visited(old(model.cur), |old(model.desks)|), w)
    {
      var first: nat, n := currentDesktop, desktops.Length;
      ghost var st, V := model, Visited(model.cur, n);
      ghost var goal := RemoveFirst(st, V, w);
      var i: nat := first;
      ghost var j: nat, rest := 0, V;
      while i < currentDesktop + n
        invariant Valid() && desktops[model.cur] == live
        invariant i == first + j && j <= |V| && rest == V[j..] && goal == RemoveFirst(st, rest, w)
        invariant SelectedAt(first, n, i, model.cur) && model == st.(cur := model.cur)
        decreases |V| - j
      {
        VisitedAt(first, n, i, model.cur);
        var done := VisitNext(i % n, w, st, rest);
        if done { return; }
        DropOne(V, j);
        i, j, rest := i + 1, j + 1, rest[1..];
      }
      GuardEnds(first, n, i, currentDesktop);
      assert rest == [];
    }

    /** `xwm_destroynotify`. */
    method DestroyNotify(w: int)
      requires Valid()
      modifies this`live, this`currentDesktop, this`model, this`inputFocus, desktops
      modifies nodes.Values`prev, nodes.Values`next, nodes.Values`order
      ensures Valid()
      ensures model == RemoveFirst(old(model), Visited(old(model.cur), |old(model.desks)|), w)
    {
      var tmp := currentDesktop;
      SaveDesktop();
      SearchDesks(w);
      SelectDesktop(tmp);
    }

    /** The next of the desktops to visit: the window is gone, or the others are still to be looked at. */
    method VisitNext(k: nat, w: int, ghost st: State, ghost rest: seq<nat>) returns (done: bool)
      requires Valid() && desktops[model.cur] == live && model == st.(cur := model.cur)
      requires rest != [] && k == rest[0] && forall i :: 0 <= i < |rest| ==> rest[i] < |st.desks|
      modifies this`live, this`currentDesktop, this`model, this`inputFocus, desktops
      modifies nodes.Values`prev, nodes.Values`next, nodes.Values`order
      ensures Valid() && desktops[model.cur] == live
      ensures done ==> model.(cur := st.cur) == RemoveFirst(st, rest, w)
      ensures !done ==> model == st.(cur := k) && RemoveFirst(st, rest, w) == RemoveFirst(st, rest[1..], w)
    {
      RemoveFirstStep(st, rest, w, model.cur);
      done := VisitDesk(k, w);
    }

    /** One turn of the loop of `xwm_destroynotify`. */
    method VisitDesk(k: nat, w: int) returns (done: bool)
      requires Valid() && desktops[model.cur] == live && k < |model.desks|
      modifies this`live, this`currentDesktop, this`model, this`inputFocus, desktops
      modifies nodes.Values`prev, nodes.Values`next, nodes.Values`order
      ensures Valid() && desktops[model.cur] == live
      ensures done == OnDesk(old(model), k, w)
      ensures model == (if done then Remove(old(model), k, w) else old(model)).(cur := k)
    {
      SelectDesktop(k);
      done := DestroyHere(w);
    }

    /** The search on one desktop: clients first, then transients. */
    method DestroyHere(w: int) returns (done: bool)
      requires Valid() && desktops[model.cur] == live
      modifies this`live, this`model, this`inputFocus, desktops
      modifies nodes.Values`prev, nodes.Values`next, nodes.Values`order
      ensures Valid() && desktops[model.cur] == live
      ensures done == OnDesk(old(model), old(model.cur), w)
      ensures model == if done then Remove(old(model), old(model.cur), w) else old(model)
    {
      assert Linked(nodes, Here().list) && Linked(nodes, Here().trans);
      var c := FindClient(live.head, w, Here().list);
      if c != null {
        RemoveWindow(w, false);
        return true;
      }
      c := FindClient(live.transient, w, Here().trans);
      if c != null {
        RemoveWindow(w, true);
        return true;
      }
      done := false;
    }

    /** `xwm_maprequest` without a matching `onmap` entry; `tw` is the transient-for hint. */
    method MapRequest(w: int, tw: bool)
      requires Valid() && (w in Here().list || Unused(model.desks, w))
      modifies this`live, this`model, this`nodes, this`homes, this`inputFocus, desktops
      modifies nodes.Values`prev, nodes.Values`order
      ensures Valid() && fresh(nodes.Values - old(nodes.Values))
      ensures model == if w in old(Here()).list then old(model)
                       else Update(old(model), old(model.cur), PushOn(old(Here()), tw, w))
    {
      assert Linked(nodes, Here().list);
      var c := FindClient(live.head, w, Here().list);
      if c != null { return; }
      AddWindow(w, tw);
      Refocus();
    }

    /** Add a window to a desktop and come back to the selected one. */
    method AddOn(w: int, desk: nat)
      requires Valid() && desk < |model.desks| && Unused(model.desks, w)
      modifies this`live, this`currentDesktop, this`model, this`nodes, this`homes, this`inputFocus
      modifies desktops, nodes.Values`prev, nodes.Values`order
      ensures Valid() && fresh(nodes.Values - old(nodes.Values))
      ensures model == Update(old(model), desk, Push(old(model).desks[desk], w))
    {
      var tmp := currentDesktop;
      SaveDesktop();
      SelectDesktop(desk);
      ghost var before := nodes.Values;
      AddIfMissing(w);
      assert fresh(nodes.Values - before);
      if tmp == desk {
        Refocus();
      } else {
        SelectDesktop(tmp);
      }
    }

    method AddIfMissing(w: int)
      requires Valid() && Unused(model.desks, w)
      modifies this`live, this`model, this`nodes, this`homes, desktops
      modifies nodes.Values`prev, nodes.Values`order
      ensures Valid() && desktops[model.cur] == live && fresh(nodes.Values - old(nodes.Values))
      ensures model == Update(old(model), old(model.cur), Push(old(Here()), w))
    {
      assert Linked(nodes, Here().list);
      var c := FindClient(live.head, w, Here().list);
      if c == null { AddWindow(w, false); }
    }

    /** `xwm_maprequest` when an `onmap` entry sends the window to a desktop. */
    method MapOnDesk(w: int, desk: nat, follow: bool)
      requires Valid() && desk < |model.desks| && (w in Here().list || Unused(model.desks, w))
      modifies this`live, this`currentDesktop, this`previousDesktop, this`model, this`nodes, this`homes, this`inputFocus
      modifies desktops, nodes.Values`prev, nodes.Values`order
      ensures Valid() && fresh(nodes.Values - old(nodes.Values))
      ensures model == if w in old(Here()).list then old(model)
                       else Update(old(model), desk, Push(old(model).desks[desk], w)).(
                              cur := if follow then desk else old(model.cur))
    {
      assert Linked(nodes, Here().list);
      var c := FindClient(live.head, w, Here().list);
      if c != null { return; }
      AddOn(w, desk);
      if follow && desk != currentDesktop { ChangeDesktop(desk); }
    }

    /** One event. */
    method Handle(e: Event)
      requires Valid() && Ok(model) && Admissible(model, e)
      modifies this`live, this`currentDesktop, this`previousDesktop, this`model, this`nodes, this`homes, this`inputFocus
      modifies desktops, nodes.Values`prev, nodes.Values`next, nodes.Values`order
      ensures Valid() && fresh(nodes.Values - old(nodes.Values))
      ensures model == Step(old(model), e)
    {
      UnmanagedIsUnused(model);
      match e
      case Map(w) => MapRequest(w, false);
      case MapTransient(w) => MapRequest(w, true);
      case MapOn(w, k, follow) => MapOnDesk(w, k, follow);
      case SetMode(k, mode) => SetDeskMode(k, mode);
      case FocusNext => NextWin();
      case FocusPrev => PrevWin();
      case Kill => KillClient();
      case Destroy(w) => DestroyNotify(w);
      case Unmap(w) => UnmapNotify(w);
      case SwitchTo(k) => ChangeDesktop(k);
    }

    /** `xwm_event_loop` over a finite run of events. */
    method HandleAll(es: seq<Event>)
      requires Valid() && Ok(model) && AllAdmissible(model, es)
      modifies this`live, this`currentDesktop, this`previousDesktop, this`model, this`nodes, this`homes, this`inputFocus
      modifies desktops, nodes.Values`prev, nodes.Values`next, nodes.Values`order
      ensures Valid() && Ok(model) && model == Steps(old(model), es)
      ensures fresh(nodes.Values - old(nodes.Values))
      decreases |es|
    {
      if es == [] { return; }
      StepOk(model, es[0]);
      Handle(es[0]);
      HandleAll(es[1..]);
    }
  }

  lemma UnmanagedIsUnused(st: State)
    requires Ok(st)
    ensures forall w :: !Managed(st, w) ==> Unused(st.desks, w)
  {
    forall w, k | !Managed(st, w) && 0 <= k < |st.desks|
      ensures w !in st.desks[k].list && w !in st.desks[k].mru && w !in st.desks[k].trans
    {
      assert !OnDesk(st, k, w) && DeskOk(st.desks[k]);
      if w in st.desks[k].mru { SameMembers(st.desks[k].mru, st.desks[k].list, w); }
    }
  }
}
