/** The overstrike filter of the pager: a backspace erases itself and the character before it, in place
    on a doubly linked list of characters. */
module Overstrike {

  const BACKSPACE: int := 8

  datatype Item = Item(code: int, len: nat)

  /** The filter as a stack: a backspace pops, anything else is pushed. */
  function Strike(kept: seq<Item>, rest: seq<Item>): seq<Item>
    decreases |rest|
  {
    if rest == [] then kept
    else if rest[0].code == BACKSPACE then Strike(Pop(kept), rest[1..])
    else Strike(kept + [rest[0]], rest[1..])
  }

  function Bytes(s: seq<Item>): nat {
    if s == [] then 0 else s[0].len + Bytes(s[1..])
  }

  lemma {:induction false} BytesConcat(a: seq<Item>, b: seq<Item>)
    ensures Bytes(a + b) == Bytes(a) + Bytes(b)
  {
    if a == [] {
      assert a + b == b;
    } else {
      assert (a + b)[1..] == a[1..] + b;
      BytesConcat(a[1..], b);
    }
  }

  // ----- What the stack leaves -----

  /** The number of places backspaces take back, read from the right: how many characters before
      position `i` are erased by what follows. */
  function Debt(s: seq<Item>, i: nat): nat
    requires i <= |s|
    decreases |s| - i
  {
    if i == |s| then 0
    else if s[i].code == BACKSPACE then Debt(s, i + 1) + 1
    else if Debt(s, i + 1) > 0 then Debt(s, i + 1) - 1 else 0
  }

  /** The items that survive: characters no later backspace reaches. */
  function Survivors(s: seq<Item>): seq<Item> {
    if s == [] then []
    else
      (if s[0].code != BACKSPACE && Debt(s, 1) == 0 then [s[0]] else []) + Survivors(s[1..])
  }

  lemma {:induction false} DebtTail(s: seq<Item>, i: nat)
    requires 0 < i <= |s|
    ensures Debt(s, i) == Debt(s[1..], i - 1)
    decreases |s| - i
  {
    if i < |s| { DebtTail(s, i + 1); }
  }

  /** A stack after `d` pops, which may be more than it holds. */
  function Keep(kept: seq<Item>, d: nat): seq<Item> {
    if d < |kept| then kept[..|kept| - d] else []
  }

  function Pop(kept: seq<Item>): seq<Item> {
    if kept == [] then [] else kept[..|kept| - 1]
  }

  lemma KeepSteps(kept: seq<Item>, x: Item, d: nat)
    ensures Keep(Pop(kept), d) == Keep(kept, d + 1)
    ensures d > 0 ==> Keep(kept + [x], d) == Keep(kept, d - 1)
    ensures Keep(kept, 0) == kept
  {
  }

  /** Popping from the left and counting from the right keep the same characters: each backspace takes
      the nearest character before it that is still there. */
  lemma {:induction false} StrikeKeepsSurvivors(kept: seq<Item>, rest: seq<Item>)
    ensures Strike(kept, rest) == Keep(kept, Debt(rest, 0)) + Survivors(rest)
    decreases |rest|
  {
    if rest == [] {
      KeepSteps(kept, Item(0, 0), 0);
    } else {
      var x, more := rest[0], rest[1..];
      SurvivorsStep(rest);
      if x.code == BACKSPACE {
        KeepSteps(kept, x, Debt(more, 0));
        StrikeKeepsSurvivors(Pop(kept), more);
      } else {
        StrikeKeepsSurvivors(kept + [x], more);
        PushStep(kept, x, Debt(more, 0), Survivors(more));
      }
    }
  }

  lemma SurvivorsStep(s: seq<Item>)
    requires s != []
    ensures var d := Debt(s[1..], 0);
      if s[0].code == BACKSPACE then Debt(s, 0) == d + 1 && Survivors(s) == Survivors(s[1..])
      else
        && Debt(s, 0) == (if d > 0 then d - 1 else 0)
        && Survivors(s) == (if d == 0 then [s[0]] else []) + Survivors(s[1..])
  {
    DebtTail(s, 1);
    assert [] + Survivors(s[1..]) == Survivors(s[1..]);
  }

  lemma PushStep(kept: seq<Item>, x: Item, d: nat, more: seq<Item>)
    ensures Keep(kept + [x], d) + more == Keep(kept, if d > 0 then d - 1 else 0) + ((if d == 0 then [x] else []) + more)
  {
    KeepSteps(kept, x, d);
    KeepSteps(kept + [x], x, 0);
    assert d == 0 ==> kept + [x] + more == kept + ([x] + more);
    assert [] + more == more;
  }

  // ----- The list -----

  class Node {
    const item: Item
    var prev: Node?
    var next: Node?

    constructor (item: Item)
      ensures this.item == item && prev == null && next == null
    {
      this.item, prev, next := item, null, null;
    }
  }

  function At(l: seq<Node>, i: int): Node? {
    if 0 <= i < |l| then l[i] else null
  }

  ghost predicate Linked(l: seq<Node>)
    reads l
  {
    && (forall i, j :: 0 <= i < j < |l| ==> l[i] != l[j])
    && (forall i {:trigger l[i].prev} :: 0 <= i < |l| ==> l[i].prev == At(l, i - 1))
    && (forall i {:trigger l[i].next} :: 0 <= i < |l| ==> l[i].next == At(l, i + 1))
  }

  function Items(l: seq<Node>): (s: seq<Item>)
    ensures |s| == |l| && forall i :: 0 <= i < |l| ==> s[i] == l[i].item
  {
    seq(|l|, i requires 0 <= i < |l| => l[i].item)
  }

  class UString {
    var head: Node?
    var tail: Node?
    var numItems: int
    var len: int
    ghost var list: seq<Node>

    /** The links. */
    ghost predicate Chained()
      reads this`head, this`tail, this`list, list
    {
      Linked(list) && head == At(list, 0) && tail == At(list, |list| - 1)
    }

    /** The links and the counts. */
    ghost predicate Valid()
      reads this, list
    {
      Chained() && numItems == |list| && len == Bytes(Items(list))
    }

    /** Erase the first character: it is a backspace with nothing before it. */
    method EraseFirst(it: Node)
      requires Chained() && list != [] && it == list[0] && |list| > 1
      modifies this`head, this`list, (set n | n in list)`prev, (set n | n in list)`next
      ensures list == old(list)[1..] && Chained()
      ensures it.next == old(it.next)
    {
      it.next.prev := null;
      head := it.next;
      list := list[1..];
    }

    /** Redirect the links around place `k > 0` and the place before it. */
    method BypassTwo(it: Node, ghost k: nat)
      requires Chained()
      requires 0 < k < |list| && it == list[k]
      modifies this`head, this`tail, (set n | n in list)`prev, (set n | n in list)`next
      ensures head == if k == 1 then At(list, 2) else old(head)
      ensures tail == if k + 1 == |list| then At(list, k - 2) else old(tail)
      ensures forall i {:trigger list[i].prev} :: 0 <= i < |list| ==>
        list[i].prev == if i == k + 1 then At(list, k - 2) else At(list, i - 1)
      ensures forall i {:trigger list[i].next} :: 0 <= i < |list| ==>
        list[i].next == if i == k - 2 then At(list, k + 1) else At(list, i + 1)
    {
      assert it.prev == list[k - 1] && it.next == At(list, k + 1) && it.prev.prev == At(list, k - 2);
      if it.prev.prev != null { it.prev.prev.next := it.next; } else { head := it.next; }
      if it.next != null { it.next.prev := it.prev.prev; } else { tail := it.prev.prev; }
    }

    /** Erase the character at place `k > 0`, a backspace, and the one before it. */
    method EraseTwo(it: Node, ghost k: nat)
      requires Chained()
      requires 0 < k < |list| && it == list[k]
      modifies this`head, this`tail, this`list, (set n | n in list)`prev, (set n | n in list)`next
      ensures list == old(list)[..k - 1] + old(list)[k + 1..]
      ensures Chained()
      ensures it.next == At(list, k - 1)
    {
      ghost var before, after := list, list[..k - 1] + list[k + 1..];
      BypassTwo(it, k);
      Unlinked(before, k);
      DropTwoAt(before, k, -1);
      DropTwoAt(before, k, |after|);
      list := after;
    }

    /** Once the links pass two nodes by, the others are linked to each other. */
    lemma Unlinked(l: seq<Node>, k: nat)
      requires 0 < k < |l| && forall i, j :: 0 <= i < j < |l| ==> l[i] != l[j]
      requires forall i {:trigger l[i].prev} :: 0 <= i < |l| ==>
        l[i].prev == if i == k + 1 then At(l, k - 2) else At(l, i - 1)
      requires forall i {:trigger l[i].next} :: 0 <= i < |l| ==>
        l[i].next == if i == k - 2 then At(l, k + 1) else At(l, i + 1)
      ensures Linked(l[..k - 1] + l[k + 1..]) && l[k].next == At(l[..k - 1] + l[k + 1..], k - 1)
    {
      var t := l[..k - 1] + l[k + 1..];
      DropTwo(l, k);
      forall i | 0 <= i < |t|
        ensures t[i].prev == At(t, i - 1)
        ensures t[i].next == At(t, i + 1)
      {
        DropTwoAt(l, k, i);
        assert t[i] == l[if i < k - 1 then i else i + 2];
      }
      if k - 1 < |t| { assert t[k - 1] == l[k + 1]; }
    }

    lemma DropTwo(l: seq<Node>, k: nat)
      requires 0 < k < |l| && forall i, j :: 0 <= i < j < |l| ==> l[i] != l[j]
      ensures var t := l[..k - 1] + l[k + 1..];
              && |t| == |l| - 2
              && (forall i, j :: 0 <= i < j < |t| ==> t[i] != t[j])
    {
      var t := l[..k - 1] + l[k + 1..];
      assert forall i :: 0 <= i < |t| ==> t[i] == l[if i < k - 1 then i else i + 2];
    }

    /** Place `i` of the list without two of its nodes, and the places beside it, in terms of the whole list. */
    lemma DropTwoAt(l: seq<Node>, k: nat, i: int)
      requires 0 < k < |l| && -1 <= i <= |l| - 2
      ensures var t, j := l[..k - 1] + l[k + 1..], if i < k - 1 then i else i + 2;
        && At(t, i) == At(l, j)
        && At(t, i - 1) == (if j == k + 1 then At(l, k - 2) else At(l, j - 1))
        && At(t, i + 1) == (if j == k - 2 then At(l, k + 1) else At(l, j + 1))
    {
    }

    /** The filter loop of `pager_new` on one line.  A backspace is one byte long. */
    method Filter()
      requires Valid() && SingleByteBackspaces(Items(list))
      modifies this, list
      ensures Valid() && Items(list) == Strike([], Items(old(list)))
    {
      var it := head;
      ghost var k: nat := 0;
      ghost var start := Items(list);
      while it != null
        invariant Valid() && SingleByteBackspaces(Items(list)) 
        invariant forall n :: n in list ==> n in old(list)
        invariant k <= |list| && it == At(list, k)
        invariant Strike([], start) == Todo(k)
        decreases |list| - k
      {
        it, k := Turn(it, k);
      }
    }

    /** The stack with the items before place `k` on it and the others to come. */
    ghost function Todo(k: nat): seq<Item>
      requires k <= |list|
      reads this`list
    {
      Strike(Items(list)[..k], Items(list)[k..])
    }

    lemma ErasedTodo(l: seq<Node>, k: nat)
      requires k < |l| && SingleByteBackspaces(Items(l)) && l[k].item.code == BACKSPACE
      ensures var t := if k == 0 then l[1..] else l[..k - 1] + l[k + 1..];
              var j := if k == 0 then 0 else k - 1;
              && SingleByteBackspaces(Items(t)) && (forall n :: n in t ==> n in l)
              && Strike(Items(t)[..j], Items(t)[j..]) == Strike(Items(l)[..k], Items(l)[k..])
    {
      StrikeStep(Items(l), k);
      ErasedItems(l, k);
    }

    /** One turn of the loop. */
    method Turn(it: Node, ghost k: nat) returns (next: Node?, ghost k': nat)
      requires Valid() && SingleByteBackspaces(Items(list)) && k < |list| && it == list[k]
      modifies this, (set n | n in list)`prev, (set n | n in list)`next
      ensures Valid() && SingleByteBackspaces(Items(list)) && forall n :: n in list ==> n in old(list)
      ensures k' <= |list| && next == At(list, k') && Todo(k') == old(Todo(k)) && |list| - k' < old(|list|) - k
    {
      if it.item.code == BACKSPACE {
        assert Items(list)[k] == it.item;
        ErasedTodo(list, k);
        next := Erase(it, k);
        k' := if k == 0 then 0 else k - 1;
      } else {
        StrikeStep(Items(list), k);
        next := it.next;
        k' := k + 1;
      }
    }

    /** A backspace with nothing before it erases itself. */
    method DropFirst(it: Node) returns (next: Node?)
      requires Valid() && list != [] && it == list[0] && it.item == Item(BACKSPACE, 1)
      modifies this, (set n | n in list)`prev, (set n | n in list)`next
      ensures Valid() && list == old(list)[1..] && next == At(list, 0)
    {
      StrikeStep(Items(list), 0);
      assert Items(list[1..]) == Items(list)[1..];
      assert it.next == At(list, 1);
      len := len - 1;
      numItems := numItems - 1;
      if it.next == null {
        head, tail := null, null;
        list := [];
        return null;
      }
      EraseFirst(it);
      next := it.next;
    }

    /** A backspace erases itself and the character before it. */
    method DropPair(it: Node, ghost k: nat) returns (next: Node?)
      requires Valid() && 0 < k < |list| && it == list[k] && it.item == Item(BACKSPACE, 1)
      modifies this, (set n | n in list)`prev, (set n | n in list)`next
      ensures Valid() && list == old(list)[..k - 1] + old(list)[k + 1..] && next == At(list, k - 1)
    {
      PairBytes(list, k);
      assert it.prev == list[k - 1];
      len := len - 1 - it.prev.item.len;
      numItems := numItems - 2;
      EraseTwo(it, k);
      next := it.next;
    }

    lemma PairBytes(l: seq<Node>, k: nat)
      requires 0 < k < |l| && l[k].item.code == BACKSPACE
      ensures Bytes(Items(l)) == Bytes(Items(l[..k - 1] + l[k + 1..])) + l[k - 1].item.len + l[k].item.len
    {
      BytesWithout(Items(l), k);
      var t := l[..k - 1] + l[k + 1..];
      assert Items(t) == Items(l)[..k - 1] + Items(l)[k + 1..];
    }

    method Erase(it: Node, ghost k: nat) returns (next: Node?)
      requires Valid() && k < |list| && it == list[k] && it.item == Item(BACKSPACE, 1)
      modifies this, (set n | n in list)`prev, (set n | n in list)`next
      ensures Valid() && list == if k == 0 then old(list)[1..] else old(list)[..k - 1] + old(list)[k + 1..]
      ensures next == At(list, if k == 0 then 0 else k - 1)
    {
      assert it.prev == At(list, k - 1);
      if it.prev == null {
        next := DropFirst(it);
      } else {
        next := DropPair(it, k);
      }
    }
  }

  lemma ErasedItems(l: seq<Node>, k: nat)
    requires k < |l| && SingleByteBackspaces(Items(l))
    ensures k == 0 ==> Items(l[1..]) == Items(l)[1..] && SingleByteBackspaces(Items(l[1..]))
    ensures k > 0 ==>
      var t := l[..k - 1] + l[k + 1..];
      Items(t) == Items(l)[..k - 1] + Items(l)[k + 1..] && SingleByteBackspaces(Items(t))
  {
    if k > 0 {
      var t := l[..k - 1] + l[k + 1..];
      assert forall i :: 0 <= i < |t| ==> t[i] == l[if i < k - 1 then i else i + 2];
    }
  }

  predicate SingleByteBackspaces(s: seq<Item>) {
    forall i :: 0 <= i < |s| ==> s[i].code == BACKSPACE ==> s[i].len == 1
  }

  /** One turn of the loop, on the items: the stack is what lies before place `k`. */
  lemma StrikeStep(s: seq<Item>, k: nat)
    requires k < |s|
    ensures s[k].code != BACKSPACE ==> Strike(s[..k], s[k..]) == Strike(s[..k + 1], s[k + 1..])
    ensures s[k].code == BACKSPACE && k == 0 ==>
      Strike(s[..0], s[0..]) == Strike(s[1..][..0], s[1..][0..]) && Bytes(s) == Bytes(s[1..]) + s[0].len
    ensures s[k].code == BACKSPACE && k > 0 ==>
      var t := s[..k - 1] + s[k + 1..];
      Strike(s[..k], s[k..]) == Strike(t[..k - 1], t[k - 1..]) && Bytes(s) == Bytes(t) + s[k - 1].len + s[k].len
  {
    assert s[k..][1..] == s[k + 1..];
    assert s[..k] + [s[k]] == s[..k + 1];
    if s[k].code == BACKSPACE {
      if k == 0 {
        assert s[1..][..0] == [] && s[1..][0..] == s[1..];
      } else {
        var t := s[..k - 1] + s[k + 1..];
        assert Pop(s[..k]) == t[..k - 1] && t[k - 1..] == s[k + 1..];
        BytesWithout(s, k);
      }
    }
  }

  lemma BytesWithout(s: seq<Item>, k: nat)
    requires 0 < k < |s|
    ensures Bytes(s) == Bytes(s[..k - 1] + s[k + 1..]) + s[k - 1].len + s[k].len
  {
    var a, pair, b := s[..k - 1], [s[k - 1], s[k]], s[k + 1..];
    assert s[k - 1..] == pair + b && s == a + s[k - 1..];
    BytesConcat(a, pair + b);
    BytesConcat(pair, b);
    BytesConcat(a, b);
    assert pair[1..] == [s[k]] && [s[k]][1..] == [];
  }

  /** The filtered line holds exactly the characters that no later backspace reaches. */
  lemma FilterKeepsSurvivors(line: seq<Item>)
    ensures Strike([], line) == Survivors(line)
  {
    StrikeKeepsSurvivors([], line);
  }

  lemma {:induction false} SurvivorsHaveNoBackspace(line: seq<Item>)
    ensures forall i :: 0 <= i < |Survivors(line)| ==> Survivors(line)[i].code != BACKSPACE
  {
    if line != [] { SurvivorsHaveNoBackspace(line[1..]); }
  }
}
