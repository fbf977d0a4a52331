/** The receiver's loop on a run of the protocol: what it is offered are the sender's writes. */
module IncrRun {
  import opened IncrSpec
  import opened IncrReceiver

  /** What reading the property gives. */
  function Seen(slot: Slot): Property {
    match slot
    case Absent => Property(false, 0, [])
    case IncrSize(size) => Property(false, 32, [size])
    case Text(bytes) => Property(true, 8, bytes)
  }

  /** The event of a turn that reaches the receiver while it is reading chunks, if there is one. */
  function EventOf(l: Local, side: Side): seq<Event>
    requires CanMove(l, side)
  {
    if side == Receiver && l.rx.Reading? then [Event(l.inbox[0], Seen(l.slot))] else []
  }

  /** The events of a run that reach it so. */
  function Offered(l: Local, sides: seq<Side>): seq<Event>
    decreases |sides|
  {
    if sides == [] || !CanMove(l, sides[0]) then []
    else EventOf(l, sides[0]) + Offered(Move(l, sides[0]), sides[1..])
  }

  /** The values read so far, with the one that lies in the property, are what the sender has written. */
  predicate ReadSoFar(l: Local, vs: seq<Property>) {
    match l.rx
    case Asked => vs == []
    case Reading(_, _) => Written(l.writes) == vs + if l.slot.Text? then [Seen(l.slot)] else []
    case _ => vs == Written(l.writes)
  }

  lemma WrittenSnoc(ws: seq<seq<int>>, w: seq<int>)
    ensures Written(ws + [w]) == Written(ws) + [Property(true, 8, w)]
  {
  }

  lemma SenderReadSoFar(d: seq<int>, l: Local, vs: seq<Property>)
    requires Inv(d, l) && |d| > MAX_REQ && CanMove(l, Sender) && ReadSoFar(l, vs)
    ensures ReadSoFar(SenderTakes(l), vs)
  {
    assert l.mail == [l.mail[0]] + l.mail[1..];
    if l.mail[0] && l.track.Some? {
      assert Pending(l.mail) > 0 && l.rx.Reading? && l.slot.Absent?;
      var w := React(l.track.value).1;
      assert vs + [] == vs;
      WrittenSnoc(l.writes, w.bytes);
    }
  }

  /** A new value that a reading receiver is told of is there to be read. */
  lemma NewValueIsText(d: seq<int>, l: Local)
    requires Inv(d, l) && l.rx.Reading? && l.inbox != [] && l.inbox[0] == NewValue
    ensures l.slot.Text?
  {
    Counting(l.mail, l.inbox);
  }

  lemma ReadingReadSoFar(l: Local, vs: seq<Property>)
    requires l.rx.Reading? && l.inbox != [] && ReadSoFar(l, vs) && (l.inbox[0] == NewValue ==> l.slot.Text?)
    ensures ReadSoFar(ReceiverTakes(l), vs + Values(EventOf(l, Receiver)))
  {
    var e := Event(l.inbox[0], Seen(l.slot));
    OneValue(e);
    assert vs + [] == vs;
    var ws := Written(l.writes);
    assert ws + [] == ws;
  }

  lemma OneValue(e: Event)
    ensures Values([e]) == if e.note == NewValue then [e.property] else []
  {
    assert [e][1..] == [];
  }

  lemma ReceiverReadSoFar(d: seq<int>, l: Local, vs: seq<Property>)
    requires Inv(d, l) && |d| > MAX_REQ && CanMove(l, Receiver) && ReadSoFar(l, vs)
    ensures ReadSoFar(ReceiverTakes(l), vs + Values(EventOf(l, Receiver)))
  {
    if l.rx.Reading? {
      if l.inbox[0] == NewValue { NewValueIsText(d, l); }
      ReadingReadSoFar(l, vs);
    } else {
      assert l.rx.Asked? && vs + [] == vs && Written([]) == [];
    }
  }

  lemma MoveReads(d: seq<int>, l: Local, side: Side, vs: seq<Property>)
    requires Inv(d, l) && |d| > MAX_REQ && CanMove(l, side) && ReadSoFar(l, vs)
    ensures Inv(d, Move(l, side)) && ReadSoFar(Move(l, side), vs + Values(EventOf(l, side)))
  {
    MoveKeepsInv(d, l, side);
    if side == Sender {
      SenderReadSoFar(d, l, vs);
      assert vs + [] == vs;
    } else {
      ReceiverReadSoFar(d, l, vs);
    }
  }

  lemma {:induction false} ValuesJoin(a: seq<Event>, b: seq<Event>)
    ensures Values(a + b) == Values(a) + Values(b)
    decreases |a|
  {
    if a == [] {
      assert a + b == b;
    } else {
      assert (a + b)[1..] == a[1..] + b;
      ValuesJoin(a[1..], b);
      Assoc(if a[0].note == NewValue then [a[0].property] else [], Values(a[1..]), Values(b));
    }
  }

  lemma Assoc<T>(a: seq<T>, b: seq<T>, c: seq<T>)
    ensures (a + b) + c == a + (b + c)
  {
  }

  lemma OfferedCons(l: Local, sides: seq<Side>, vs: seq<Property>)
    requires sides != [] && CanMove(l, sides[0])
    ensures vs + Values(EventOf(l, sides[0])) + Values(Offered(Move(l, sides[0]), sides[1..]))
         == vs + Values(Offered(l, sides))
  {
    var es, more := EventOf(l, sides[0]), Offered(Move(l, sides[0]), sides[1..]);
    ValuesJoin(es, more);
    Assoc(vs, Values(es), Values(more));
  }

  lemma {:induction false} PlayReads(d: seq<int>, l: Local, sides: seq<Side>, vs: seq<Property>)
    requires Inv(d, l) && |d| > MAX_REQ && ReadSoFar(l, vs) && Play(l, sides).Some?
    ensures ReadSoFar(Play(l, sides).value, vs + Values(Offered(l, sides)))
    decreases |sides|
  {
    if sides == [] {
      assert vs + [] == vs;
    } else {
      MoveReads(d, l, sides[0], vs);
      PlayReads(d, Move(l, sides[0]), sides[1..], vs + Values(EventOf(l, sides[0])));
      OfferedCons(l, sides, vs);
    }
  }

  /** The writes of a complete transfer stop the receiver at the last of them, and make up the selection. */
  lemma CompleteStops(d: seq<int>, l: Local)
    requires Inv(d, l) && |d| > MAX_REQ && l.rx.Got?
    ensures var vs := Written(l.writes); StopsAtLast(vs) && vs[|vs| - 1].text && AddedAll(vs) == d
  {
    var n := |l.writes|;
    assert l.writes[..n] == l.writes;
    assert forall i :: 0 <= i < n - 1 ==> l.writes[i] != [];
    CollectsSelection(d, l, n);
  }

  lemma StartReads(property: int, d: seq<int>, mail: seq<bool>)
    requires |d| > MAX_REQ && Pending(mail) == 0
    ensures var l := Start(property, d).(mail := mail); Inv(d, l) && ReadSoFar(l, [])
  {
    StartInvIff(property, d, mail);
  }

  /** In every run in which the receiver finishes, the values it is offered are the writes, and end with the
      empty one. */
  lemma OffersWrites(property: int, d: seq<int>, mail: seq<bool>, sides: seq<Side>)
    requires |d| > MAX_REQ && Pending(mail) == 0
    requires var end := Play(Start(property, d).(mail := mail), sides); end.Some? && end.value.rx.Got?
    ensures var l := Start(property, d).(mail := mail);
      var vs := Values(Offered(l, sides));
      && vs == Written(Play(l, sides).value.writes) && StopsAtLast(vs) && vs[|vs| - 1].text && AddedAll(vs) == d
  {
    var l := Start(property, d).(mail := mail);
    StartReads(property, d, mail);
    PlayReads(d, l, sides, []);
    PlayKeepsInv(d, l, sides);
    assert [] + Values(Offered(l, sides)) == Values(Offered(l, sides));
    CompleteStops(d, Play(l, sides).value);
  }

  lemma StopsOnce(vs: seq<Property>, k: nat)
    requires k <= |vs| && StopsAtLast(vs) && StopsAtLast(vs[..k])
    ensures k == |vs|
  {
  }

  /** The loop run on what the protocol offers it returns the selection. */
  method WaitRun(property: int, d: seq<int>, mail: seq<bool>, sides: seq<Side>) returns (result: Option<seq<int>>)
    requires |d| > MAX_REQ && Pending(mail) == 0
    requires var end := Play(Start(property, d).(mail := mail), sides); end.Some? && end.value.rx.Got?
    ensures result == Some(d)
  {
    var events := Offered(Start(property, d).(mail := mail), sides);
    ghost var vs := Values(events);
    OffersWrites(property, d, mail, sides);
    assert !GoesOn(vs);
    var used;
    result, used := WaitIncr(events, |d|);
    ValuesJoin(events[..used], events[used..]);
    assert events[..used] + events[used..] == events;
    ghost var k := |Values(events[..used])|;
    assert vs[..k] == Values(events[..used]);
    StopsOnce(vs, k);
    assert vs[..k] == vs;
  }
}
