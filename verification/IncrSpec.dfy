/** Incremental selection transfers (section 2.7.2, INCR Properties, of the Inter-Client Communication
    Conventions Manual): one transfer seen by itself, as a sender and a receiver that communicate only
    through one property and the notifications about it. */
module IncrSpec {

  const MAX_REQ: nat := 4000

  datatype Option<T> = None | Some(value: T)

  /** The sender's record of a transfer.  The format is 8, so elements are bytes and the largest chunk
      is `MAX_REQ` of them. */
  datatype Track = Track(property: int, data: seq<int>, offset: nat, chunk: nat, stage: Stage)

  datatype Stage = Incr1 | Incr2

  function Min(a: int, b: int): int { if a < b then a else b }

  function NewTrack(property: int, data: seq<int>): Track {
    Track(property, data, 0, Min(MAX_REQ, |data|), Incr1)
  }

  datatype Write = Write(append: bool, bytes: seq<int>)

  /** `incr_stage_1` and `incr_stage_2`: what is written, and the record afterwards, none when finished. */
  function React(t: Track): (Option<Track>, Write)
    requires TrackOk(t)
  {
    match t.stage
    case Incr1 =>
      (Some(t.(offset := t.offset + t.chunk, stage := Incr2)), Write(false, t.data[..t.chunk]))
    case Incr2 =>
      var chunk := Min(MAX_REQ, |t.data| - t.offset);
      if chunk <= 0 then (None, Write(true, []))
      else (Some(t.(chunk := chunk, offset := t.offset + chunk)), Write(true, t.data[t.offset..t.offset + chunk]))
  }

  /** Offsets stay inside the data, and the first stage is about to write the first chunk. */
  predicate TrackOk(t: Track) {
    && t.offset <= |t.data|
    && (t.stage == Incr1 ==> t.offset == 0 && t.chunk == Min(MAX_REQ, |t.data|))
  }

  /** The property on the requestor's window. */
  datatype Slot = Absent | IncrSize(size: nat) | Text(bytes: seq<int>)

  /** `XChangeProperty`; appending to a property of another type is an error and changes nothing. */
  function Put(slot: Slot, w: Write): Slot {
    if w.append && slot.Text? then Text(slot.bytes + w.bytes)
    else if w.append && slot.IncrSize? then slot
    else Text(w.bytes)
  }

  datatype Note = NewValue | Deleted | Selection

  /** The receiver: waiting for the selection, reading chunks, holding the result, or failed. */
  datatype Rx = Asked | Reading(buf: seq<int>, alloc: nat) | Got(buf: seq<int>) | Lost

  /** One transfer: the sender's record, the notifications on their way to it (true for a deletion), the
      property, the notifications on their way to the receiver, the receiver, and the chunks written so far. */
  datatype Local = Local(track: Option<Track>, mail: seq<bool>, slot: Slot, inbox: seq<Note>, rx: Rx,
                         writes: seq<seq<int>>)

  /** `change_property`: small data goes out at once, large data only announces its size. */
  function Start(property: int, data: seq<int>): Local {
    if |data| <= MAX_REQ then Local(None, [], Text(data), [NewValue, Selection], Asked, [])
    else Local(Some(NewTrack(property, data)), [], IncrSize(|data|), [NewValue, Selection], Asked, [])
  }

  predicate GoodTrack(l: Local) { l.track.Some? ==> TrackOk(l.track.value) }

  /** One turn of the sender's event loop: `set_selection` and `continue_incr`. */
  function SenderTakes(l: Local): Local
    requires l.mail != [] && GoodTrack(l)
  {
    var rest := l.(mail := l.mail[1..]);
    if !l.mail[0] || l.track.None? then rest
    else
      var (next, w) := React(l.track.value);
      rest.(track := next, mail := rest.mail + [false], slot := Put(l.slot, w),
            inbox := l.inbox + [NewValue] + (if next.None? then [Selection] else []),
            writes := l.writes + [w.bytes])
  }

  predicate Listening(rx: Rx) { rx.Asked? || rx.Reading? }

  /** Delete the property if it is there; both sides are notified. */
  function Delete(l: Local): Local {
    if l.slot.Absent? then l else l.(slot := Absent, mail := l.mail + [true], inbox := l.inbox + [Deleted])
  }

  /** `get_append_property`: read and delete the property, append a chunk, stop at an empty one. */
  function Fetch(l: Local): Local
    requires l.rx.Reading?
  {
    match l.slot
    case Absent => l.(rx := Lost)
    case IncrSize(_) => Delete(l).(rx := Lost)
    case Text(b) =>
      Delete(l).(rx := Appended(l.rx.buf, l.rx.alloc, b))
  }

  /** A chunk is appended to the buffer, which grows if need be; an empty one ends the transfer. */
  function Appended(buf: seq<int>, alloc: nat, b: seq<int>): Rx {
    if b == [] then Got(buf)
    else Reading(buf + b, if |buf| + |b| + 1 > alloc then |buf| + |b| + 1 else alloc)
  }

  /** One turn of the receiver's loops: `wait_selection`, then `wait_incr_selection`. */
  function ReceiverTakes(l: Local): Local
    requires l.inbox != [] && Listening(l.rx)
  {
    var rest := l.(inbox := l.inbox[1..]);
    if l.rx.Asked? && l.inbox[0] == Selection then
      match l.slot
      case Absent => rest.(rx := Lost)
      case IncrSize(n) => Delete(rest).(rx := Reading([], n))
      case Text(b) => Delete(rest).(rx := Got(b))
    else if l.rx.Reading? && l.inbox[0] == NewValue then Fetch(rest)
    else rest
  }

  // ----- What holds in every reachable state -----

  function Chunks(n: nat): nat { (n + MAX_REQ - 1) / MAX_REQ }

  function Flatten(ws: seq<seq<int>>): seq<int> {
    if ws == [] then [] else Flatten(ws[..|ws| - 1]) + ws[|ws| - 1]
  }

  /** The number of deletions on their way to the sender. */
  function Pending(mail: seq<bool>): nat { multiset(mail)[true] }

  function Fresh(inbox: seq<Note>): nat { multiset(inbox)[NewValue] }

  /** The sender's record fits what has been written. */
  predicate Sent(d: seq<int>, t: Track, writes: seq<seq<int>>) {
    && t.data == d && TrackOk(t) && |d| > MAX_REQ
    && t.offset == Min(|d|, MAX_REQ * |writes|) && (t.stage == Incr1 <==> writes == [])
    && (writes != [] ==> MAX_REQ * (|writes| - 1) < |d|)
    && Flatten(writes) == d[..t.offset]
  }

  predicate WritesOk(d: seq<int>, l: Local) {
    && (forall i :: 0 <= i < |l.writes| ==>
          |l.writes[i]| <= MAX_REQ && (l.writes[i] == [] ==> l.track.None? && i == |l.writes| - 1))
    && match l.track
       case Some(t) => Sent(d, t, l.writes)
       case None =>
         if |d| <= MAX_REQ then l.writes == []
         else |l.writes| == Chunks(|d|) + 1 && l.writes[|l.writes| - 1] == [] && Flatten(l.writes) == d
  }

  /** The phases of a transfer of the bytes `d`. */
  predicate Inv(d: seq<int>, l: Local) {
    && WritesOk(d, l)
    && match l.rx
       case Asked =>
         && (l.inbox == [NewValue, Selection] || l.inbox == [Selection])
         && l.writes == [] && (|d| > MAX_REQ ==> Pending(l.mail) == 0)
         && (if |d| <= MAX_REQ then l.slot == Text(d) else l.slot == IncrSize(|d|) && l.track.Some?)
       case Reading(buf, alloc) =>
         && alloc > |buf| && |d| > MAX_REQ
         && (match l.slot
             case Absent => l.track.Some? && buf == d[..l.track.value.offset]
                            && Pending(l.mail) == 1 && Fresh(l.inbox) == 0
             case Text(c) => Pending(l.mail) == 0 && Fresh(l.inbox) == 1 && l.writes != []
                             && (match l.track
                                 case Some(t) => c != [] && buf + c == d[..t.offset]
                                 case None => c == [] && buf == d)
             case IncrSize(_) => false)
       case Got(buf) => buf == d && l.slot.Absent? && l.track.None?
       case Lost => false
  }

  /** A request establishes this exactly when it is small or no deletion of an earlier transfer on its
      property is still on its way to the sender. */
  lemma StartInvIff(property: int, d: seq<int>, mail: seq<bool>)
    ensures Inv(d, Start(property, d).(mail := mail)) <==> |d| <= MAX_REQ || Pending(mail) == 0
  {
    assert Flatten([]) == d[..0];
  }

  lemma SenderKeepsInv(d: seq<int>, l: Local)
    requires Inv(d, l) && l.mail != []
    ensures Inv(d, SenderTakes(l))
  {
    assert l.mail == [l.mail[0]] + l.mail[1..];
    if l.mail[0] && l.track.Some? {
      assert Pending(l.mail) > 0 && l.rx.Reading? && l.slot.Absent?;
      SenderWrites(d, l);
    }
  }

  /** The next chunk continues the data where the last one ended; after the last comes one empty write. */
  lemma NextWrite(d: seq<int>, t: Track, writes: seq<seq<int>>)
    requires Sent(d, t, writes)
    ensures var (next, w) := React(t);
            var after := writes + [w.bytes];
            && |w.bytes| <= MAX_REQ && (w.append <==> t.stage == Incr2)
            && Flatten(after) == d[..t.offset] + w.bytes
            && (next.Some? ==> w.bytes != [] && Sent(d, next.value, after))
            && (next.None? ==> w.bytes == [] && t.offset == |d| && |after| == Chunks(|d|) + 1)
  {
    var (next, w) := React(t);
    var after := writes + [w.bytes];
    assert after[..|writes|] == writes;
    if next.Some? { assert d[..t.offset] + w.bytes == d[..next.value.offset]; }
  }

  lemma SenderWrites(d: seq<int>, l: Local)
    requires Inv(d, l) && l.mail != [] && l.mail[0] && l.track.Some? && l.rx.Reading? && l.slot.Absent?
    ensures Inv(d, SenderTakes(l))
  {
    var t := l.track.value;
    NextWrite(d, t, l.writes);
    assert l.mail == [true] + l.mail[1..];
    assert d[..|d|] == d;
    var (next, w) := React(t);
    assert SenderTakes(l).slot == Text(w.bytes);
    assert Fresh(l.inbox + [NewValue]) == 1 && Fresh(l.inbox + [NewValue] + [Selection]) == 1;
    assert Pending(l.mail[1..] + [false]) == 0;
    if next.Some? { assert l.rx.buf + w.bytes == d[..next.value.offset]; }
  }

  lemma Counting(mail: seq<bool>, inbox: seq<Note>)
    ensures Pending(mail + [true]) == Pending(mail) + 1
    ensures Fresh(inbox + [Deleted]) == Fresh(inbox)
    ensures inbox != [] ==> Fresh(inbox) == Fresh(inbox[1..]) + if inbox[0] == NewValue then 1 else 0
  {
    if inbox != [] { assert inbox == [inbox[0]] + inbox[1..]; }
  }

  lemma AskedKeepsInv(d: seq<int>, l: Local)
    requires Inv(d, l) && l.inbox != [] && l.rx.Asked?
    ensures Inv(d, ReceiverTakes(l))
  {
    Counting(l.mail, l.inbox);
    Counting(l.mail, l.inbox[1..]);
    assert d[..0] == [];
  }

  lemma ReadingKeepsInv(d: seq<int>, l: Local)
    requires Inv(d, l) && l.inbox != [] && l.rx.Reading?
    ensures Inv(d, ReceiverTakes(l))
  {
    Counting(l.mail, l.inbox);
    Counting(l.mail, l.inbox[1..]);
    if l.inbox[0] == NewValue { assert l.slot.Text?; }
  }

  lemma ReceiverKeepsInv(d: seq<int>, l: Local)
    requires Inv(d, l) && l.inbox != [] && Listening(l.rx)
    ensures Inv(d, ReceiverTakes(l))
  {
    if l.rx.Asked? { AskedKeepsInv(d, l); } else { ReadingKeepsInv(d, l); }
  }

  // ----- Runs of the two parties -----

  datatype Side = Sender | Receiver

  predicate CanMove(l: Local, side: Side) {
    if side == Sender then l.mail != [] && GoodTrack(l) else l.inbox != [] && Listening(l.rx)
  }

  function Move(l: Local, side: Side): Local
    requires CanMove(l, side)
  {
    if side == Sender then SenderTakes(l) else ReceiverTakes(l)
  }

  /** Turns in the given order, if they are possible. */
  function Play(l: Local, sides: seq<Side>): Option<Local>
    decreases |sides|
  {
    if sides == [] then Some(l)
    else if !CanMove(l, sides[0]) then None
    else Play(Move(l, sides[0]), sides[1..])
  }

  /** A receiver that has finished holds the selection. */
  predicate Sound(d: seq<int>, l: Option<Local>) {
    l.Some? && l.value.rx.Got? ==> l.value.rx.buf == d
  }

  lemma {:induction false} PlayKeepsInv(d: seq<int>, l: Local, sides: seq<Side>)
    requires Inv(d, l)
    ensures Play(l, sides).Some? ==> Inv(d, Play(l, sides).value)
    decreases |sides|
  {
    if sides != [] && CanMove(l, sides[0]) {
      MoveKeepsInv(d, l, sides[0]);
      PlayKeepsInv(d, Move(l, sides[0]), sides[1..]);
    }
  }

  lemma MoveKeepsInv(d: seq<int>, l: Local, side: Side)
    requires Inv(d, l) && CanMove(l, side)
    ensures Inv(d, Move(l, side))
  {
    if side == Sender { SenderKeepsInv(d, l); } else { ReceiverKeepsInv(d, l); }
  }

  /** A deletion left over from an earlier transfer is taken for an answer to the size: the receiver, who has
      not read it yet, then finds the first chunk and takes it for the whole selection. */
  lemma {:induction false} StaleDeletionTruncates(property: int, d: seq<int>, mail: seq<bool>)
      returns (sides: seq<Side>)
    requires |d| > MAX_REQ && Pending(mail) > 0
    ensures var end := Play(Start(property, d).(mail := mail), sides);
      end.Some? && end.value.rx == Got(d[..MAX_REQ]) && d[..MAX_REQ] != d
    decreases |mail|
  {
    var l := Start(property, d).(mail := mail);
    assert mail == [mail[0]] + mail[1..];
    if mail[0] {
      sides := [Sender, Receiver, Receiver];
      TruncatedAtOnce(property, d, mail);
    } else {
      var more := StaleDeletionTruncates(property, d, mail[1..]);
      sides := [Sender] + more;
      assert sides[1..] == more && SenderTakes(l) == Start(property, d).(mail := mail[1..]);
    }
  }

  lemma TruncatedAtOnce(property: int, d: seq<int>, mail: seq<bool>)
    requires |d| > MAX_REQ && mail != [] && mail[0]
    ensures var end := Play(Start(property, d).(mail := mail), [Sender, Receiver, Receiver]);
      end.Some? && end.value.rx == Got(d[..MAX_REQ])
  {
    var l := SenderTakes(Start(property, d).(mail := mail));
    assert l.inbox == [NewValue, Selection, NewValue] && l.slot == Text(d[..MAX_REQ]);
    var m := ReceiverTakes(l);
    assert m.inbox == [Selection, NewValue];
    PlayThree(Start(property, d).(mail := mail));
  }

  lemma PlayThree(l: Local)
    requires CanMove(l, Sender) && CanMove(Move(l, Sender), Receiver)
    requires CanMove(Move(Move(l, Sender), Receiver), Receiver)
    ensures Play(l, [Sender, Receiver, Receiver]) == Some(Move(Move(Move(l, Sender), Receiver), Receiver))
  {
    assert [Sender, Receiver, Receiver][1..] == [Receiver, Receiver] && [Receiver, Receiver][1..] == [Receiver];
    assert [Receiver][1..] == [];
  }

  /** With two such deletions the second chunk is appended to the first before the receiver reads either. */
  lemma TwoStaleDeletions(property: int, d: seq<int>, mail: seq<bool>)
    requires |d| > 2 * MAX_REQ && |mail| > 1 && mail[0] && mail[1]
    ensures var end := Play(Start(property, d).(mail := mail), [Sender, Sender, Receiver, Receiver]);
      end.Some? && end.value.rx == Got(d[..2 * MAX_REQ])
  {
    var k := Start(property, d).(mail := mail);
    var l := SenderTakes(k);
    assert l.slot == Text(d[..MAX_REQ]) && l.mail == mail[1..] + [false] && l.mail[0];
    var m := SenderTakes(l);
    assert d[..MAX_REQ] + d[MAX_REQ..2 * MAX_REQ] == d[..2 * MAX_REQ];
    assert m.slot == Text(d[..2 * MAX_REQ]) && m.inbox == [NewValue, Selection, NewValue, NewValue];
    var n := ReceiverTakes(m);
    assert n.inbox == [Selection, NewValue, NewValue];
    assert [Sender, Sender, Receiver, Receiver][1..] == [Sender, Receiver, Receiver];
    PlayThree(l);
  }

  /** A request on a property that was used before ends well in every run exactly when it is small or no
      deletion of the earlier transfer is still on its way. */
  lemma ReuseIsSoundIff(property: int, d: seq<int>, mail: seq<bool>)
    ensures (forall sides :: Sound(d, Play(Start(property, d).(mail := mail), sides)))
       <==> |d| <= MAX_REQ || Pending(mail) == 0
  {
    var l := Start(property, d).(mail := mail);
    if |d| <= MAX_REQ || Pending(mail) == 0 {
      StartInvIff(property, d, mail);
      forall sides ensures Sound(d, Play(l, sides)) { PlayKeepsInv(d, l, sides); }
    } else {
      var sides := StaleDeletionTruncates(property, d, mail);
      assert !Sound(d, Play(l, sides));
    }
  }

  /** Every write is announced to both sides as a new value, and the empty one at the end as the selection besides. */
  lemma WritesAreAnnounced(d: seq<int>, l: Local)
    requires Inv(d, l) && l.mail != [] && l.mail[0] && l.track.Some?
    ensures var m := SenderTakes(l);
      && |m.writes| == |l.writes| + 1 && m.mail == l.mail[1..] + [false]
      && m.inbox == l.inbox + [NewValue] + if m.writes[|l.writes|] == [] then [Selection] else []
  {
    assert l.mail == [l.mail[0]] + l.mail[1..];
    assert Pending(l.mail) > 0;
    NextWrite(d, l.track.value, l.writes);
  }

  /** Every value the receiver takes is answered by a deletion, which both sides are told of. */
  lemma ReadsAreAnswered(d: seq<int>, l: Local)
    requires Inv(d, l) && l.rx.Reading? && l.inbox != [] && l.inbox[0] == NewValue
    ensures var m := ReceiverTakes(l);
      m.slot == Absent && m.mail == l.mail + [true] && m.inbox == l.inbox[1..] + [Deleted]
  {
    Counting(l.mail, l.inbox);
  }

  /** The allocation is the larger of what it was and one byte more than is held. */
  lemma GrowsAsNeeded(buf: seq<int>, alloc: nat, b: seq<int>)
    requires b != []
    ensures var r := Appended(buf, alloc, b);
      && r.Reading? && r.buf == buf + b && r.alloc >= alloc && r.alloc >= |buf + b| + 1
      && (r.alloc == alloc || r.alloc == |buf + b| + 1)
  {
  }

  // ----- Progress -----

  function Remaining(d: seq<int>, l: Local): nat {
    if l.track.Some? && l.track.value.offset <= |d| then Chunks(|d| - l.track.value.offset) + 1 else 0
  }

  /** A bound on the turns this transfer can still take. */
  function Rank(d: seq<int>, l: Local): nat {
    |l.inbox| + |l.mail| + 5 * Remaining(d, l) + if l.slot.Absent? then 0 else 2
  }

  lemma SenderProgress(d: seq<int>, l: Local)
    requires Inv(d, l) && l.mail != []
    ensures Rank(d, SenderTakes(l)) < Rank(d, l)
  {
    assert l.mail == [l.mail[0]] + l.mail[1..];
    if l.mail[0] && l.track.Some? { assert Pending(l.mail) > 0; }
  }

  lemma ReceiverProgress(d: seq<int>, l: Local)
    requires Inv(d, l) && l.inbox != [] && Listening(l.rx)
    ensures Rank(d, ReceiverTakes(l)) < Rank(d, l)
  {
    Counting(l.mail, l.inbox);
  }

  /** Until the receiver has its data, one of the two sides has something to do. */
  lemma NeverStuck(d: seq<int>, l: Local)
    requires Inv(d, l) && !l.rx.Got?
    ensures Listening(l.rx) && (l.inbox != [] || l.mail != [])
  {
  }
}
