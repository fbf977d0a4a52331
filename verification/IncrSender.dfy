/** The sender's side as the program runs it: records in a doubly linked list, changed in place. */
module IncrSender {
  import opened IncrSpec
  import opened IncrWorld

  /** What a request is answered with.  A list of targets has at most nine atoms. */
  datatype Answer = TimeStamp(time: int) | Targets(atoms: seq<int>) | Chars(text: seq<int>)

  const MAX_NUM_TARGETS: nat := 9

  function Elements(answer: Answer): seq<int> {
    match answer
    case TimeStamp(time) => [time]
    case Targets(atoms) => atoms
    case Chars(text) => text
  }

  /** The number of bits in an element. */
  function FormatOf(answer: Answer): nat { if answer.Chars? then 8 else 32 }

  function Bytes(answer: Answer): nat { |Elements(answer)| * FormatOf(answer) / 8 }

  /** Only text can be too large for one write. */
  lemma LargeIsText(answer: Answer)
    requires answer.Targets? ==> |answer.atoms| <= MAX_NUM_TARGETS
    ensures Bytes(answer) > MAX_REQ ==> FormatOf(answer) == 8 && Bytes(answer) == |Elements(answer)|
    ensures !answer.Chars? ==> FormatOf(answer) == 32 && Bytes(answer) == 4 * |Elements(answer)| <= MAX_REQ
  {
  }

  class IncrTrack {
    const property: int
    const data: seq<int>
    const format: nat
    const maxElements: nat
    var offset: int
    var chunk: int
    var stage: Stage
    var prev: IncrTrack?
    var next: IncrTrack?

    constructor (property: int, data: seq<int>, format: nat)
      requires format > 0
      ensures this.property == property && this.data == data && this.format == format
      ensures maxElements == MAX_REQ * 8 / format
      ensures offset == 0 && chunk == Min(MAX_REQ * 8 / format, |data|) && stage == Incr1
    {
      this.property, this.data, this.format, maxElements := property, data, format, MAX_REQ * 8 / format;
      offset, chunk, stage := 0, Min(MAX_REQ * 8 / format, |data|), Incr1;
      prev, next := null, null;
    }

    ghost predicate Ok()
      reads this`offset, this`chunk, this`stage
    {
      format == 8 && maxElements == MAX_REQ && offset >= 0 && chunk >= 0
      && TrackOk(Track(property, data, offset, chunk, stage))
    }

    ghost function View(): Track
      requires Ok()
      reads this`offset, this`chunk, this`stage
    {
      Track(property, data, offset, chunk, stage)
    }

    /** `incr_stage_1` or `incr_stage_2`; `complete` when the transfer is over. */
    method Continue() returns (w: Write, complete: bool)
      requires Ok()
      modifies this`offset, this`chunk, this`stage
      ensures w == React(old(View())).1 && complete == React(old(View())).0.None?
      ensures !complete ==> Ok() && View() == React(old(View())).0.value
    {
      if stage == Incr1 {
        w := Write(false, data[..chunk]);
        offset := offset + chunk;
        stage := Incr2;
        complete := false;
      } else {
        chunk := Min(maxElements, |data| - offset);
        if chunk <= 0 {
          w := Write(true, []);
          complete := true;
        } else {
          w := Write(true, data[offset..offset + chunk]);
          offset := offset + chunk;
          complete := false;
        }
      }
    }
  }

  class Sender {
    /** `incrtrack_list`. */
    var head: IncrTrack?
    ghost var list: seq<IncrTrack>

    ghost function Records(): set<IncrTrack>
      reads this`list
    {
      set x | x in list
    }

    ghost function At(i: int): IncrTrack?
      reads this`list
    {
      if 0 <= i < |list| then list[i] else null
    }

    ghost predicate Linked()
      reads this, list
    {
      && head == At(0)
      && (forall i, j :: 0 <= i < j < |list| ==> list[i] != list[j])
      && (forall i {:trigger list[i].prev} :: 0 <= i < |list| ==> list[i].prev == At(i - 1))
      && (forall i {:trigger list[i].next} :: 0 <= i < |list| ==> list[i].next == At(i + 1))
    }

    ghost predicate Valid()
      reads this, list
    {
      Linked() && forall i :: 0 <= i < |list| ==> list[i].Ok()
    }

    ghost function Views(l: seq<IncrTrack>): (r: seq<Track>)
      requires forall i :: 0 <= i < |l| ==> l[i].Ok()
      reads (set x | x in l)`offset, (set x | x in l)`chunk, (set x | x in l)`stage
      ensures |r| == |l| && forall i :: 0 <= i < |l| ==> r[i] == l[i].View()
    {
      if l == [] then [] else [l[0].View()] + Views(l[1..])
    }

    constructor ()
      ensures Valid() && list == []
    {
      head, list := null, [];
    }

    /** `add_incrtrack`. */
    method Add(it: IncrTrack)
      requires Valid() && it !in list && it.Ok()
      modifies this, it`prev, it`next, (set x | x in list)`prev
      ensures Valid() && list == [it] + old(list)
    {
      if head != null { head.prev := it; }
      it.prev := null;
      it.next := head;
      head := it;
      list := [it] + list;
      assert forall i :: 1 <= i < |list| ==> list[i] == old(list)[i - 1];
    }

    /** `remove_incrtrack`. */
    method Remove(it: IncrTrack, ghost k: nat)
      requires Linked() && k < |list| && list[k] == it
      modifies this, (set x | x in list)`prev, (set x | x in list)`next
      ensures Linked() && list == old(list)[..k] + old(list)[k + 1..]
    {
      assert it.prev == At(k - 1) && it.next == At(k + 1);
      if it.prev != null { it.prev.next := it.next; }
      if it.next != null { it.next.prev := it.prev; }
      if head == it { head := it.next; }
      ghost var before := list;
      list := list[..k] + list[k + 1..];
      Relinked(before, k);
      Without(before, k, 0);
    }

    /** Once the links pass a record by, the others are linked to each other. */
    lemma Relinked(l: seq<IncrTrack>, k: nat)
      requires k < |l| && forall i, j :: 0 <= i < j < |l| ==> l[i] != l[j]
      requires forall i {:trigger l[i].prev} :: 0 <= i < |l| && i != k ==>
        l[i].prev == Of(l, if i == k + 1 then k - 1 else i - 1)
      requires forall i {:trigger l[i].next} :: 0 <= i < |l| && i != k ==>
        l[i].next == Of(l, if i == k - 1 then k + 1 else i + 1)
      ensures var t := l[..k] + l[k + 1..];
        && (forall i, j :: 0 <= i < j < |t| ==> t[i] != t[j])
        && (forall i {:trigger t[i].prev} :: 0 <= i < |t| ==> t[i].prev == Of(t, i - 1))
        && (forall i {:trigger t[i].next} :: 0 <= i < |t| ==> t[i].next == Of(t, i + 1))
    {
      var t := l[..k] + l[k + 1..];
      assert forall i :: 0 <= i < |t| ==> t[i] == l[if i < k then i else i + 1];
      forall i | 0 <= i < |t| ensures t[i].prev == Of(t, i - 1) && t[i].next == Of(t, i + 1) { Without(l, k, i); }
    }

    static ghost function Of(l: seq<IncrTrack>, i: int): IncrTrack? { if 0 <= i < |l| then l[i] else null }

    static lemma Without(l: seq<IncrTrack>, k: nat, i: nat)
      requires k < |l| && i < |l|
      ensures var t, j := l[..k] + l[k + 1..], if i < k then i else i + 1;
        && Of(t, i) == Of(l, j)
        && Of(t, i - 1) == Of(l, if j == k + 1 then k - 1 else j - 1)
        && Of(t, i + 1) == Of(l, if j == k - 1 then k + 1 else j + 1)
    {
    }

    /** `find_incrtrack`; `k` is the place of the record. */
    method FindTrack(a: int) returns (it: IncrTrack?, ghost k: nat)
      requires Valid()
      ensures it == null ==> Find(Views(list), a).None?
      ensures it != null ==> k < |list| && list[k] == it && Find(Views(list), a) == Some(it.View())
      ensures it != null ==> it.property == a && forall i :: 0 <= i < k ==> list[i].property != a
    {
      it, k := head, 0;
      while it != null && it.property != a
        invariant 0 <= k <= |list| && it == At(k)
        invariant forall i :: 0 <= i < k ==> list[i].property != a
        decreases |list| - k
      {
        it := it.next;
        k := k + 1;
      }
      FindAt(Views(list), a, k);
    }

    /** `change_property`: what fits is written at once; else the property announces the size, and a
        record of format 8 is put in front of the list. */
    method ChangeProperty(a: int, answer: Answer) returns (slot: Slot)
      requires Valid() && (answer.Targets? ==> |answer.atoms| <= MAX_NUM_TARGETS)
      modifies this, (set x | x in list)`prev
      ensures Valid() && fresh(Records() - old(Records()))
      ensures if Bytes(answer) <= MAX_REQ then slot == Text(Elements(answer)) && Views(list) == old(Views(list))
              else slot == IncrSize(|Elements(answer)|) && list != [] && list[0].format == 8
                   && Views(list) == [NewTrack(a, Elements(answer))] + old(Views(list))
    {
      var format, data := FormatOf(answer), Elements(answer);
      var nrBytes := |data| * format / 8;
      if nrBytes <= MAX_REQ {
        return Text(data);
      }
      LargeIsText(answer);
      var it := new IncrTrack(a, data, format);
      Add(it);
      slot := IncrSize(nrBytes);
      assert Views(list)[1..] == old(Views(list));
    }

    /** The records but the one at place `k` still are what they were. */
    lemma ViewsWithout(l: seq<IncrTrack>, k: nat, before: seq<Track>)
      requires k < |l| == |before|
      requires forall i :: 0 <= i < |l| && i != k ==> l[i].Ok() && l[i].View() == before[i]
      ensures forall x :: x in l[..k] + l[k + 1..] ==> x.Ok()
      ensures Views(l[..k] + l[k + 1..]) == before[..k] + before[k + 1..]
    {
      var rest := l[..k] + l[k + 1..];
      assert forall i :: 0 <= i < |rest| ==> rest[i] == l[if i < k then i else i + 1];
      assert Views(rest) == before[..k] + before[k + 1..];
    }

    lemma Kept(l: seq<IncrTrack>, k: nat)
      requires k < |l|
      ensures forall x :: x in l[..k] + l[k + 1..] ==> x in l
    {
    }

    lemma ViewsWith(l: seq<IncrTrack>, k: nat, before: seq<Track>)
      requires k < |l| == |before| && l[k].Ok()
      requires forall i :: 0 <= i < |l| && i != k ==> l[i].Ok() && l[i].View() == before[i]
      ensures forall i :: 0 <= i < |l| ==> l[i].Ok()
      ensures Views(l) == before[..k] + [l[k].View()] + before[k + 1..]
    {
    }

    /** `trash_incrtrack`: the other records stay as they are. */
    method Trash(it: IncrTrack, ghost k: nat, ghost before: seq<Track>)
      requires Linked() && k < |list| == |before| && list[k] == it
      requires forall i :: 0 <= i < |list| && i != k ==> list[i].Ok() && list[i].View() == before[i]
      modifies this, (set x | x in list)`prev, (set x | x in list)`next
      ensures Valid() && Views(list) == before[..k] + before[k + 1..]
      ensures Records() <= old(Records())
    {
      ghost var l := list;
      Remove(it, k);
      ViewsWithout(l, k, before);
      Kept(l, k);
      assert forall i :: 0 <= i < |list| ==> list[i] in list;
    }

    /** One stage of the record at place `k`; the others stay as they are. */
    method RunStage(it: IncrTrack, ghost k: nat) returns (w: Write, complete: bool)
      requires Valid() && k < |list| && list[k] == it
      modifies it`offset, it`chunk, it`stage
      ensures w == React(old(it.View())).1 && complete == React(old(it.View())).0.None?
      ensures forall i :: 0 <= i < |list| && i != k ==> list[i].Ok() && list[i].View() == old(Views(list))[i]
      ensures !complete ==> it.Ok() && it.View() == React(old(it.View())).0.value
    {
      w, complete := it.Continue();
    }

    /** `continue_incr` with `complete_incr`, on the record at place `k`. */
    method ContinueIncr(it: IncrTrack, ghost k: nat) returns (w: Write)
      requires Valid() && k < |list| && list[k] == it
      modifies this, list
      ensures Valid() && w == React(old(it.View())).1
      ensures Records() <= old(Records())
      ensures var next := React(old(it.View())).0;
              Views(list) == if next.Some? then old(Views(list))[..k] + [next.value] + old(Views(list))[k + 1..]
                             else old(Views(list))[..k] + old(Views(list))[k + 1..]
    {
      ghost var before := Views(list);
      var complete: bool;
      w, complete := RunStage(it, k);
      if complete {
        Trash(it, k, before);
      } else {
        ViewsWith(list, k, before);
      }
    }

    /** The `PropertyNotify` case of `set_selection`: only deletions matter, and only to the record found. */
    method PropertyNotify(a: int, deleted: bool) returns (out: Option<Write>)
      requires Valid()
      modifies this, list
      ensures Valid() && Records() <= old(Records())
      ensures var t := Find(old(Views(list)), a);
              if deleted && t.Some? then
                out == Some(React(t.value).1) && Views(list) == Settle(old(Views(list)), a, React(t.value).0)
              else out.None? && Views(list) == old(Views(list))
    {
      if !deleted { return None; }
      var it, k := FindTrack(a);
      if it == null { return None; }
      SettleAt(Views(list), a, React(it.View()).0, k);
      var w := ContinueIncr(it, k);
      return Some(w);
    }

    /** A `PropertyNotify` event of the loop of `set_selection`: the sender's turn in the world. */
    method TakeEvent(sv: Server) returns (sv': Server)
      requires Valid() && sv.queue != [] && ListOk(WorldOf(Views(list), sv))
      modifies this, Records()
      ensures Valid() && Records() <= old(Records())
      ensures WorldOf(Views(list), sv') == Next(WorldOf(old(Views(list)), sv), SenderTurn)
    {
      ghost var w := WorldOf(Views(list), sv);
      var n := sv.queue[0];
      var out := PropertyNotify(n.property, n.deleted);
      sv' := Served(sv, out);
      ServedIsNext(w, out);
    }

    /** A `SelectionRequest` event for text: the request's turn. */
    method TakeRequest(sv: Server, a: int, d: seq<int>) returns (sv': Server)
      requires Valid() && ListOk(WorldOf(Views(list), sv)) && Free(WorldOf(Views(list), sv), a, d)
      modifies this, Records()`prev
      ensures Valid() && fresh(Records() - old(Records()))
      ensures WorldOf(Views(list), sv') == Next(WorldOf(old(Views(list)), sv), Request(a, d))
    {
      ghost var ts := Views(list);
      var slot := ChangeProperty(a, Chars(d));
      sv' := sv.(chans := sv.chans[a := Chan(d, slot, [NewValue, Selection], Asked, [])]);
      assert [] + ts == ts;
    }

    /** Any run, with its worlds `ws`: the requests and property events as the loop of `set_selection`
        handles them, with what the receivers do in between. */
    method HandleAll(sv: Server, turns: seq<Turn>, ghost ws: seq<World>) returns (sv': Server)
      requires Valid() && Worlds(ws, turns) && ws[0] == WorldOf(Views(list), sv)
      modifies this, Records()
      ensures Valid() && WorldOf(Views(list), sv') == ws[|turns|]
    {
      sv' := sv;
      var i := 0;
      while i < |turns|
        invariant i <= |turns| && Valid() && fresh(Records() - old(Records()))
        invariant WorldOf(Views(list), sv') == ws[i]
      {
        sv' := TakeTurn(sv', turns[i]);
        i := i + 1;
      }
    }

    method TakeTurn(sv: Server, turn: Turn) returns (sv': Server)
      requires Valid() && ListOk(WorldOf(Views(list), sv)) && Enabled(WorldOf(Views(list), sv), turn)
      modifies this, Records()
      ensures Valid() && fresh(Records() - old(Records()))
      ensures WorldOf(Views(list), sv') == Next(WorldOf(old(Views(list)), sv), turn)
    {
      ghost var w := WorldOf(Views(list), sv);
      match turn
      case Request(a, d) => sv' := TakeRequest(sv, a, d);
      case SenderTurn => sv' := TakeEvent(sv);
      case ReceiverTurn(a) =>
        sv' := Received(sv, a);
        ReceivedIsNext(w, a);
    }
  }

  /** What the X server holds: the events for the sender, and each property with its receiver. */
  datatype Server = Server(queue: seq<Notify>, chans: map<int, Chan>)

  function WorldOf(ts: seq<Track>, sv: Server): World { World(ts, sv.queue, sv.chans) }

  /** The first event is taken; what the sender wrote is stored and both sides are told.  The requestor is
      also told of the end of a transfer. */
  function Served(sv: Server, out: Option<Write>): Server
    requires sv.queue != [] && (out.Some? ==> sv.queue[0].property in sv.chans)
  {
    var a, rest := sv.queue[0].property, sv.queue[1..];
    match out
    case None => sv.(queue := rest)
    case Some(w) =>
      var c := sv.chans[a];
      var over := w.append && w.bytes == [];
      Server(rest + [Notify(a, false)],
             sv.chans[a := c.(slot := Put(c.slot, w), writes := c.writes + [w.bytes],
                              inbox := c.inbox + [NewValue] + if over then [Selection] else [])])
  }

  lemma ServedIsNext(w: World, out: Option<Write>)
    requires ListOk(w) && w.queue != []
    requires var n := w.queue[0];
      var t := Find(w.tracks, n.property);
      out == if n.deleted && t.Some? then Some(React(t.value).1) else None
    ensures out.Some? ==> w.queue[0].property in w.chans
    ensures var sv, n, after := Served(Server(w.queue, w.chans), out), w.queue[0], Next(w, SenderTurn);
      && after.queue == sv.queue && after.chans == sv.chans
      && after.tracks == if out.Some? then Settle(w.tracks, n.property, React(Find(w.tracks, n.property).value).0)
                         else w.tracks
  {
    if out.Some? {
      var t := Find(w.tracks, w.queue[0].property).value;
      assert React(t).0.None? <==> React(t).1.append && React(t).1.bytes == [];
    }
  }

  /** A receiver takes the first event of its own. */
  function Received(sv: Server, a: int): Server
    requires a in sv.chans && sv.chans[a].inbox != [] && Listening(sv.chans[a].rx)
  {
    var c := sv.chans[a];
    var before := Local(None, Mail(sv.queue, a), c.slot, c.inbox, c.rx, c.writes);
    var after := ReceiverTakes(before);
    Server(sv.queue + (if after.mail == before.mail then [] else [Notify(a, true)]), sv.chans[a := Absorb(c, after)])
  }

  lemma ReceivedIsNext(w: World, a: int)
    requires ListOk(w) && Enabled(w, ReceiverTurn(a))
    ensures WorldOf(w.tracks, Received(Server(w.queue, w.chans), a)) == Next(w, ReceiverTurn(a))
  {
    var l := Project(w, a);
    assert ReceiverTakes(l.(track := None)) == ReceiverTakes(l).(track := None);
  }

  lemma {:induction false} FindAt(ts: seq<Track>, a: int, k: nat)
    requires k <= |ts| && forall i :: 0 <= i < k ==> ts[i].property != a
    requires k < |ts| ==> ts[k].property == a
    ensures Find(ts, a) == if k < |ts| then Some(ts[k]) else None
  {
    if k > 0 { FindAt(ts[1..], a, k - 1); }
  }

  lemma {:induction false} SettleAt(ts: seq<Track>, a: int, next: Option<Track>, k: nat)
    requires k < |ts| && ts[k].property == a && forall i :: 0 <= i < k ==> ts[i].property != a
    ensures Settle(ts, a, next) == if next.Some? then ts[..k] + [next.value] + ts[k + 1..] else ts[..k] + ts[k + 1..]
  {
    if k > 0 {
      SettleAt(ts[1..], a, next, k - 1);
      ConsSlices(ts, if next.Some? then [next.value] else [], k);
    }
  }

  lemma ConsSlices(ts: seq<Track>, mid: seq<Track>, k: nat)
    requires 0 < k < |ts|
    ensures [ts[0]] + (ts[1..][..k - 1] + mid + ts[1..][k..]) == ts[..k] + mid + ts[k + 1..]
    ensures mid == [] ==> ts[1..][..k - 1] + mid + ts[1..][k..] == ts[1..][..k - 1] + ts[1..][k..]
                          && ts[..k] + mid + ts[k + 1..] == ts[..k] + ts[k + 1..]
  {
  }
}
