/** Several incremental transfers at once: one sender with a list of records and one queue of
    notifications, and a receiver for each property. */
module IncrWorld {
  import opened IncrSpec

  datatype Chan = Chan(data: seq<int>, slot: Slot, inbox: seq<Note>, rx: Rx, writes: seq<seq<int>>)

  datatype Notify = Notify(property: int, deleted: bool)

  /** `tracks` is `incrtrack_list` from its head. */
  datatype World = World(tracks: seq<Track>, queue: seq<Notify>, chans: map<int, Chan>)

  datatype Turn = Request(property: int, data: seq<int>) | SenderTurn | ReceiverTurn(property: int)

  // ----- The sender's list -----

  /** `find_incrtrack`: the first record for the property. */
  function Find(ts: seq<Track>, a: int): (r: Option<Track>)
    ensures r.Some? ==> r.value.property == a && r.value in ts
  {
    if ts == [] then None else if ts[0].property == a then Some(ts[0]) else Find(ts[1..], a)
  }

  /** Put a new record in place of the first one for the property, or take that one out. */
  function Settle(ts: seq<Track>, a: int, next: Option<Track>): seq<Track> {
    if ts == [] then []
    else if ts[0].property == a then (if next.Some? then [next.value] else []) + ts[1..]
    else [ts[0]] + Settle(ts[1..], a, next)
  }

  predicate Distinct(ts: seq<Track>) {
    forall i, j :: 0 <= i < j < |ts| ==> ts[i].property != ts[j].property
  }

  lemma {:induction false} FindNone(ts: seq<Track>, a: int)
    ensures Find(ts, a).None? <==> forall i :: 0 <= i < |ts| ==> ts[i].property != a
  {
    if ts != [] && ts[0].property != a {
      FindNone(ts[1..], a);
      assert forall i :: 1 <= i < |ts| ==> ts[i] == ts[1..][i - 1];
    }
  }

  lemma {:induction false} SettleMembers(ts: seq<Track>, a: int, next: Option<Track>)
    ensures forall t :: t in Settle(ts, a, next) ==> t in ts || next == Some(t)
  {
    if ts != [] && ts[0].property != a { SettleMembers(ts[1..], a, next); }
  }

  lemma {:induction false} SettleDistinct(ts: seq<Track>, a: int, next: Option<Track>)
    requires Distinct(ts) && (next.Some? ==> next.value.property == a)
    ensures Distinct(Settle(ts, a, next))
  {
    if ts != [] {
      if ts[0].property == a {
        assert next.None? ==> Settle(ts, a, next) == ts[1..];
      } else {
        SettleDistinct(ts[1..], a, next);
        SettleMembers(ts[1..], a, next);
        var rest := Settle(ts[1..], a, next);
        forall i | 0 <= i < |rest| ensures rest[i].property != ts[0].property { assert rest[i] in rest; }
      }
    }
  }

  lemma {:induction false} SettleFind(ts: seq<Track>, a: int, next: Option<Track>, b: int)
    requires Distinct(ts) && (next.Some? ==> next.value.property == a)
    ensures Find(Settle(ts, a, next), b) == if b != a then Find(ts, b) else if Find(ts, a).None? then None else next
  {
    if ts != [] {
      if ts[0].property == a {
        FindNone(ts[1..], a);
        assert next.None? ==> Settle(ts, a, next) == ts[1..];
        assert next.Some? ==> Settle(ts, a, next)[1..] == ts[1..];
      } else {
        SettleFind(ts[1..], a, next, b);
        assert Settle(ts, a, next)[1..] == Settle(ts[1..], a, next);
      }
    }
  }

  /** Records are found by their property alone: everyone finds his own exactly when no two share one. */
  lemma {:induction false} FindsOwnIff(ts: seq<Track>)
    requires forall i, j :: 0 <= i < j < |ts| ==> ts[i] != ts[j]
    ensures (forall i :: 0 <= i < |ts| ==> Find(ts, ts[i].property) == Some(ts[i])) <==> Distinct(ts)
  {
    if Distinct(ts) {
      forall i | 0 <= i < |ts| ensures Find(ts, ts[i].property) == Some(ts[i]) {
        FindNone(ts, ts[i].property);
        assert Find(ts, ts[i].property).value in ts;
      }
    } else {
      var i, j :| 0 <= i < j < |ts| && ts[i].property == ts[j].property;
      assert ts[i] != ts[j];
    }
  }

  // ----- Two windows that use one property -----

  /** A record with the window it writes to. */
  datatype Owned = Owned(window: int, track: Track)

  /** A deletion of property `a`, on whatever window: the first record for `a` moves on, and its window is
      written to. */
  function Answer(rs: seq<Owned>, a: int): (r: (seq<Owned>, Option<(int, Write)>))
    requires forall i :: 0 <= i < |rs| ==> TrackOk(rs[i].track)
  {
    if rs == [] then (rs, None)
    else if rs[0].track.property == a then
      var (next, w) := React(rs[0].track);
      ((if next.Some? then [rs[0].(track := next.value)] else []) + rs[1..], Some((rs[0].window, w)))
    else
      var (more, w) := Answer(rs[1..], a);
      ([rs[0]] + more, w)
  }

  /** A deletion on the window of record `k` is answered on this window exactly when no record in front of it is
      for the same property. */
  lemma {:induction false} AnswersOwnIff(rs: seq<Owned>, k: nat)
    requires k < |rs| && forall i :: 0 <= i < |rs| ==> TrackOk(rs[i].track)
    requires forall i, j :: 0 <= i < j < |rs| && rs[i].track.property == rs[j].track.property ==>
      rs[i].window != rs[j].window
    ensures Answer(rs, rs[k].track.property).1.Some?
    ensures Answer(rs, rs[k].track.property).1.value.0 == rs[k].window
       <==> forall i :: 0 <= i < k ==> rs[i].track.property != rs[k].track.property
  {
    var a := rs[k].track.property;
    if k > 0 && rs[0].track.property != a {
      AnswersOwnIff(rs[1..], k - 1);
      assert forall i :: 1 <= i < k ==> rs[i] == rs[1..][i - 1];
    }
  }

  /** Two windows ask on the same property for more than fits: when the first has taken note of its size, the
      second gets its first chunk too early, and takes it for the whole; the first one's record stays. */
  lemma SharedPropertyTruncates(a: int, d: seq<int>, e: seq<int>, window: int, other: int)
    requires |d| > MAX_REQ && |e| > MAX_REQ && window != other
    ensures var first, second := Owned(window, NewTrack(a, d)), Owned(other, NewTrack(a, e));
      var (rs, out) := Answer([second, first], a);
      && out == Some((other, Write(false, e[..MAX_REQ])))
      && |rs| == 2 && rs[1] == first && rs[0].track.offset == MAX_REQ
      && (var l := Start(a, e);
          var m := l.(slot := Put(l.slot, out.value.1), inbox := l.inbox + [NewValue]);
          ReceiverTakes(ReceiverTakes(m)).rx == Got(e[..MAX_REQ]))
  {
    var l := Start(a, e);
    assert (l.inbox + [NewValue])[1..] == [Selection, NewValue];
  }

  // ----- One transfer out of many -----

  function Mail(queue: seq<Notify>, a: int): seq<bool> {
    if queue == [] then []
    else (if queue[0].property == a then [queue[0].deleted] else []) + Mail(queue[1..], a)
  }

  lemma {:induction false} MailSnoc(queue: seq<Notify>, n: Notify, a: int)
    ensures Mail(queue + [n], a) == Mail(queue, a) + if n.property == a then [n.deleted] else []
  {
    if queue == [] {
      assert queue + [n] == [n];
    } else {
      MailSnoc(queue[1..], n, a);
      assert (queue + [n])[1..] == queue[1..] + [n];
    }
  }

  /** The world as transfer `a` sees it. */
  function Project(w: World, a: int): Local
    requires a in w.chans
  {
    var c := w.chans[a];
    Local(Find(w.tracks, a), Mail(w.queue, a), c.slot, c.inbox, c.rx, c.writes)
  }

  function Absorb(c: Chan, l: Local): Chan {
    Chan(c.data, l.slot, l.inbox, l.rx, l.writes)
  }

  /** The records are sound, belong to known requests, and no two are for the same property. */
  predicate ListOk(w: World) {
    && Distinct(w.tracks)
    && (forall i :: 0 <= i < |w.tracks| ==> TrackOk(w.tracks[i]) && w.tracks[i].property in w.chans)
    && (forall i :: 0 <= i < |w.queue| ==> w.queue[i].property in w.chans)
  }

  /** A property can be used again when its last transfer is over; for a large request, its last deletion
      must have reached the sender too. */
  predicate Free(w: World, a: int, d: seq<int>) {
    a in w.chans ==> w.chans[a].rx.Got? && (|d| <= MAX_REQ || Pending(Mail(w.queue, a)) == 0)
  }

  predicate Enabled(w: World, turn: Turn) {
    match turn
    case Request(a, d) => Free(w, a, d)
    case SenderTurn => w.queue != []
    case ReceiverTurn(a) => a in w.chans && w.chans[a].inbox != [] && Listening(w.chans[a].rx)
  }

  function Next(w: World, turn: Turn): World
    requires ListOk(w) && Enabled(w, turn)
  {
    match turn
    case Request(a, d) =>
      var l := Start(a, d);
      World((if l.track.Some? then [l.track.value] else []) + w.tracks, w.queue,
            w.chans[a := Chan(d, l.slot, l.inbox, l.rx, l.writes)])
    case SenderTurn =>
      var n, rest := w.queue[0], w.queue[1..];
      var t := Find(w.tracks, n.property);
      if !n.deleted || t.None? then w.(queue := rest)
      else
        var c := w.chans[n.property];
        var (next, wr) := React(t.value);
        World(Settle(w.tracks, n.property, next), rest + [Notify(n.property, false)],
              w.chans[n.property := c.(slot := Put(c.slot, wr), writes := c.writes + [wr.bytes],
                                       inbox := c.inbox + [NewValue] + if next.None? then [Selection] else [])])
    case ReceiverTurn(a) =>
      var before := Project(w, a);
      var after := ReceiverTakes(before);
      w.(queue := w.queue + (if after.mail == before.mail then [] else [Notify(a, true)]),
         chans := w.chans[a := Absorb(w.chans[a], after)])
  }

  /** The transfer a turn is about. */
  function Subject(w: World, turn: Turn): int
    requires Enabled(w, turn)
  {
    match turn
    case Request(a, _) => a
    case SenderTurn => w.queue[0].property
    case ReceiverTurn(a) => a
  }

  /** A turn is a turn of the protocol for its own transfer, and does not exist for any other. */
  lemma NoInterference(w: World, turn: Turn, b: int)
    requires ListOk(w) && Enabled(w, turn) && b in w.chans
    ensures b in Next(w, turn).chans
    ensures !(turn.Request? && turn.property == b) ==> Next(w, turn).chans[b].data == w.chans[b].data
    ensures Subject(w, turn) != b ==> Project(Next(w, turn), b) == Project(w, b)
    ensures turn.SenderTurn? && Subject(w, turn) == b ==>
      Project(w, b).mail != [] && GoodTrack(Project(w, b)) && Project(Next(w, turn), b) == SenderTakes(Project(w, b))
    ensures turn == ReceiverTurn(b) ==> Project(Next(w, turn), b) == ReceiverTakes(Project(w, b))
  {
    match turn
    case Request(a, d) =>
      var l := Start(a, d);
      if l.track.Some? {
        assert ([l.track.value] + w.tracks)[1..] == w.tracks;
      } else {
        assert [] + w.tracks == w.tracks;
      }
    case SenderTurn => SenderProjects(w, b);
    case ReceiverTurn(a) =>
      var before := Project(w, a);
      var after := ReceiverTakes(before);
      MailSnoc(w.queue, Notify(a, true), b);
      if after.mail == before.mail {
        assert w.queue + [] == w.queue;
      } else {
        assert after.mail == before.mail + [true];
      }
  }

  lemma SenderProjects(w: World, b: int)
    requires ListOk(w) && w.queue != [] && b in w.chans
    ensures b in Next(w, SenderTurn).chans && Next(w, SenderTurn).chans[b].data == w.chans[b].data
    ensures w.queue[0].property != b ==> Project(Next(w, SenderTurn), b) == Project(w, b)
    ensures w.queue[0].property == b ==>
      Project(w, b).mail != [] && GoodTrack(Project(w, b))
      && Project(Next(w, SenderTurn), b) == SenderTakes(Project(w, b))
  {
    var n, rest := w.queue[0], w.queue[1..];
    MailSnoc(rest, Notify(n.property, false), b);
    var t := Find(w.tracks, n.property);
    if n.deleted && t.Some? { SettleFind(w.tracks, n.property, React(t.value).0, b); }
  }

  lemma {:induction false} MailNone(queue: seq<Notify>, a: int)
    requires forall i :: 0 <= i < |queue| ==> queue[i].property != a
    ensures Mail(queue, a) == []
  {
    if queue != [] { MailNone(queue[1..], a); }
  }

  /** A request starts a transfer of its own, with whatever mail is left for its property. */
  lemma RequestProjects(w: World, a: int, d: seq<int>)
    requires WorldInv(w) && Free(w, a, d)
    ensures Project(Next(w, Request(a, d)), a) == Start(a, d).(mail := Mail(w.queue, a))
    ensures |d| > MAX_REQ ==> Pending(Mail(w.queue, a)) == 0
    ensures Find(w.tracks, a).None?
  {
    FreeIsIdle(w, a, d);
    assert [] + w.tracks == w.tracks;
  }

  lemma FreeIsIdle(w: World, a: int, d: seq<int>)
    requires WorldInv(w) && Free(w, a, d)
    ensures Find(w.tracks, a).None? && (|d| > MAX_REQ ==> Pending(Mail(w.queue, a)) == 0)
  {
    if a in w.chans {
      assert Inv(w.chans[a].data, Project(w, a));
    } else {
      FindNone(w.tracks, a);
      MailNone(w.queue, a);
    }
  }

  lemma RequestListOk(w: World, a: int, d: seq<int>)
    requires WorldInv(w) && Free(w, a, d)
    ensures ListOk(Next(w, Request(a, d)))
  {
    FreeIsIdle(w, a, d);
    IdleListOk(w, a, d);
  }

  lemma IdleListOk(w: World, a: int, d: seq<int>)
    requires ListOk(w) && Free(w, a, d) && Find(w.tracks, a).None?
    ensures ListOk(Next(w, Request(a, d)))
  {
    var ts := if |d| <= MAX_REQ then w.tracks else [NewTrack(a, d)] + w.tracks;
    assert Next(w, Request(a, d)).tracks == ts by { assert [] + w.tracks == w.tracks; }
    if |d| > MAX_REQ { ConsDistinct(NewTrack(a, d), w.tracks); }
  }

  lemma ConsDistinct(t: Track, ts: seq<Track>)
    requires Distinct(ts) && Find(ts, t.property).None?
    ensures Distinct([t] + ts)
  {
    FindNone(ts, t.property);
  }

  lemma SenderListOk(w: World)
    requires ListOk(w) && w.queue != []
    ensures ListOk(Next(w, SenderTurn))
  {
    var n := w.queue[0];
    var t := Find(w.tracks, n.property);
    if n.deleted && t.Some? {
      var next := React(t.value).0;
      var ts := Settle(w.tracks, n.property, next);
      SettleDistinct(w.tracks, n.property, next);
      SettleMembers(w.tracks, n.property, next);
      forall i | 0 <= i < |ts| ensures TrackOk(ts[i]) && ts[i].property in w.chans { assert ts[i] in ts; }
    }
  }

  lemma NextListOk(w: World, turn: Turn)
    requires WorldInv(w) && Enabled(w, turn)
    ensures ListOk(Next(w, turn))
  {
    match turn
    case Request(a, d) => RequestListOk(w, a, d);
    case SenderTurn => SenderListOk(w);
    case ReceiverTurn(a) =>
  }

  // ----- Runs -----

  const QUIET: World := World([], [], map[])

  predicate WorldInv(w: World) {
    ListOk(w) && forall a :: a in w.chans ==> Inv(w.chans[a].data, Project(w, a))
  }

  lemma NextInv(w: World, turn: Turn)
    requires WorldInv(w) && Enabled(w, turn)
    ensures WorldInv(Next(w, turn))
  {
    NextListOk(w, turn);
    var after := Next(w, turn);
    forall b | b in after.chans ensures Inv(after.chans[b].data, Project(after, b)) {
      if turn.Request? && turn.property == b {
        RequestProjects(w, b, turn.data);
        StartInvIff(b, turn.data, Mail(w.queue, b));
      } else {
        NoInterference(w, turn, b);
        var l := Project(w, b);
        if turn.SenderTurn? && Subject(w, turn) == b { SenderKeepsInv(w.chans[b].data, l); }
        if turn == ReceiverTurn(b) { ReceiverKeepsInv(w.chans[b].data, l); }
      }
    }
  }

  ghost predicate AllEnabled(w: World, turns: seq<Turn>)
    requires WorldInv(w)
    decreases |turns|
  {
    turns == [] || (Enabled(w, turns[0]) && (NextInv(w, turns[0]); AllEnabled(Next(w, turns[0]), turns[1..])))
  }

  ghost function Run(w: World, turns: seq<Turn>): (r: World)
    requires WorldInv(w) && AllEnabled(w, turns)
    ensures WorldInv(r)
    decreases |turns|
  {
    if turns == [] then w else NextInv(w, turns[0]); Run(Next(w, turns[0]), turns[1..])
  }

  /** The worlds of a run, one after each turn. */
  ghost predicate Worlds(ws: seq<World>, turns: seq<Turn>) {
    && |ws| == |turns| + 1
    && forall i {:trigger turns[i]} :: 0 <= i < |turns| ==>
         ListOk(ws[i]) && Enabled(ws[i], turns[i]) && ws[i + 1] == Next(ws[i], turns[i])
  }

  lemma {:induction false} RunWorlds(w: World, turns: seq<Turn>) returns (ws: seq<World>)
    requires WorldInv(w) && AllEnabled(w, turns)
    ensures Worlds(ws, turns) && ws[0] == w && ws[|turns|] == Run(w, turns)
    decreases |turns|
  {
    if turns == [] {
      ws := [w];
    } else {
      NextInv(w, turns[0]);
      var more := RunWorlds(Next(w, turns[0]), turns[1..]);
      ws := [w] + more;
      forall i | 0 <= i < |turns|
        ensures ListOk(ws[i]) && Enabled(ws[i], turns[i]) && ws[i + 1] == Next(ws[i], turns[i])
      {
        if i > 0 { assert turns[1..][i - 1] == turns[i]; }
      }
    }
  }

  function Unread(slot: Slot): seq<int> {
    if slot.Text? then slot.bytes else []
  }

  /** How far the sender has come with a large transfer. */
  function SentOffset(w: World, a: int): (n: nat)
    requires WorldInv(w) && a in w.chans
    ensures n <= |w.chans[a].data|
  {
    assert Inv(w.chans[a].data, Project(w, a));
    var t := Find(w.tracks, a);
    if t.Some? then t.value.offset else |w.chans[a].data|
  }

  /** After any run from the quiet state: a receiver that has finished holds the whole selection, what a
      receiver holds together with what lies in its property is what the sender has sent, no write is
      larger than allowed, and no transfer has failed. */
  lemma Safety(turns: seq<Turn>, a: int)
    requires AllEnabled(QUIET, turns) && a in Run(QUIET, turns).chans
    ensures var c := Run(QUIET, turns).chans[a];
            && !c.rx.Lost?
            && (c.rx.Got? ==> c.rx.buf == c.data)
            && (c.rx.Reading? ==>
                  && c.rx.alloc > |c.rx.buf|
                  && c.rx.buf + Unread(c.slot) == c.data[..SentOffset(Run(QUIET, turns), a)])
            && (forall i :: 0 <= i < |c.writes| ==> |c.writes[i]| <= MAX_REQ)
  {
    var w := Run(QUIET, turns);
    assert Inv(w.chans[a].data, Project(w, a));
  }

  /** The list holds exactly the large transfers whose empty last write is still to come. */
  lemma ListIsUnfinished(w: World, a: int)
    requires WorldInv(w) && a in w.chans
    ensures var c := w.chans[a];
            Find(w.tracks, a).Some? <==> |c.data| > MAX_REQ && |c.writes| <= Chunks(|c.data|)
    ensures var c := w.chans[a];
            Find(w.tracks, a).None? && |c.data| > MAX_REQ ==>
              |c.writes| == Chunks(|c.data|) + 1 && Flatten(c.writes) == c.data && c.writes[|c.writes| - 1] == []
  {
    assert Inv(w.chans[a].data, Project(w, a));
  }

  // ----- Every transfer ends -----

  /** The turns of the transfer on `a`, up to the next request for it. */
  function TurnsOf(w: World, turns: seq<Turn>, a: int): nat
    requires WorldInv(w) && AllEnabled(w, turns)
    decreases |turns|
  {
    if turns == [] || (turns[0].Request? && turns[0].property == a) then 0
    else NextInv(w, turns[0]);
         (if Subject(w, turns[0]) == a then 1 else 0) + TurnsOf(Next(w, turns[0]), turns[1..], a)
  }

  lemma {:induction false} Bounded(w: World, turns: seq<Turn>, a: int)
    requires WorldInv(w) && AllEnabled(w, turns) && a in w.chans
    ensures TurnsOf(w, turns, a) <= Rank(w.chans[a].data, Project(w, a))
    decreases |turns|
  {
    if turns != [] && !(turns[0].Request? && turns[0].property == a) {
      NextInv(w, turns[0]);
      NoInterference(w, turns[0], a);
      var l := Project(w, a);
      if turns[0].SenderTurn? && Subject(w, turns[0]) == a { SenderProgress(w.chans[a].data, l); }
      if turns[0] == ReceiverTurn(a) { ReceiverProgress(w.chans[a].data, l); }
      Bounded(Next(w, turns[0]), turns[1..], a);
    }
  }

  /** A transfer takes a bounded number of turns, however the other transfers interleave with it. */
  lemma TransferEnds(w: World, a: int, d: seq<int>, turns: seq<Turn>)
    requires WorldInv(w) && Free(w, a, d)
    requires WorldInv(Next(w, Request(a, d))) && AllEnabled(Next(w, Request(a, d)), turns)
    ensures TurnsOf(Next(w, Request(a, d)), turns, a) <= 5 * Chunks(|d|) + 9 + |Mail(w.queue, a)|
  {
    RequestProjects(w, a, d);
    StartRank(a, d, Mail(w.queue, a));
    Bounded(Next(w, Request(a, d)), turns, a);
  }

  lemma StartRank(a: int, d: seq<int>, mail: seq<bool>)
    ensures Rank(d, Start(a, d).(mail := mail)) <= 5 * Chunks(|d|) + 9 + |mail|
  {
  }

  /** When nothing can move any more, every receiver has the whole selection. */
  lemma QuiescentIsComplete(w: World, a: int)
    requires WorldInv(w) && a in w.chans
    requires !Enabled(w, SenderTurn) && forall b :: b in w.chans ==> !Enabled(w, ReceiverTurn(b))
    ensures w.chans[a].rx == Got(w.chans[a].data)
  {
    assert Inv(w.chans[a].data, Project(w, a));
    assert !Enabled(w, ReceiverTurn(a));
    assert Mail(w.queue, a) == [];
    if !w.chans[a].rx.Got? { NeverStuck(w.chans[a].data, Project(w, a)); }
  }
}
