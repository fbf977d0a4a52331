/** The receiver's side as the program runs it: a buffer that is reallocated and filled in place. */
module IncrReceiver {
  import opened IncrSpec

  /** A property as it is read: whether its type is one of the three text types, its format and its bytes. */
  datatype Property = Property(text: bool, format: int, bytes: seq<int>)

  /** The end of the data, or something that is not text. */
  predicate Ends(v: Property) { !v.text || v.bytes == [] }

  /** What a text property adds: data that is not in bytes is passed over. */
  function Added(v: Property): seq<int> { if v.format == 8 then v.bytes else [] }

  class Receiver {
    /** `incr_base`, of `incr_alloc` bytes, of which `offset` are used; null once it is released. */
    var buffer: array?<int>
    var offset: nat

    ghost predicate Valid()
      reads this, buffer
    {
      buffer != null && offset <= buffer.Length
    }

    ghost function Contents(): seq<int>
      requires Valid()
      reads this, buffer
    {
      buffer[..offset]
    }

    /** The receiver as the protocol sees it. */
    ghost function View(): Rx
      requires buffer != null ==> Valid()
      reads this, buffer
    {
      if buffer == null then Lost else Reading(Contents(), buffer.Length)
    }

    constructor (initAlloc: nat)
      ensures Valid() && Contents() == [] && buffer.Length == initAlloc && fresh(buffer)
    {
      buffer := new int[initAlloc];
      offset := 0;
    }

    /** `realloc`: a larger buffer with the same bytes. */
    method Grow(alloc: nat)
      requires Valid() && alloc >= offset
      modifies this`buffer
      ensures Valid() && fresh(buffer) && buffer.Length == alloc
      ensures Contents() == old(Contents())
    {
      var larger := new int[alloc];
      var i := 0;
      while i < offset
        modifies larger
        invariant i <= offset && forall j :: 0 <= j < i ==> larger[j] == buffer[j]
      {
        larger[i] := buffer[i];
        i := i + 1;
      }
      assert larger[..offset] == buffer[..offset];
      buffer := larger;
    }

    /** `get_append_property`: append the bytes and a terminating zero; false at the empty property that ends
        the transfer and, with the buffer released, at one that is not text.  On bytes this is `Appended` in
        the protocol. */
    method GetAppendProperty(v: Property) returns (more: bool)
      requires Valid()
      modifies this, buffer
      ensures more == !Ends(v)
      ensures if v.text then Valid() && Contents() == old(Contents()) + Added(v) else buffer == null && View() == Lost
      ensures v.text && (v.bytes == [] || v.format == 8) ==>
        (if more then View() else Got(Contents())) == Appended(old(Contents()), old(buffer.Length), v.bytes)
      ensures buffer == old(buffer) || buffer == null || fresh(buffer)
      ensures more && v.format == 8 ==> offset < buffer.Length && buffer[offset] == 0
      ensures v.text ==> buffer.Length == if old(offset) + |Added(v)| + 1 > old(buffer.Length) && Added(v) != []
                                          then old(offset) + |Added(v)| + 1 else old(buffer.Length)
    {
      if !v.text {
        buffer := null;
        return false;
      } else if |v.bytes| == 0 {
        return false;
      } else if v.format == 8 {
        Append(v.bytes);
      }
      more := true;
    }

    /** The branch for bytes: make room, copy, and move the offset. */
    method Append(value: seq<int>)
      requires Valid()
      modifies this, buffer
      ensures Valid() && Contents() == old(Contents()) + value && offset == old(offset) + |value|
      ensures buffer == old(buffer) || fresh(buffer)
      ensures offset < buffer.Length && buffer[offset] == 0
      ensures buffer.Length == if offset + 1 > old(buffer.Length) then offset + 1 else old(buffer.Length)
    {
      if offset + |value| + 1 > buffer.Length {
        Grow(offset + |value| + 1);
      }
      CopyIn(value);
      offset := offset + |value|;
    }

    /** `memcpy` behind the contents, and the terminating zero. */
    method CopyIn(value: seq<int>)
      requires buffer != null && offset + |value| < buffer.Length
      modifies buffer
      ensures buffer[..offset + |value|] == old(buffer[..offset]) + value
      ensures buffer[offset + |value|] == 0
    {
      var i := 0;
      while i < |value|
        invariant i <= |value|
        invariant forall j :: 0 <= j < offset ==> buffer[j] == old(buffer[j])
        invariant forall j :: 0 <= j < i ==> buffer[offset + j] == value[j]
      {
        buffer[offset + i] := value[i];
        i := i + 1;
      }
      buffer[offset + |value|] := 0;
      assert buffer[..offset + |value|] == old(buffer[..offset]) + value;
    }
  }

  /** An event as the receiver gets it, and the property as it is then. */
  datatype Event = Event(note: Note, property: Property)

  /** The properties found at the new-value events. */
  function Values(events: seq<Event>): seq<Property> {
    if events == [] then []
    else (if events[0].note == NewValue then [events[0].property] else []) + Values(events[1..])
  }

  /** What a list of properties adds, in order. */
  function AddedAll(vs: seq<Property>): seq<int> {
    if vs == [] then [] else AddedAll(vs[..|vs| - 1]) + Added(vs[|vs| - 1])
  }

  /** Data in bytes adds these bytes, and any other data nothing. */
  lemma OnlyBytesAdd(vs: seq<Property>, bytes: seq<int>, format: int)
    ensures AddedAll(vs + [Property(true, format, bytes)]) == AddedAll(vs) + if format == 8 then bytes else []
  {
    assert (vs + [Property(true, format, bytes)])[..|vs|] == vs;
  }

  /** The receiver stops at the last of these properties, and at none before it. */
  predicate StopsAtLast(vs: seq<Property>) {
    vs != [] && Ends(vs[|vs| - 1]) && GoesOn(vs[..|vs| - 1])
  }

  predicate GoesOn(vs: seq<Property>) { forall i :: 0 <= i < |vs| ==> !Ends(vs[i]) }

  /** One new value: the receiver then stands after `vs` and this one. */
  method Receive(r: Receiver, v: Property, ghost vs: seq<Property>) returns (more: bool)
    requires r.Valid() && GoesOn(vs) && r.Contents() == AddedAll(vs)
    modifies r, r.buffer
    ensures if more then GoesOn(vs + [v]) else StopsAtLast(vs + [v])
    ensures more ==> v.text
    ensures if v.text then r.Valid() && r.Contents() == AddedAll(vs + [v]) else r.buffer == null
    ensures r.buffer == old(r.buffer) || r.buffer == null || fresh(r.buffer)
  {
    StopsSnoc(vs, v);
    more := r.GetAppendProperty(v);
  }

  /** The loop of `wait_incr_selection`: events other than new values are passed over, and the first property
      that is empty or no text ends it. */
  method WaitIncr(events: seq<Event>, initAlloc: nat) returns (result: Option<seq<int>>, used: nat)
    requires !GoesOn(Values(events))
    ensures used <= |events| && StopsAtLast(Values(events[..used]))
    ensures var vs := Values(events[..used]);
      result == if vs[|vs| - 1].text then Some(AddedAll(vs)) else None
  {
    var r := new Receiver(initAlloc);
    var waitProp := true;
    used := 0;
    ghost var vs: seq<Property> := [];
    assert Values(events[..0]) == [] && events[0..] == events;
    while waitProp
      invariant fresh(r) && (r.buffer != null ==> r.Valid() && fresh(r.buffer))
      invariant used <= |events| && vs == Values(events[..used])
      invariant waitProp ==> r.buffer != null && GoesOn(vs) && !GoesOn(Values(events[used..]))
      invariant !waitProp ==> StopsAtLast(vs) && (vs[|vs| - 1].text <==> r.buffer != null)
      invariant r.buffer != null ==> r.Contents() == AddedAll(vs)
      decreases |events| - used, waitProp
    {
      assert used < |events|;
      var e := events[used];
      ValuesSnoc(events, used);
      StillStops(events, used);
      used := used + 1;
      if e.note != NewValue {
        continue;
      }
      waitProp := Receive(r, e.property, vs);
      vs := vs + [e.property];
    }
    result := if r.buffer == null then None else Some(r.buffer[..r.offset]);
  }

  /** The events behind one that does not end the transfer hold one that does. */
  lemma StillStops(events: seq<Event>, k: nat)
    requires k < |events| && !GoesOn(Values(events[k..]))
    ensures (events[k].note == NewValue && Ends(events[k].property)) || !GoesOn(Values(events[k + 1..]))
  {
    assert events[k..][1..] == events[k + 1..];
    var head := if events[k].note == NewValue then [events[k].property] else [];
    assert Values(events[k..]) == head + Values(events[k + 1..]);
  }

  lemma StopsSnoc(vs: seq<Property>, v: Property)
    requires GoesOn(vs)
    ensures var all := vs + [v];
      && all[|all| - 1] == v && (if Ends(v) then StopsAtLast(all) else GoesOn(all))
      && AddedAll(all) == AddedAll(vs) + Added(v)
  {
    assert (vs + [v])[..|vs|] == vs;
  }

  lemma {:induction false} ValuesSnoc(events: seq<Event>, k: nat)
    requires k < |events|
    ensures var e := events[k];
      Values(events[..k + 1]) == Values(events[..k]) + if e.note == NewValue then [e.property] else []
    decreases k
  {
    if k == 0 {
      assert events[..1][1..] == [] && events[..0] == [];
    } else {
      ValuesSnoc(events[1..], k - 1);
      assert events[..k + 1][1..] == events[1..][..k] && events[..k][1..] == events[1..][..k - 1];
    }
  }

  /** The properties the sender's writes leave to be read: text, in bytes. */
  function Written(ws: seq<seq<int>>): seq<Property> {
    seq(|ws|, i requires 0 <= i < |ws| => Property(true, 8, ws[i]))
  }

  lemma {:induction false} AddsWrites(ws: seq<seq<int>>)
    ensures AddedAll(Written(ws)) == Flatten(ws)
  {
    if ws != [] {
      AddsWrites(ws[..|ws| - 1]);
      assert Written(ws)[..|ws| - 1] == Written(ws[..|ws| - 1]);
    }
  }

  /** When the values are the writes of a complete transfer, what is collected up to the place where the
      receiver stops is the selection. */
  lemma CollectsSelection(d: seq<int>, l: Local, used: nat)
    requires Inv(d, l) && |d| > MAX_REQ && l.track.None?
    requires used <= |l.writes| && StopsAtLast(Written(l.writes[..used]))
    ensures AddedAll(Written(l.writes[..used])) == d && Written(l.writes[..used])[used - 1].text
  {
    var ws := l.writes[..used];
    AddsWrites(ws);
    assert Written(ws)[used - 1] == Property(true, 8, l.writes[used - 1]);
    assert used == |l.writes|;
    assert ws == l.writes;
  }
}
