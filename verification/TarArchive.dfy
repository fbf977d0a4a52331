/** Archives as sequences of entries, and the reader's cursor over their bytes. */
module TarArchive {
  import opened TarHeader
  import opened Tar

  // ----- Cursor arithmetic -----

  /** `round_up` to a block, before it is cut to 32 bits. */
  function RoundUp(n: nat): (r: nat)
    ensures n <= r < n + BLOCK && r % BLOCK == 0
  {
    n + (BLOCK - n % BLOCK) % BLOCK
  }

  /** Where `mtar_next` seeks from a header at `pos`. */
  function NextPos(pos: nat, size: nat): nat {
    (pos + RoundUp(size) + BLOCK) % UNSIGNED
  }

  /** The cursor stays on block boundaries, and moves forward exactly when neither the 32-bit position
      wraps nor, for the last sizes, the rounding and the position together. */
  lemma CursorAdvancesIff(pos: nat, size: nat)
    requires pos < UNSIGNED && size < UNSIGNED && pos % BLOCK == 0
    ensures NextPos(pos, size) % BLOCK == 0
    ensures NextPos(pos, size) > pos <==>
      pos + BLOCK + (if size > UNSIGNED - BLOCK then 0 else RoundUp(size)) < UNSIGNED
  {
    var r := RoundUp(size);
    assert r / BLOCK * BLOCK == r && pos / BLOCK * BLOCK == pos;
    if size > UNSIGNED - BLOCK { assert r == UNSIGNED; } else { assert r <= UNSIGNED - BLOCK; }
  }

  // ----- Layout -----

  datatype Entry = Entry(header: Header, data: seq<Byte>)

  predicate EntryOk(e: Entry) { HeaderOk(e.header) && |e.data| == e.header.size }

  predicate EntriesOk(es: seq<Entry>) { forall i :: 0 <= i < |es| ==> EntryOk(es[i]) }

  function Blocks(e: Entry): (s: seq<Byte>)
    ensures |s| == BLOCK + RoundUp(|e.data|)
  {
    RawOf(e.header) + Zeros(12) + e.data + Zeros(RoundUp(|e.data|) - |e.data|)
  }

  function Layout(es: seq<Entry>): seq<Byte> {
    if es == [] then [] else Layout(es[..|es| - 1]) + Blocks(es[|es| - 1])
  }

  /** The entries, and at least one block of zeros. */
  function Archive(es: seq<Entry>, blanks: nat): seq<Byte> {
    Layout(es) + Zeros(BLOCK * (blanks + 1))
  }

  function Offset(es: seq<Entry>, k: nat): nat
    requires k <= |es|
  {
    |Layout(es[..k])|
  }

  lemma OffsetStep(es: seq<Entry>, k: nat)
    requires k < |es|
    ensures Offset(es, k + 1) == Offset(es, k) + BLOCK + RoundUp(|es[k].data|)
  {
    assert es[..k + 1][..k] == es[..k];
  }

  lemma SumMultiple(p: nat, n: nat)
    requires p % BLOCK == 0 && n % BLOCK == 0
    ensures (p + BLOCK + n) % BLOCK == 0
  {
  }

  lemma {:induction false} OffsetMultiple(es: seq<Entry>, k: nat)
    requires k <= |es|
    ensures Offset(es, k) % BLOCK == 0
  {
    if k > 0 {
      OffsetMultiple(es, k - 1);
      OffsetStep(es, k - 1);
      SumMultiple(Offset(es, k - 1), RoundUp(|es[k - 1].data|));
    }
  }

  lemma {:induction false} LayoutPrefix(es: seq<Entry>, k: nat)
    requires k <= |es|
    ensures Layout(es[..k]) <= Layout(es)
    decreases |es|
  {
    if k == |es| {
      assert es[..k] == es;
    } else {
      var front := es[..|es| - 1];
      LayoutPrefix(front, k);
      assert front[..k] == es[..k];
    }
  }

  /** The blocks of entry `k` lie at its offset. */
  lemma BlocksAt(es: seq<Entry>, k: nat, blanks: nat)
    requires k < |es|
    ensures Offset(es, k) + |Blocks(es[k])| <= |Layout(es)|
    ensures Archive(es, blanks)[Offset(es, k)..Offset(es, k) + |Blocks(es[k])|] == Blocks(es[k])
  {
    var p := Offset(es, k);
    assert es[..k + 1][..k] == es[..k];
    LayoutPrefix(es, k + 1);
    assert Layout(es[..k + 1]) == Layout(es[..k]) + Blocks(es[k]);
    var n := p + |Blocks(es[k])|;
    assert Archive(es, blanks)[..n] == Layout(es[..k + 1]);
    assert Archive(es, blanks)[p..n] == Archive(es, blanks)[..n][p..];
  }

  lemma SliceOfSlice(a: seq<Byte>, p: nat, n: nat, i: nat, j: nat)
    requires p + n <= |a| && i <= j <= n
    ensures a[p..p + n][i..j] == a[p + i..p + j]
  {
    var s, t := a[p..p + n], a[p + i..p + j];
    forall x | 0 <= x < j - i ensures s[i..j][x] == t[x] { assert s[i + x] == a[p + (i + x)]; }
  }

  lemma BlockData(e: Entry)
    ensures Blocks(e)[BLOCK..BLOCK + |e.data|] == e.data
  {
    var header := RawOf(e.header) + Zeros(12);
    assert |header| == BLOCK;
    MiddleOf(header, e.data, Zeros(RoundUp(|e.data|) - |e.data|));
  }

  lemma MiddleOf(a: seq<Byte>, b: seq<Byte>, c: seq<Byte>)
    ensures (a + b + c)[|a|..|a| + |b|] == b
  {
  }

  lemma DataAt(es: seq<Entry>, k: nat, blanks: nat)
    requires k < |es|
    ensures var p := Offset(es, k) + BLOCK;
            p + |es[k].data| <= |Archive(es, blanks)| && Archive(es, blanks)[p..p + |es[k].data|] == es[k].data
  {
    BlocksAt(es, k, blanks);
    var a, p, b := Archive(es, blanks), Offset(es, k), Blocks(es[k]);
    BlockData(es[k]);
    SliceOfSlice(a, p, |b|, BLOCK, BLOCK + |es[k].data|);
  }

  lemma DataSlice(es: seq<Entry>, k: nat, blanks: nat, c: nat, size: nat)
    requires k < |es| && c + size <= |es[k].data|
    ensures var p := Offset(es, k) + BLOCK + c;
            p + size <= |Archive(es, blanks)| && Archive(es, blanks)[p..p + size] == es[k].data[c..c + size]
    ensures Offset(es, k) + BLOCK + |es[k].data| <= |Archive(es, blanks)|
  {
    DataAt(es, k, blanks);
    SliceOfSlice(Archive(es, blanks), Offset(es, k) + BLOCK, |es[k].data|, c, c + size);
  }

  /** What `mtar_read_header` makes of the bytes at a position. */
  function HeaderAt(bytes: seq<Byte>, p: nat, env: Surroundings): Result<Header> {
    if p + HEADER_SIZE <= |bytes| then RawToHeader(bytes[p..p + HEADER_SIZE], env) else Err(ReadFail)
  }

  /** At the entries' offsets the reader sees the headers in order, and then the null record. */
  lemma HeadersInOrder(es: seq<Entry>, k: nat, blanks: nat, env: Surroundings)
    requires EntriesOk(es) && k <= |es|
    ensures HeaderAt(Archive(es, blanks), Offset(es, k), env)
            == if k < |es| then Ok(Normal(es[k].header)) else Err(NullRecord)
  {
    if k < |es| {
      HeaderBytes(es, k, blanks);
      assert EntryOk(es[k]);
      RoundTrip(es[k].header, env);
    } else {
      BlankBytes(es, blanks);
    }
  }

  lemma HeaderBytes(es: seq<Entry>, k: nat, blanks: nat)
    requires k < |es|
    ensures var a, p := Archive(es, blanks), Offset(es, k);
      p + HEADER_SIZE <= |a| && a[p..p + HEADER_SIZE] == RawOf(es[k].header)
  {
    BlocksAt(es, k, blanks);
    var a, p, b := Archive(es, blanks), Offset(es, k), Blocks(es[k]);
    SliceOfSlice(a, p, |b|, 0, HEADER_SIZE);
    assert b[0..HEADER_SIZE] == RawOf(es[k].header);
  }

  lemma BlankBytes(es: seq<Entry>, blanks: nat)
    ensures var a, p := Archive(es, blanks), Offset(es, |es|);
      p + HEADER_SIZE <= |a| && a[p..p + HEADER_SIZE][CHECKSUM_AT] == 0
  {
    assert es[..|es|] == es;
    assert Archive(es, blanks)[Offset(es, |es|) + CHECKSUM_AT] == Zeros(BLOCK * (blanks + 1))[CHECKSUM_AT];
  }

  /** `mtar_next` steps from entry to entry. */
  lemma NextInOrder(es: seq<Entry>, k: nat)
    requires EntriesOk(es) && k < |es| && |Layout(es)| < UNSIGNED
    ensures NextPos(Offset(es, k), Normal(es[k].header).size) == Offset(es, k + 1) > Offset(es, k)
    ensures Offset(es, k + 1) <= |Layout(es)|
  {
    OffsetStep(es, k);
    assert Offset(es, k + 1) <= |Layout(es)| by { LayoutPrefix(es, k + 1); }
    assert EntryOk(es[k]);
    StepsTo(Offset(es, k), es[k].header.size, Offset(es, k + 1));
  }

  lemma SmallPosition(p: nat)
    requires p < UNSIGNED
    ensures p % UNSIGNED == p
  {
  }

  lemma LeftOver(left: nat, size: nat)
    requires left < UNSIGNED && size < UNSIGNED
    ensures (left + UNSIGNED - size) % UNSIGNED == if size <= left then left - size else left + UNSIGNED - size
  {
  }

  lemma StepsTo(p: nat, size: nat, q: nat)
    requires q == p + BLOCK + RoundUp(size) && q < UNSIGNED
    ensures NextPos(p, size) == q > p
  {
  }

  /** The first entry with the name. */
  function FirstMatch(es: seq<Entry>, name: seq<Byte>): (i: nat)
    ensures i <= |es| && (forall j :: 0 <= j < i ==> es[j].header.name != name)
    ensures i < |es| ==> es[i].header.name == name
  {
    if es == [] || es[0].header.name == name then 0 else 1 + FirstMatch(es[1..], name)
  }

  function Headers(es: seq<Entry>): seq<Header> {
    seq(|es|, i requires 0 <= i < |es| => Normal(es[i].header))
  }

  // ----- The reader -----

  class Reader {
    const bytes: seq<Byte>
    /** The archive extractor reads from memory: its reads do not advance and its seeks stop at the end. */
    const inMemory: bool
    const env: Surroundings
    /** The stream's own position, and the one the reader keeps. */
    var fp: nat
    var pos: nat
    var remaining: nat
    var lastHeader: nat

    constructor (bytes: seq<Byte>, inMemory: bool, env: Surroundings)
      ensures this.bytes == bytes && this.inMemory == inMemory && this.env == env
      ensures fp == pos == remaining == lastHeader == 0
    {
      this.bytes, this.inMemory, this.env := bytes, inMemory, env;
      fp, pos, remaining, lastHeader := 0, 0, 0, 0;
    }

    /** The cursor is at `p`, where the stream is too. */
    ghost predicate AtPos(p: nat)
      reads this`fp, this`pos
    {
      fp == pos == p
    }

    /** `tread`. */
    method Read(size: nat) returns (r: Result<seq<Byte>>)
      modifies this`fp, this`pos
      ensures pos == (old(pos) + size) % UNSIGNED
      ensures r == if old(fp) + size <= |bytes| then Ok(bytes[old(fp)..old(fp) + size]) else Err(ReadFail)
      ensures r.Ok? ==> fp == if inMemory then old(fp) else old(fp) + size
    {
      if fp + size <= |bytes| {
        r := Ok(bytes[fp..fp + size]);
        if !inMemory { fp := fp + size; }
      } else {
        r := Err(ReadFail);
        if !inMemory && fp < |bytes| { fp := |bytes|; }
      }
      pos := (pos + size) % UNSIGNED;
    }

    /** `mtar_seek`. */
    method Seek(p: nat) returns (ok: bool)
      modifies this`fp, this`pos
      ensures pos == p && ok == (!inMemory || p <= |bytes|)
      ensures fp == if ok then p else old(fp)
    {
      ok := !inMemory || p <= |bytes|;
      if ok { fp := p; }
      pos := p;
    }

    /** `mtar_read_header`: the cursor ends on the header it has read. */
    method ReadHeader() returns (r: Result<Header>)
      requires AtPos(pos)
      modifies this`fp, this`pos, this`lastHeader
      ensures r == HeaderAt(bytes, old(pos), env) && lastHeader == old(pos)
      ensures r != Err(ReadFail) ==> AtPos(old(pos))
    {
      lastHeader := pos;
      var raw := Read(HEADER_SIZE);
      pos := (pos + 12) % UNSIGNED;
      if raw.Err? { return Err(raw.error); }
      var ok := Seek(lastHeader);
      if !ok { return Err(SeekFail); }
      r := RawToHeader(raw.value, env);
    }

    /** `mtar_next`. */
    method Next() returns (r: Result<()>)
      requires AtPos(pos)
      modifies this`fp, this`pos, this`lastHeader
      ensures var h := HeaderAt(bytes, old(pos), env);
              if h.Err? then r == Err(h.error)
              else
                && pos == NextPos(old(pos), h.value.size)
                && (if inMemory && pos > |bytes| then r == Err(SeekFail) else r.Ok? && AtPos(pos))
    {
      var h := ReadHeader();
      if h.Err? { return Err(h.error); }
      var ok := Seek(NextPos(pos, h.value.size));
      r := if ok then Ok(()) else Err(SeekFail);
    }

    /** `mtar_read_header` on the place of entry `k`, or of the zeros after the last one. */
    method ReadEntry(ghost es: seq<Entry>, ghost blanks: nat, ghost k: nat) returns (r: Result<Header>)
      requires EntriesOk(es) && bytes == Archive(es, blanks) && k <= |es| && AtPos(Offset(es, k))
      modifies this`fp, this`pos, this`lastHeader
      ensures r == if k < |es| then Ok(Normal(es[k].header)) else Err(NullRecord)
      ensures AtPos(Offset(es, k)) && lastHeader == Offset(es, k)
    {
      HeadersInOrder(es, k, blanks, env);
      r := ReadHeader();
    }

    /** `mtar_next` from entry `k`. */
    method NextEntry(ghost es: seq<Entry>, ghost blanks: nat, ghost k: nat) returns (r: Result<()>)
      requires EntriesOk(es) && bytes == Archive(es, blanks) && |bytes| < UNSIGNED
      requires k < |es| && AtPos(Offset(es, k))
      modifies this`fp, this`pos, this`lastHeader
      ensures r.Ok? && AtPos(Offset(es, k + 1))
    {
      HeadersInOrder(es, k, blanks, env);
      NextInOrder(es, k);
      r := Next();
    }

    /** `mtar_find`: the first entry with the name, with the cursor on it, or not found. */
    method Find(name: seq<Byte>, ghost es: seq<Entry>, ghost blanks: nat) returns (r: Result<Header>)
      requires EntriesOk(es) && bytes == Archive(es, blanks) && |bytes| < UNSIGNED
      modifies this
      ensures var i := FirstMatch(es, name);
              && r == (if i < |es| then Ok(Normal(es[i].header)) else Err(NotFound))
              && AtPos(Offset(es, i))
      ensures remaining == 0
    {
      remaining, lastHeader := 0, 0;
      var ok := Seek(0);
      if !ok { return Err(SeekFail); }
      ghost var k := 0;
      var h := ReadEntry(es, blanks, k);
      while h.Ok?
        invariant k <= |es| && AtPos(Offset(es, k)) && remaining == 0
        invariant h == if k < |es| then Ok(Normal(es[k].header)) else Err(NullRecord)
        invariant forall j :: 0 <= j < k ==> es[j].header.name != name
        decreases |es| - k
      {
        if h.value.name == name {
          MatchAt(es, name, k);
          return h;
        }
        var n := NextEntry(es, blanks, k);
        k := k + 1;
        h := ReadEntry(es, blanks, k);
      }
      MatchAt(es, name, k);
      r := if h == Err(NullRecord) then Err(NotFound) else h;
    }

    /** The loop of the extractor, `tar_extract`, without the writing out: the headers it meets.  It
        refuses an archive without entries. */
    method List(ghost es: seq<Entry>, ghost blanks: nat) returns (hs: seq<Header>, ok: bool)
      requires EntriesOk(es) && bytes == Archive(es, blanks) && |bytes| < UNSIGNED && AtPos(0)
      modifies this`fp, this`pos, this`lastHeader
      ensures ok == (es != []) && hs == Headers(es)
    {
      hs, ok := [], true;
      ghost var k := 0;
      var h := ReadEntry(es, blanks, k);
      if h.Err? { return [], false; }
      h := ReadEntry(es, blanks, k);
      while h != Err(NullRecord)
        invariant k <= |es| && AtPos(Offset(es, k)) && ok && es != []
        invariant h == if k < |es| then Ok(Normal(es[k].header)) else Err(NullRecord)
        invariant hs == Headers(es)[..k]
        decreases |es| - k
      {
        hs := hs + [h.value];
        var n := NextEntry(es, blanks, k);
        if n.Err? {
          ok := false;
          break;
        }
        k := k + 1;
        h := ReadEntry(es, blanks, k);
      }
      assert Headers(es)[..|es|] == Headers(es);
    }

    /** `c` bytes of entry `k` have been read: either the cursor is on its header and a read begins, or it
        is that far into the data. */
    ghost predicate Inside(es: seq<Entry>, k: nat, c: nat)
      requires k < |es|
      reads this
    {
      var data := Offset(es, k) + BLOCK;
      if remaining == 0 then c == 0 && AtPos(Offset(es, k))
      else
        && remaining + c == |es[k].data| && lastHeader == Offset(es, k)
        && pos == data + c && fp == data + if inMemory then 0 else c
    }

    /** The first part of `mtar_read_data`: go to the data of the header under the cursor. */
    method BeginData(ghost es: seq<Entry>, ghost blanks: nat, ghost k: nat) returns (r: Result<()>)
      requires EntriesOk(es) && bytes == Archive(es, blanks) && |bytes| < UNSIGNED && k < |es|
      requires AtPos(Offset(es, k))
      modifies this
      ensures r.Ok? && AtPos(Offset(es, k) + BLOCK) && remaining == |es[k].data| && lastHeader == Offset(es, k)
    {
      DataAt(es, k, blanks);
      var h := ReadEntry(es, blanks, k);
      match h
      case Err(e) => r := Err(e);
      case Ok(header) =>
        SmallPosition(Offset(es, k) + BLOCK);
        var ok := Seek((pos + BLOCK) % UNSIGNED);
        remaining := header.size;
        r := if ok then Ok(()) else Err(SeekFail);
    }

    /** `mtar_read_data`: when nothing is left it goes back to the header.  A stream that does not advance
        serves every read from the beginning of the data.  A read of more than is left takes what follows
        the data, and what is left then wraps around. */
    method ReadData(size: nat, ghost es: seq<Entry>, ghost blanks: nat, ghost k: nat, ghost c: nat)
        returns (r: Result<seq<Byte>>)
      requires EntriesOk(es) && bytes == Archive(es, blanks) && |bytes| < UNSIGNED && k < |es|
      requires Inside(es, k, c) && size < UNSIGNED
      modifies this
      ensures c <= |es[k].data|
      ensures var p := Offset(es, k) + BLOCK + if inMemory then 0 else c;
        r == if p + size <= |bytes| then Ok(bytes[p..p + size]) else Err(ReadFail)
      ensures r.Ok? ==> remaining == if c + size <= |es[k].data| then |es[k].data| - c - size
                                     else |es[k].data| - c + UNSIGNED - size
      ensures r.Ok? ==>
        var p := Offset(es, k) + BLOCK;
        && lastHeader == Offset(es, k)
        && if remaining == 0 then AtPos(Offset(es, k))
           else pos == (p + c + size) % UNSIGNED && fp == p + if inMemory then 0 else c + size
    {
      var b := EnterData(es, blanks, k, c);
      match b
      case Err(e) => return Err(e);
      case Ok(_) =>
        r := Read(size);
        if r.Err? { return; }
        LeftOver(remaining, size);
        remaining := (remaining + UNSIGNED - size) % UNSIGNED;
        var ok := FinishData();
        if !ok { return Err(SeekFail); }
    }

    /** With nothing left from an earlier read, a new one begins. */
    method EnterData(ghost es: seq<Entry>, ghost blanks: nat, ghost k: nat, ghost c: nat) returns (b: Result<()>)
      requires EntriesOk(es) && bytes == Archive(es, blanks) && |bytes| < UNSIGNED && k < |es| && Inside(es, k, c)
      modifies this
      ensures b.Ok? && lastHeader == Offset(es, k) && c <= |es[k].data| && remaining == |es[k].data| - c
      ensures pos == Offset(es, k) + BLOCK + c && fp == Offset(es, k) + BLOCK + if inMemory then 0 else c
      ensures Offset(es, k) + BLOCK + |es[k].data| <= |bytes|
    {
      DataSlice(es, k, blanks, 0, 0);
      b := Ok(());
      if remaining == 0 { b := BeginData(es, blanks, k); }
    }

    /** When nothing is left, back to the header. */
    method FinishData() returns (ok: bool)
      requires lastHeader <= |bytes|
      modifies this`fp, this`pos
      ensures ok && (if remaining == 0 then AtPos(lastHeader) else pos == old(pos) && fp == old(fp))
    {
      ok := true;
      if remaining == 0 { ok := Seek(lastHeader); }
    }

    /** A read inside the data. */
    method ReadPart(size: nat, ghost es: seq<Entry>, ghost blanks: nat, ghost k: nat, ghost c: nat)
        returns (r: Result<seq<Byte>>)
      requires EntriesOk(es) && bytes == Archive(es, blanks) && |bytes| < UNSIGNED && k < |es|
      requires Inside(es, k, c) && c + size <= |es[k].data|
      modifies this
      ensures r == Ok(if inMemory then es[k].data[..size] else es[k].data[c..c + size])
      ensures if c + size == |es[k].data| then remaining == 0 && AtPos(Offset(es, k))
              else remaining > 0 && Inside(es, k, c + size)
    {
      DataSlice(es, k, blanks, c, size);
      DataSlice(es, k, blanks, 0, size);
      SmallPosition(Offset(es, k) + BLOCK + c + size);
      r := ReadData(size, es, blanks, k, c);
    }

    /** Read an entry chunk by chunk. */
    method ReadChunks(chunks: seq<nat>, ghost es: seq<Entry>, ghost blanks: nat, ghost k: nat)
        returns (parts: seq<seq<Byte>>)
      requires EntriesOk(es) && bytes == Archive(es, blanks) && |bytes| < UNSIGNED && k < |es|
      requires remaining == 0 && AtPos(Offset(es, k)) && Total(chunks) == |es[k].data|
      requires chunks != [] ==> chunks[|chunks| - 1] > 0
      modifies this
      ensures remaining == 0 && AtPos(Offset(es, k)) && |parts| == |chunks|
      ensures !inMemory ==> Concat(parts) == es[k].data
      ensures inMemory ==> FitIn(chunks, es[k].data) && Concat(parts) == Beginnings(es[k].data, chunks)
    {
      parts := [];
      ghost var c := 0;
      var i := 0;
      while i < |chunks|
        invariant i == |parts| <= |chunks| && c == Total(chunks[..i]) <= |es[k].data|
        invariant if c == |es[k].data| then remaining == 0 && AtPos(Offset(es, k)) && i == |chunks|
          else Inside(es, k, c)
        invariant PartsRead(inMemory, es[k].data, chunks, parts, c)
      {
        TotalPrefix(chunks, i);
        var r := ReadPart(chunks[i], es, blanks, k, c);
        PartRead(inMemory, es[k].data, chunks, parts, c);
        parts := parts + [r.value];
        c := c + chunks[i];
        i := i + 1;
      }
      assert chunks[..|chunks|] == chunks;
    }
  }

  function Total(chunks: seq<nat>): nat {
    if chunks == [] then 0 else Total(chunks[..|chunks| - 1]) + chunks[|chunks| - 1]
  }

  function Concat(parts: seq<seq<Byte>>): seq<Byte> {
    if parts == [] then [] else Concat(parts[..|parts| - 1]) + parts[|parts| - 1]
  }

  predicate FitIn(chunks: seq<nat>, data: seq<Byte>) { forall j :: 0 <= j < |chunks| ==> chunks[j] <= |data| }

  /** What a stream that does not advance serves for the chunks: a beginning of the data each time. */
  function Beginnings(data: seq<Byte>, chunks: seq<nat>): seq<Byte>
    requires FitIn(chunks, data)
  {
    if chunks == [] then []
    else Beginnings(data, chunks[..|chunks| - 1]) + data[..chunks[|chunks| - 1]]
  }

  /** The parts read are the chunks of the data in order, or, from memory, its beginnings. */
  predicate PartsRead(inMemory: bool, data: seq<Byte>, chunks: seq<nat>, parts: seq<seq<Byte>>, c: nat) {
    && |parts| <= |chunks| && c <= |data|
    && if inMemory then FitIn(chunks[..|parts|], data) && Concat(parts) == Beginnings(data, chunks[..|parts|])
       else Concat(parts) == data[..c]
  }

  lemma PartRead(inMemory: bool, data: seq<Byte>, chunks: seq<nat>, parts: seq<seq<Byte>>, c: nat)
    requires PartsRead(inMemory, data, chunks, parts, c) && |parts| < |chunks| && c + chunks[|parts|] <= |data|
    ensures var size := chunks[|parts|];
      PartsRead(inMemory, data, chunks, parts + [if inMemory then data[..size] else data[c..c + size]], c + size)
  {
    var n, size := |parts|, chunks[|parts|];
    var part := if inMemory then data[..size] else data[c..c + size];
    assert (parts + [part])[..n] == parts;
    if inMemory {
      assert chunks[..n + 1][..n] == chunks[..n];
    } else {
      assert data[..c] + data[c..c + size] == data[..c + size];
    }
  }

  /** The chunks before the last one leave something to read when the last one is not empty. */
  lemma {:induction false} TotalPrefix(chunks: seq<nat>, i: nat)
    requires i < |chunks| && chunks[|chunks| - 1] > 0
    ensures Total(chunks[..i]) < Total(chunks)
      && Total(chunks[..i + 1]) == Total(chunks[..i]) + chunks[i] <= Total(chunks)
    ensures i + 1 < |chunks| ==> Total(chunks[..i + 1]) < Total(chunks)
    decreases |chunks| - i
  {
    assert chunks[..i + 1][..i] == chunks[..i];
    if i + 1 == |chunks| {
      assert chunks[..i + 1] == chunks;
    } else {
      TotalPrefix(chunks, i + 1);
    }
  }

  lemma {:induction false} TotalSteps(chunks: seq<nat>, j: nat)
    requires j < |chunks|
    ensures Total(chunks[..j + 1]) == Total(chunks[..j]) + chunks[j] <= Total(chunks)
    decreases |chunks| - j
  {
    assert chunks[..j + 1][..j] == chunks[..j];
    if j + 1 < |chunks| { TotalSteps(chunks, j + 1); } else { assert chunks[..j + 1] == chunks; }
  }

  lemma ChunksFit(chunks: seq<nat>, data: seq<Byte>)
    requires Total(chunks) == |data|
    ensures FitIn(chunks, data)
  {
    forall j | 0 <= j < |chunks| ensures chunks[j] <= |data| { TotalSteps(chunks, j); }
  }

  /** The bytes a chunk should have are the first bytes of the data. */
  predicate Repeats(data: seq<Byte>, chunks: seq<nat>, j: nat)
    requires j < |chunks|
  {
    var p := Total(chunks[..j]);
    p + chunks[j] <= |data| && data[p..p + chunks[j]] == data[..chunks[j]]
  }

  predicate RepeatsBelow(data: seq<Byte>, chunks: seq<nat>, j: nat)
    requires j <= |chunks|
  {
    j == 0 || (RepeatsBelow(data, chunks, j - 1) && Repeats(data, chunks, j - 1))
  }

  lemma {:induction false} RepeatsBelowAll(data: seq<Byte>, chunks: seq<nat>, j: nat)
    requires j <= |chunks|
    ensures RepeatsBelow(data, chunks, j) <==> forall i :: 0 <= i < j ==> Repeats(data, chunks, i)
  {
    if j > 0 { RepeatsBelowAll(data, chunks, j - 1); }
  }

  lemma {:induction false} BeginningsUpTo(data: seq<Byte>, chunks: seq<nat>, j: nat)
    requires Total(chunks) == |data| && FitIn(chunks, data) && j <= |chunks|
    ensures |Beginnings(data, chunks[..j])| == Total(chunks[..j]) <= |data|
    ensures Beginnings(data, chunks[..j]) == data[..Total(chunks[..j])] <==> RepeatsBelow(data, chunks, j)
    decreases j
  {
    if j > 0 {
      BeginningsUpTo(data, chunks, j - 1);
      TotalSteps(chunks, j - 1);
      assert chunks[..j][..j - 1] == chunks[..j - 1];
      var p, n := Total(chunks[..j - 1]), chunks[j - 1];
      SameHalves(Beginnings(data, chunks[..j - 1]), data[..n], data[..p], data[p..p + n]);
      assert data[..p] + data[p..p + n] == data[..p + n];
    } else {
      assert chunks[..0] == [] && data[..0] == [];
    }
  }

  lemma SameHalves(a: seq<Byte>, b: seq<Byte>, c: seq<Byte>, d: seq<Byte>)
    requires |a| == |c|
    ensures a + b == c + d <==> a == c && b == d
  {
    if a + b == c + d {
      assert a == (a + b)[..|a|] && b == (a + b)[|a|..];
      assert c == (c + d)[..|c|] && d == (c + d)[|c|..];
    }
  }

  /** Read through callbacks that do not advance, an entry is what it is exactly when each chunk's bytes
      are the first bytes of the data. */
  lemma MemoryReadsIff(data: seq<Byte>, chunks: seq<nat>)
    requires Total(chunks) == |data| && FitIn(chunks, data)
    ensures Beginnings(data, chunks) == data <==> forall i :: 0 <= i < |chunks| ==> Repeats(data, chunks, i)
  {
    assert chunks[..|chunks|] == chunks && data[..|data|] == data;
    BeginningsUpTo(data, chunks, |chunks|);
    RepeatsBelowAll(data, chunks, |chunks|);
  }

  predicate OneChunk(chunks: seq<nat>) {
    forall i, j :: 0 <= i < j < |chunks| ==> chunks[i] == 0 || chunks[j] == 0
  }

  ghost predicate ServesAll(chunks: seq<nat>) {
    forall data: seq<Byte> {:trigger FitIn(chunks, data)} ::
      |data| == Total(chunks) && FitIn(chunks, data) ==> Beginnings(data, chunks) == data
  }

  lemma {:induction false} ZeroTotal(chunks: seq<nat>)
    requires forall i :: 0 <= i < |chunks| ==> chunks[i] == 0
    ensures Total(chunks) == 0
    decreases |chunks|
  {
    if chunks != [] { ZeroTotal(chunks[..|chunks| - 1]); }
  }

  lemma {:induction false} TotalAtLeast(chunks: seq<nat>, i: nat)
    requires i < |chunks|
    ensures Total(chunks) >= chunks[i]
  {
    TotalSteps(chunks, i);
  }

  /** They give every entry of that size exactly when it is read in one piece. */
  lemma MemoryServesAllIff(chunks: seq<nat>)
    ensures ServesAll(chunks) <==> OneChunk(chunks)
  {
    if OneChunk(chunks) {
      forall data: seq<Byte> | |data| == Total(chunks) && FitIn(chunks, data) ensures Beginnings(data, chunks) == data {
        forall j | 0 <= j < |chunks| ensures Repeats(data, chunks, j) {
          TotalSteps(chunks, j);
          if chunks[j] > 0 { ZeroTotal(chunks[..j]); }
        }
        MemoryReadsIff(data, chunks);
      }
    } else {
      Confused(chunks);
    }
  }

  /** With two chunks some data is not read back: its first byte is served again. */
  lemma Confused(chunks: seq<nat>)
    requires !OneChunk(chunks)
    ensures !ServesAll(chunks)
  {
    var i, j :| 0 <= i < j < |chunks| && chunks[i] > 0 && chunks[j] > 0;
    TotalAtLeast(chunks[..j], i);
    TotalSteps(chunks, j);
    var data: seq<Byte> := [1] + Zeros(Total(chunks) - 1);
    var p := Total(chunks[..j]);
    assert data[p] == 0 && data[p..p + chunks[j]][0] != data[..chunks[j]][0];
    assert !Repeats(data, chunks, j);
    ChunksFit(chunks, data);
    MemoryReadsIff(data, chunks);
  }

  /** Read in two pieces, data comes back exactly when the second piece is a beginning of the data too. */
  lemma TwoReads(data: seq<Byte>, m: nat, n: nat)
    requires m + n == |data|
    ensures FitIn([m, n], data) && (Beginnings(data, [m, n]) == data <==> data[m..] == data[..n])
  {
    OneRead(data, m);
    var chunks: seq<nat> := [m, n];
    assert chunks[..1] == [m];
    assert Beginnings(data, chunks) == data[..m] + data[..n];
    assert data == data[..m] + data[m..];
    SameHalves(data[..m], data[..n], data[..m], data[m..]);
  }

  lemma OneRead(data: seq<Byte>, m: nat)
    requires m <= |data|
    ensures FitIn([m], data) && Beginnings(data, [m]) == data[..m]
  {
    assert [m][..0] == [] && [] + data[..m] == data[..m];
  }

  lemma {:induction false} MatchAt(es: seq<Entry>, name: seq<Byte>, k: nat)
    requires k <= |es| && forall j :: 0 <= j < k ==> es[j].header.name != name
    requires k < |es| ==> es[k].header.name == name
    ensures FirstMatch(es, name) == k
  {
    if k > 0 { MatchAt(es[1..], name, k - 1); }
  }
}
