/** The tar codec as the program runs it, on byte arrays, and the detector of the file-type library. */
module Tar {
  import opened TarHeader

  const BLOCK: nat := 512

  /** `checksum`. */
  method ComputeChecksum(rh: array<Byte>) returns (res: nat)
    requires rh.Length == HEADER_SIZE
    ensures res == Checksum(rh[..])
  {
    res := 256;
    var i := 0;
    while i < CHECKSUM_AT
      invariant i <= CHECKSUM_AT && res == 256 + Sum(rh[..i])
    {
      assert rh[..i + 1][..i] == rh[..i];
      res := res + rh[i];
      i := i + 1;
    }
    i := TYPE_AT;
    while i < HEADER_SIZE
      invariant TYPE_AT <= i <= HEADER_SIZE && res == 256 + Sum(rh[..CHECKSUM_AT]) + Sum(rh[TYPE_AT..i])
    {
      assert rh[TYPE_AT..i + 1][..i - TYPE_AT] == rh[TYPE_AT..i];
      res := res + rh[i];
      i := i + 1;
    }
    assert rh[..][..CHECKSUM_AT] == rh[..CHECKSUM_AT] && rh[..][TYPE_AT..] == rh[TYPE_AT..HEADER_SIZE];
  }

  /** `strcpy` or `sprintf` into a field: the text and a terminating zero. */
  method Store(rh: array<Byte>, at: nat, text: seq<Byte>)
    requires at + |text| < rh.Length
    modifies rh
    ensures forall i :: 0 <= i < rh.Length ==>
      rh[i] == if at <= i <= at + |text| then At(text, i - at) else old(rh[i])
  {
    var k := 0;
    while k < |text|
      invariant k <= |text|
      invariant forall i :: 0 <= i < rh.Length ==> rh[i] == if at <= i < at + k then text[i - at] else old(rh[i])
    {
      rh[at + k] := text[k];
      k := k + 1;
    }
    rh[at + |text|] := 0;
  }

  /** `memset`. */
  method Clear(rh: array<Byte>)
    modifies rh
    ensures forall i :: 0 <= i < rh.Length ==> rh[i] == 0
  {
    var i := 0;
    while i < rh.Length
      invariant i <= rh.Length && forall k :: 0 <= k < i ==> rh[k] == 0
    {
      rh[i] := 0;
      i := i + 1;
    }
  }

  /** `header_to_raw` up to the checksum. */
  method FillBody(rh: array<Byte>, h: Header)
    requires rh.Length == HEADER_SIZE && HeaderOk(h)
    modifies rh
    ensures rh[..] == Body(h)
  {
    Powers();
    OctalLength(h.mode, 7);
    OctalLength(h.uid, 7);
    OctalLength(h.size, 11);
    OctalLength(h.mtime, 11);
    Clear(rh);
    Store(rh, MODE_AT, Octal(h.mode));
    Store(rh, UID_AT, Octal(h.uid));
    Store(rh, SIZE_AT, Octal(h.size));
    Store(rh, MTIME_AT, Octal(h.mtime));
    rh[TYPE_AT] := TypeByte(h.kind);
    Store(rh, 0, h.name);
    Store(rh, LINK_AT, h.linkName);
    ghost var body := Body(h);
    forall k | 0 <= k < HEADER_SIZE ensures rh[k] == body[k] { }
  }

  /** `header_to_raw`, for headers whose parts fit their fields. */
  method HeaderToRaw(rh: array<Byte>, h: Header)
    requires rh.Length == HEADER_SIZE && HeaderOk(h)
    modifies rh
    ensures rh[..] == RawOf(h)
  {
    FillBody(rh, h);
    ghost var body := Body(h);
    var chksum := ComputeChecksum(rh);
    ChecksumBound(body);
    OctalLength(chksum, 6);
    var text := PadZero(Octal(chksum), 6);
    Store(rh, CHECKSUM_AT, text);
    rh[CHECKSUM_AT + 7] := 32;
    ghost var raw := body[..CHECKSUM_AT] + text + [0, 32] + body[TYPE_AT..];
    forall k | 0 <= k < HEADER_SIZE ensures rh[k] == raw[k] { }
    assert rh[..] == raw;
  }

  // ----- `is_tar` -----

  function Signed(b: Byte): int { if b < 128 then b else b - 256 }

  function SignedSum(s: seq<Byte>): int {
    if s == [] then 0 else SignedSum(s[..|s| - 1]) + Signed(s[|s| - 1])
  }

  /** The sum `is_tar` compares with: all bytes, the checksum field's taken back as signed characters. */
  function TarSum(buf: seq<Byte>): int
    requires |buf| == BLOCK
  {
    Sum(buf) - SignedSum(buf[CHECKSUM_AT..TYPE_AT]) + 256
  }

  /** Skip blanks and zeros; at most the eight bytes of the field and then one more is looked at. */
  function SkipBlanks(buf: seq<Byte>, at: nat, left: nat): (r: Option<(nat, nat)>)
    requires |buf| == BLOCK && at + left == TYPE_AT
    ensures r.Some? ==> r.value.0 + r.value.1 == TYPE_AT
    decreases left
  {
    if buf[at] != 32 && buf[at] != 0 then Some((at, left))
    else if left == 0 then None else SkipBlanks(buf, at + 1, left - 1)
  }

  /** Octal digits up to a zero or the end of the field. */
  function FieldValue(buf: seq<Byte>, at: nat, left: nat, r: nat): Option<nat>
    requires |buf| == BLOCK && at + left == TYPE_AT
    decreases left
  {
    if left == 0 || buf[at] == 0 then Some(r)
    else if !IsDigit(buf[at]) then None
    else FieldValue(buf, at + 1, left - 1, 8 * r + (buf[at] - 48))
  }

  predicate LooksLikeTar(buf: seq<Byte>)
    requires |buf| == BLOCK
  {
    buf[0] != 0 &&
    var p := SkipBlanks(buf, CHECKSUM_AT, 8);
    p.Some? &&
    var v := FieldValue(buf, p.value.0, p.value.1, 0);
    v.Some? && v.value == TarSum(buf)
  }

  method SumBlock(buf: array<Byte>) returns (sum: int)
    requires buf.Length == BLOCK
    ensures sum == TarSum(buf[..])
  {
    sum := 0;
    var p := 0;
    while p < BLOCK
      invariant p <= BLOCK && sum == Sum(buf[..p])
    {
      assert buf[..p + 1][..p] == buf[..p];
      sum := sum + buf[p];
      p := p + 1;
    }
    assert buf[..BLOCK] == buf[..];
    var i := 0;
    while i < 8
      invariant i <= 8 && sum == Sum(buf[..]) - SignedSum(buf[CHECKSUM_AT..CHECKSUM_AT + i])
    {
      assert buf[CHECKSUM_AT..CHECKSUM_AT + i + 1][..i] == buf[CHECKSUM_AT..CHECKSUM_AT + i];
      sum := sum - Signed(buf[CHECKSUM_AT + i]);
      i := i + 1;
    }
    assert buf[..][CHECKSUM_AT..TYPE_AT] == buf[CHECKSUM_AT..CHECKSUM_AT + 8];
    sum := sum + 32 * 8;
  }

  method IsTar(buf: array<Byte>) returns (yes: bool)
    requires buf.Length == BLOCK
    ensures yes == LooksLikeTar(buf[..])
  {
    if buf[0] == 0 { return false; }
    var sum := SumBlock(buf);
    var at, clen: nat := CHECKSUM_AT, 8;
    while buf[at] == 32 || buf[at] == 0
      invariant at + clen == TYPE_AT
      invariant SkipBlanks(buf[..], CHECKSUM_AT, 8) == SkipBlanks(buf[..], at, clen)
      decreases clen
    {
      if clen == 0 { return false; }
      clen := clen - 1;
      at := at + 1;
    }
    var r: nat := 0;
    ghost var at0, clen0 := at, clen;
    while clen > 0
      invariant at + clen == TYPE_AT
      invariant FieldValue(buf[..], at0, clen0, 0) == FieldValue(buf[..], at, clen, r)
    {
      if buf[at] == 0 { break; }
      if !IsDigit(buf[at]) { return false; }
      r := 8 * r + (buf[at] - 48);
      at := at + 1;
      clen := clen - 1;
    }
    return r == sum;
  }

  lemma {:induction false} SignedIsPlain(s: seq<Byte>)
    requires forall i :: 0 <= i < |s| ==> s[i] < 128
    ensures SignedSum(s) == Sum(s)
  {
    if s != [] { SignedIsPlain(s[..|s| - 1]); }
  }

  /** On a block with ASCII in the checksum field and twelve zeros at the end both detectors add up the same. */
  lemma SumsAgree(buf: seq<Byte>)
    requires |buf| == BLOCK && (forall i :: CHECKSUM_AT <= i < TYPE_AT ==> buf[i] < 128)
    requires forall i :: HEADER_SIZE <= i < BLOCK ==> buf[i] == 0
    ensures TarSum(buf) == Checksum(buf[..HEADER_SIZE])
  {
    var raw := buf[..HEADER_SIZE];
    var field := buf[CHECKSUM_AT..TYPE_AT];
    assert buf == raw[..CHECKSUM_AT] + field + raw[TYPE_AT..] + Zeros(12);
    SumConcat(raw[..CHECKSUM_AT] + field + raw[TYPE_AT..], Zeros(12));
    SumConcat(raw[..CHECKSUM_AT] + field, raw[TYPE_AT..]);
    SumConcat(raw[..CHECKSUM_AT], field);
    SumZeros(12);
    SignedIsPlain(field);
  }

  /** The checksum field holds six octal digits and a zero, as both writers of this format leave it. */
  predicate SixDigits(buf: seq<Byte>)
    requires |buf| >= TYPE_AT
  {
    (forall k :: CHECKSUM_AT <= k < CHECKSUM_AT + 6 ==> IsDigit(buf[k])) && buf[CHECKSUM_AT + 6] == 0
  }

  lemma {:induction false} FieldDigits(buf: seq<Byte>, k: nat, r: nat)
    requires |buf| == BLOCK && SixDigits(buf) && k <= 6
    ensures FieldValue(buf, CHECKSUM_AT + k, 8 - k, r) == Some(Digits(buf[CHECKSUM_AT + k..CHECKSUM_AT + 6], r))
    decreases 6 - k
  {
    if k < 6 {
      var s := buf[CHECKSUM_AT + k..CHECKSUM_AT + 6];
      assert s[1..] == buf[CHECKSUM_AT + k + 1..CHECKSUM_AT + 6] && s[0] == buf[CHECKSUM_AT + k];
      FieldDigits(buf, k + 1, 8 * r + (buf[CHECKSUM_AT + k] - 48));
    }
  }

  lemma {:induction false} DigitsBound(s: seq<Byte>, acc: nat, j: nat)
    requires acc < Pow8(j) && forall i :: 0 <= i < |s| ==> IsDigit(s[i])
    ensures Digits(s, acc) < Pow8(j + |s|)
  {
    if s != [] { DigitsBound(s[1..], 8 * acc + (s[0] - 48), j + 1); }
  }

  /** On blocks whose checksum field is written this way, the two detectors agree about named headers. */
  lemma DetectorsAgree(buf: seq<Byte>, env: Surroundings)
    requires |buf| == BLOCK && SixDigits(buf) && buf[CHECKSUM_AT + 7] < 128
    requires forall i :: HEADER_SIZE <= i < BLOCK ==> buf[i] == 0
    ensures LooksLikeTar(buf) <==> buf[0] != 0 && RawToHeader(buf[..HEADER_SIZE], env).Ok?
  {
    SumsAgree(buf);
    FieldDigits(buf, 0, 0);
    var raw := buf[..HEADER_SIZE];
    var d := buf[CHECKSUM_AT..CHECKSUM_AT + 6];
    var s := raw[CHECKSUM_AT..];
    assert s[..6] == d && s[6] == 0;
    DigitsBound(d, 0, 0);
    Powers();
    assert Pow8(7) == 8 * Pow8(6);
    ScanDigits(s, d, Digits(d, 0));
  }

  /** `is_tar` accepts an encoded header, followed by the rest of its block, exactly when it has a name. */
  lemma AcceptsEncodedIff(h: Header)
    requires HeaderOk(h)
    ensures LooksLikeTar(RawOf(h) + Zeros(12)) <==> h.name != []
  {
    var buf := RawOf(h) + Zeros(12);
    var env := Surroundings(h, 0, _ => false);
    var body := Body(h);
    ChecksumBound(body);
    OctalLength(Checksum(body), 6);
    var d := PadZero(Octal(Checksum(body)), 6);
    assert buf[CHECKSUM_AT..CHECKSUM_AT + 8] == d + [0, 32];
    assert forall k :: 0 <= k < 6 ==> buf[CHECKSUM_AT + k] == d[k];
    assert buf[CHECKSUM_AT + 6] == (d + [0, 32])[6] == 0 && buf[CHECKSUM_AT + 7] == (d + [0, 32])[7] == 32;
    assert forall k :: CHECKSUM_AT <= k < CHECKSUM_AT + 6 ==> buf[k] == d[k - CHECKSUM_AT];
    DetectorsAgree(buf, env);
    assert buf[..HEADER_SIZE] == RawOf(h);
    RoundTrip(h, env);
    RawByte(h, 0);
  }
}
