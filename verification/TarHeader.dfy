/** The tar header codec (ustar Interchange Format of POSIX.1, pax utility) and the two detectors that
    check its checksum. */
module TarHeader {

  type Byte = b: int | 0 <= b < 256

  const HEADER_SIZE: nat := 500
  const NAME_LEN: nat := 100
  const PREFIX_LEN: nat := 155
  const UNSIGNED: nat := 0x1_0000_0000

  const MODE_AT: nat := 100
  const UID_AT: nat := 108
  const SIZE_AT: nat := 124
  const MTIME_AT: nat := 136
  const CHECKSUM_AT: nat := 148
  const TYPE_AT: nat := 156
  const LINK_AT: nat := 157
  const PREFIX_AT: nat := 345

  const REGULAR: Byte := 48

  datatype Header = Header(mode: nat, uid: nat, size: nat, mtime: nat, kind: nat,
                           name: seq<Byte>, linkName: seq<Byte>)

  datatype Error = ReadFail | SeekFail | BadChecksum | NullRecord | NotFound

  datatype Result<T> = Ok(value: T) | Err(error: Error)

  // ----- Octal text -----

  /** `%o`. */
  function Octal(n: nat): (s: seq<Byte>)
    ensures |s| > 0 && forall i :: 0 <= i < |s| ==> IsDigit(s[i])
  {
    if n < 8 then [48 + n] else Octal(n / 8) + [48 + n % 8]
  }

  predicate IsDigit(b: Byte) { 48 <= b < 56 }

  predicate IsSpace(b: Byte) { b == 32 || 9 <= b <= 13 }

  function Zeros(n: nat): (s: seq<Byte>)
    ensures |s| == n && forall i :: 0 <= i < n ==> s[i] == 0
  {
    seq(n, _ => 0)
  }

  function PadZero(s: seq<Byte>, n: nat): seq<Byte> {
    seq(if |s| < n then n - |s| else 0, _ => 48) + s
  }

  /** The value of the leading octal digits, continuing from `acc`. */
  function Digits(s: seq<Byte>, acc: nat): nat {
    if s != [] && IsDigit(s[0]) then Digits(s[1..], 8 * acc + (s[0] - 48)) else acc
  }

  /** `sscanf ("%o")`: white space, a sign, digits; a value too large for 64 bits saturates before it is cut to 32.
      None when there is no digit and the variable keeps what it held. */
  function ScanOctal(s: seq<Byte>): (r: Option<nat>)
    ensures r.Some? ==> r.value < UNSIGNED
  {
    if s != [] && IsSpace(s[0]) then ScanOctal(s[1..])
    else
      var signed := s != [] && (s[0] == 43 || s[0] == 45);
      var t := if signed then s[1..] else s;
      if t == [] || !IsDigit(t[0]) then None
      else
        var v := Digits(t, 0);
        if v >= UNSIGNED * UNSIGNED then Some(UNSIGNED - 1)
        else if s[0] == 45 then Some((UNSIGNED - v % UNSIGNED) % UNSIGNED) else Some(v % UNSIGNED)
  }

  datatype Option<T> = None | Some(value: T) {
    function Or(stale: T): T { if Some? then value else stale }
  }

  function Pow8(k: nat): nat { if k == 0 then 1 else 8 * Pow8(k - 1) }

  lemma {:induction false} OctalLength(n: nat, k: nat)
    requires 0 < k && n < Pow8(k)
    ensures |Octal(n)| <= k
  {
    if n >= 8 {
      assert Pow8(1) == 8 * Pow8(0) == 8;
      OctalLength(n / 8, k - 1);
    }
  }

  lemma {:induction false} DigitsConcat(a: seq<Byte>, b: seq<Byte>, acc: nat)
    requires forall i :: 0 <= i < |a| ==> IsDigit(a[i])
    ensures Digits(a + b, acc) == Digits(b, Digits(a, acc))
  {
    if a == [] {
      assert a + b == b;
    } else {
      assert (a + b)[1..] == a[1..] + b;
      DigitsConcat(a[1..], b, 8 * acc + (a[0] - 48));
    }
  }

  lemma {:induction false} OctalValue(n: nat)
    ensures Digits(Octal(n), 0) == n
  {
    if n >= 8 {
      OctalValue(n / 8);
      var d: seq<Byte> := [48 + n % 8];
      DigitsConcat(Octal(n / 8), d, 0);
      assert Digits(d, n / 8) == Digits(d[1..], n);
    }
  }

  lemma {:induction false} PaddedValue(s: seq<Byte>, n: nat)
    ensures Digits(PadZero(s, n), 0) == Digits(s, 0)
    decreases n
  {
    if |s| < n {
      assert PadZero(s, n)[1..] == PadZero(s, n - 1);
      PaddedValue(s, n - 1);
    } else {
      assert PadZero(s, n) == s;
    }
  }

  /** Digits that end at a byte that is no digit are read back. */
  lemma ScanDigits(s: seq<Byte>, digits: seq<Byte>, n: nat)
    requires digits != [] && (forall i :: 0 <= i < |digits| ==> IsDigit(digits[i])) && Digits(digits, 0) == n < UNSIGNED
    requires digits <= s && (|digits| < |s| ==> !IsDigit(s[|digits|]))
    ensures ScanOctal(s) == Some(n)
  {
    var rest := s[|digits|..];
    assert s == digits + rest;
    DigitsConcat(digits, rest, 0);
  }

  // ----- The checksum -----

  function Sum(s: seq<Byte>): nat {
    if s == [] then 0 else Sum(s[..|s| - 1]) + s[|s| - 1]
  }

  lemma {:induction false} SumConcat(a: seq<Byte>, b: seq<Byte>)
    ensures Sum(a + b) == Sum(a) + Sum(b)
  {
    if b == [] {
      assert a + b == a;
    } else {
      assert (a + b)[..|a + b| - 1] == a + b[..|b| - 1];
      SumConcat(a, b[..|b| - 1]);
    }
  }

  lemma {:induction false} SumBound(s: seq<Byte>)
    ensures Sum(s) <= 255 * |s|
  {
    if s != [] { SumBound(s[..|s| - 1]); }
  }

  lemma {:induction false} SumZeros(n: nat)
    ensures Sum(Zeros(n)) == 0
  {
    if n > 0 {
      assert Zeros(n)[..n - 1] == Zeros(n - 1);
      SumZeros(n - 1);
    }
  }

  /** `checksum`: every byte but the checksum field's own, which counts as eight blanks. */
  function Checksum(raw: seq<Byte>): nat
    requires |raw| == HEADER_SIZE
  {
    256 + Sum(raw[..CHECKSUM_AT]) + Sum(raw[TYPE_AT..])
  }

  lemma ChecksumBound(raw: seq<Byte>)
    requires |raw| == HEADER_SIZE
    ensures 256 <= Checksum(raw) <= 256 + 492 * 255 < Pow8(6)
  {
    SumBound(raw[..CHECKSUM_AT]);
    SumBound(raw[TYPE_AT..]);
    assert Pow8(6) == 8 * 8 * 8 * Pow8(3) && Pow8(3) == 8 * 8 * 8 * Pow8(0);
  }

  // ----- Encoding -----

  function At(s: seq<Byte>, i: int): Byte {
    if 0 <= i < |s| then s[i] else 0
  }

  function TypeByte(kind: nat): Byte {
    if kind == 0 then REGULAR else kind % 256
  }

  /** The header without its checksum, byte by byte. */
  function BodyByte(h: Header, i: nat): Byte {
    if i < MODE_AT then At(h.name, i)
    else if i < UID_AT then At(Octal(h.mode), i - MODE_AT)
    else if i < UID_AT + 8 then At(Octal(h.uid), i - UID_AT)
    else if i < SIZE_AT then 0
    else if i < MTIME_AT then At(Octal(h.size), i - SIZE_AT)
    else if i < CHECKSUM_AT then At(Octal(h.mtime), i - MTIME_AT)
    else if i < TYPE_AT then 0
    else if i == TYPE_AT then TypeByte(h.kind)
    else if i < LINK_AT + NAME_LEN then At(h.linkName, i - LINK_AT)
    else 0
  }

  function Body(h: Header): (raw: seq<Byte>)
    ensures |raw| == HEADER_SIZE
  {
    seq(HEADER_SIZE, i requires 0 <= i < HEADER_SIZE => BodyByte(h, i))
  }

  /** `header_to_raw`. */
  function RawOf(h: Header): (raw: seq<Byte>)
    ensures |raw| == HEADER_SIZE
  {
    var body := Body(h);
    ChecksumBound(body);
    OctalLength(Checksum(body), 6);
    body[..CHECKSUM_AT] + PadZero(Octal(Checksum(body)), 6) + [0, 32] + body[TYPE_AT..]
  }

  /** A zero byte ends a name; the name fields hold 99 bytes and it, the mode and uid fields seven digits. */
  predicate HeaderOk(h: Header) {
    && h.mode < Pow8(7) && h.uid < Pow8(7) && h.size < UNSIGNED && h.mtime < UNSIGNED && h.kind < UNSIGNED
    && |h.name| < NAME_LEN && |h.linkName| < NAME_LEN
    && 0 !in h.name && 0 !in h.linkName
  }

  // ----- Decoding -----

  /** A plain `char` is signed: a type byte above 127 is extended to 32 bits. */
  function SignExtend(b: Byte): nat {
    if b < 128 then b else UNSIGNED - 256 + b
  }

  /** The bytes up to the first zero, at most `n`. */
  function CString(s: seq<Byte>, n: nat): (r: seq<Byte>)
    ensures |r| <= n
  {
    if n == 0 || s == [] || s[0] == 0 then [] else [s[0]] + CString(s[1..], n - 1)
  }

  /** The name with its prefix: a separator is put between them when the prefix is a directory. */
  function JoinName(prefix: seq<Byte>, name: seq<Byte>, isDir: seq<Byte> -> bool): seq<Byte> {
    if prefix == [] then name
    else if |prefix| < PREFIX_LEN && At(name, 0) != 47 && isDir(prefix) then prefix + [47] + name
    else prefix + name
  }

  /** What the caller's variables hold before the scan, and what the file system knows. */
  datatype Surroundings = Surroundings(stale: Header, staleSum: nat, isDir: seq<Byte> -> bool)

  /** `raw_to_header`. */
  function RawToHeader(raw: seq<Byte>, env: Surroundings): Result<Header>
    requires |raw| == HEADER_SIZE
  {
    if raw[CHECKSUM_AT] == 0 then Err(NullRecord)
    else if Checksum(raw) != ScanOctal(raw[CHECKSUM_AT..]).Or(env.staleSum) then Err(BadChecksum)
    else Ok(Header(
      ScanOctal(raw[MODE_AT..]).Or(env.stale.mode), ScanOctal(raw[UID_AT..]).Or(env.stale.uid),
      ScanOctal(raw[SIZE_AT..]).Or(env.stale.size), ScanOctal(raw[MTIME_AT..]).Or(env.stale.mtime),
      SignExtend(raw[TYPE_AT]),
      JoinName(CString(raw[PREFIX_AT..], PREFIX_LEN), CString(raw, NAME_LEN), env.isDir),
      CString(raw[LINK_AT..], NAME_LEN)))
  }

  /** What a header becomes: type 0 reads back as a regular file, and only the low byte of a type is kept. */
  function Normal(h: Header): Header {
    h.(kind := SignExtend(TypeByte(h.kind)))
  }

  lemma {:induction false} CStringOf(s: seq<Byte>, name: seq<Byte>, n: nat)
    requires |name| < n && name <= s && 0 !in name && |name| < |s| && s[|name|] == 0
    ensures CString(s, n) == name
  {
    if name != [] {
      assert s[0] == name[0];
      assert name == [name[0]] + name[1..];
      CStringOf(s[1..], name[1..], n - 1);
    }
  }

  /** A number written into a field that has room for it is scanned back. */
  lemma FieldScans(raw: seq<Byte>, at: nat, width: nat, n: nat)
    requires at + width <= |raw| && |Octal(n)| < width && n < UNSIGNED
    requires forall i :: 0 <= i < width ==> raw[at + i] == At(Octal(n), i)
    ensures ScanOctal(raw[at..]) == Some(n)
  {
    var s, d := raw[at..], Octal(n);
    forall i | 0 <= i < |d| ensures s[i] == d[i] { assert raw[at + i] == At(d, i); }
    assert raw[at + |d|] == At(d, |d|) == 0;
    assert s[|d|] == 0;
    OctalValue(n);
    ScanDigits(s, d, n);
  }

  lemma Powers()
    ensures Pow8(7) < UNSIGNED < Pow8(11)
  {
    assert Pow8(4) == 4096 by { assert Pow8(2) == 64; }
    assert Pow8(7) == 8 * 8 * 8 * Pow8(4);
    assert Pow8(11) == 8 * 8 * 8 * 8 * Pow8(7);
  }

  lemma ChecksumScans(h: Header)
    ensures var raw := RawOf(h);
            Checksum(raw) == Checksum(Body(h)) && raw[CHECKSUM_AT] != 0
            && ScanOctal(raw[CHECKSUM_AT..]) == Some(Checksum(raw))
  {
    var raw, body := RawOf(h), Body(h);
    ChecksumBound(body);
    Powers();
    OctalLength(Checksum(body), 6);
    var d := PadZero(Octal(Checksum(body)), 6);
    assert raw[..CHECKSUM_AT] == body[..CHECKSUM_AT] && raw[TYPE_AT..] == body[TYPE_AT..];
    OctalValue(Checksum(body));
    PaddedValue(Octal(Checksum(body)), 6);
    var s := raw[CHECKSUM_AT..];
    assert s[..6] == d && s[6] == 0;
    assert Pow8(6) < UNSIGNED by { assert Pow8(7) == 8 * Pow8(6); }
    ScanDigits(s, d, Checksum(body));
  }

  /** Every byte outside the checksum field is the body's. */
  lemma RawByte(h: Header, i: nat)
    requires i < HEADER_SIZE && !(CHECKSUM_AT <= i < TYPE_AT)
    ensures RawOf(h)[i] == BodyByte(h, i)
  {
    var body := Body(h);
    ChecksumBound(body);
    OctalLength(Checksum(body), 6);
    if i < CHECKSUM_AT {
      assert RawOf(h)[i] == body[..CHECKSUM_AT][i];
    } else {
      assert RawOf(h)[i] == body[TYPE_AT..][i - TYPE_AT];
    }
  }

  lemma NumbersScan(h: Header)
    requires HeaderOk(h)
    ensures var raw := RawOf(h);
            && ScanOctal(raw[MODE_AT..]) == Some(h.mode) && ScanOctal(raw[UID_AT..]) == Some(h.uid)
            && ScanOctal(raw[SIZE_AT..]) == Some(h.size) && ScanOctal(raw[MTIME_AT..]) == Some(h.mtime)
  {
    var raw := RawOf(h);
    Powers();
    OctalLength(h.mode, 7);
    OctalLength(h.uid, 7);
    OctalLength(h.size, 11);
    OctalLength(h.mtime, 11);
    forall i: nat {:trigger raw[i]} | i < HEADER_SIZE && !(CHECKSUM_AT <= i < TYPE_AT)
      ensures raw[i] == BodyByte(h, i)
    {
      RawByte(h, i);
    }
    FieldScans(raw, MODE_AT, 8, h.mode);
    FieldScans(raw, UID_AT, 8, h.uid);
    FieldScans(raw, SIZE_AT, 12, h.size);
    FieldScans(raw, MTIME_AT, 12, h.mtime);
  }

  lemma NamesRead(h: Header)
    requires HeaderOk(h)
    ensures var raw := RawOf(h);
            && CString(raw, NAME_LEN) == h.name && CString(raw[LINK_AT..], NAME_LEN) == h.linkName
            && CString(raw[PREFIX_AT..], PREFIX_LEN) == [] && raw[TYPE_AT] == TypeByte(h.kind)
  {
    var raw := RawOf(h);
    forall i: nat | i < HEADER_SIZE && !(CHECKSUM_AT <= i < TYPE_AT) ensures raw[i] == BodyByte(h, i) { RawByte(h, i); }
    CStringOf(raw, h.name, NAME_LEN);
    var link := raw[LINK_AT..];
    forall i | 0 <= i <= |h.linkName| ensures link[i] == At(h.linkName, i) { assert link[i] == raw[LINK_AT + i]; }
    CStringOf(link, h.linkName, NAME_LEN);
    assert raw[PREFIX_AT] == 0;
  }

  /** Decoding undoes encoding. */
  lemma RoundTrip(h: Header, env: Surroundings)
    requires HeaderOk(h)
    ensures RawToHeader(RawOf(h), env) == Ok(Normal(h))
  {
    ChecksumScans(h);
    NumbersScan(h);
    NamesRead(h);
  }

  /** The header itself comes back exactly when its type is nonzero and survives the signed byte. */
  lemma ExactRoundTripIff(h: Header, env: Surroundings)
    requires HeaderOk(h)
    ensures RawToHeader(RawOf(h), env) == Ok(h) <==> 1 <= h.kind < 128 || h.kind >= UNSIGNED - 128
  {
    RoundTrip(h, env);
    assert Normal(h) == h <==> SignExtend(TypeByte(h.kind)) == h.kind;
    KindSurvivesIff(h.kind);
  }

  lemma KindSurvivesIff(kind: nat)
    requires kind < UNSIGNED
    ensures SignExtend(TypeByte(kind)) == kind <==> 1 <= kind < 128 || kind >= UNSIGNED - 128
  {
    if kind >= UNSIGNED - 128 { assert kind % 256 == kind - (UNSIGNED - 256); }
  }

  /** The two encodings of a regular file: type 0 is written as '0'. */
  lemma TypeZeroExample(h: Header, env: Surroundings)
    requires HeaderOk(h) && h.kind == 0
    ensures RawToHeader(RawOf(h), env) == Ok(h.(kind := 48))
  {
    RoundTrip(h, env);
  }

  lemma SumUpdate(s: seq<Byte>, i: nat, b: Byte)
    requires i < |s|
    ensures Sum(s[i := b]) == Sum(s) - s[i] + b
  {
    assert s == s[..i] + [s[i]] + s[i + 1..];
    assert s[i := b] == s[..i] + [b] + s[i + 1..];
    SumConcat(s[..i] + [s[i]], s[i + 1..]);
    SumConcat(s[..i] + [b], s[i + 1..]);
    SumConcat(s[..i], [s[i]]);
    SumConcat(s[..i], [b]);
    assert forall x: Byte :: Sum([x]) == x by {
      forall x: Byte ensures Sum([x]) == x { assert [x][..0] == []; }
    }
  }

  /** Changing any one byte of an encoded header outside its checksum field is noticed. */
  lemma CorruptionDetected(h: Header, i: nat, b: Byte, env: Surroundings)
    requires i < HEADER_SIZE && !(CHECKSUM_AT <= i < TYPE_AT) && b != RawOf(h)[i]
    ensures RawToHeader(RawOf(h)[i := b], env) == Err(BadChecksum)
  {
    var raw := RawOf(h);
    var bad := raw[i := b];
    ChecksumScans(h);
    SumChanges(raw, i, b);
    if i < CHECKSUM_AT { assert bad[CHECKSUM_AT..] == raw[CHECKSUM_AT..]; } else { TailScan(raw, bad); }
  }

  lemma SumChanges(raw: seq<Byte>, i: nat, b: Byte)
    requires |raw| == HEADER_SIZE && i < HEADER_SIZE && !(CHECKSUM_AT <= i < TYPE_AT)
    ensures Checksum(raw[i := b]) == Checksum(raw) - raw[i] + b
  {
    var bad := raw[i := b];
    if i < CHECKSUM_AT {
      assert bad[..CHECKSUM_AT] == raw[..CHECKSUM_AT][i := b] && bad[TYPE_AT..] == raw[TYPE_AT..];
      SumUpdate(raw[..CHECKSUM_AT], i, b);
    } else {
      assert bad[TYPE_AT..] == raw[TYPE_AT..][i - TYPE_AT := b] && bad[..CHECKSUM_AT] == raw[..CHECKSUM_AT];
      SumUpdate(raw[TYPE_AT..], i - TYPE_AT, b);
    }
  }

  /** The scan of an encoded checksum does not look past its field. */
  lemma TailScan(raw: seq<Byte>, bad: seq<Byte>)
    requires |raw| == |bad| == HEADER_SIZE && raw[..TYPE_AT] == bad[..TYPE_AT]
    requires exists h :: raw == RawOf(h)
    ensures ScanOctal(bad[CHECKSUM_AT..]) == ScanOctal(raw[CHECKSUM_AT..])
    ensures bad[CHECKSUM_AT] == raw[CHECKSUM_AT]
  {
    var h :| raw == RawOf(h);
    var body := Body(h);
    ChecksumBound(body);
    Powers();
    OctalLength(Checksum(body), 6);
    OctalValue(Checksum(body));
    PaddedValue(Octal(Checksum(body)), 6);
    var d := PadZero(Octal(Checksum(body)), 6);
    var s, t := raw[CHECKSUM_AT..], bad[CHECKSUM_AT..];
    assert forall k :: 0 <= k < 8 ==>
      s[k] == raw[..TYPE_AT][CHECKSUM_AT + k] == bad[..TYPE_AT][CHECKSUM_AT + k] == t[k];
    assert s[..6] == d && s[6] == 0;
    assert t[..6] == d && t[6] == 0;
    assert Pow8(6) < UNSIGNED by { assert Pow8(7) == 8 * Pow8(6); }
    ScanDigits(s, d, Checksum(body));
    ScanDigits(t, d, Checksum(body));
  }
}
