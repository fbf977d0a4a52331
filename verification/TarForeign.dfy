/** Headers as other programs write them: numbers padded with blanks or ended by one, full name fields, prefixes. */
module TarForeign {
  import opened TarHeader
  import opened Tar

  // ----- Numbers -----

  /** White space, byte by byte: a blank, and the five controls from the tab on. */
  predicate White(b: Byte) { b == 32 || b == 9 || b == 10 || b == 11 || b == 12 || b == 13 }

  predicate AllSpaces(s: seq<Byte>) { forall i :: 0 <= i < |s| ==> White(s[i]) }

  predicate AllDigits(s: seq<Byte>) { forall i :: 0 <= i < |s| ==> IsDigit(s[i]) }

  /** The value of octal digits by their places. */
  function Weight(s: seq<Byte>): nat
    requires AllDigits(s)
  {
    if s == [] then 0 else (s[0] - 48) * Pow8(|s| - 1) + Weight(s[1..])
  }

  lemma {:induction false} DigitsWeigh(s: seq<Byte>, acc: nat)
    requires AllDigits(s)
    ensures Digits(s, acc) == acc * Pow8(|s|) + Weight(s)
    decreases |s|
  {
    if s != [] {
      var d, p := s[0] - 48, Pow8(|s| - 1);
      DigitsWeigh(s[1..], 8 * acc + d);
      Distribute(acc, d, p);
    }
  }

  lemma Distribute(a: nat, d: int, p: nat)
    ensures (8 * a + d) * p == a * (8 * p) + d * p
  {
  }

  /** A sign byte, if there is one. */
  predicate IsSign(s: seq<Byte>) { s == [] || s == [43] || s == [45] }

  lemma {:induction false} ScanSpaces(pre: seq<Byte>, s: seq<Byte>)
    requires AllSpaces(pre)
    ensures ScanOctal(pre + s) == ScanOctal(s)
    decreases |pre|
  {
    if pre == [] {
      assert pre + s == s;
    } else {
      assert (pre + s)[0] == pre[0] && (pre + s)[1..] == pre[1..] + s;
      ScanSpaces(pre[1..], s);
    }
  }

  lemma ScanSigned(sign: seq<Byte>, digits: seq<Byte>, rest: seq<Byte>)
    requires IsSign(sign) && AllDigits(digits) && (rest == [] || !IsDigit(rest[0]))
    requires digits == [] ==> rest == [] || !White(rest[0]) || sign != []
    requires digits == [] && sign == [] ==> rest == [] || (rest[0] != 43 && rest[0] != 45)
    ensures ScanOctal(sign + digits + rest)
         == if digits == [] then None
            else Some(Cut(Weight(digits), sign == [45]))
  {
    var t := digits + rest;
    DigitsOf(digits, rest);
    assert t == [] || t[0] == if digits == [] then rest[0] else digits[0];
    if sign == [] {
      assert sign + digits + rest == t;
      ScanPlain(t);
    } else {
      SignFirst(sign[0], digits, rest);
      assert sign == [sign[0]];
      ScanAfterSign(sign + digits + rest);
    }
  }

  lemma SignFirst(c: Byte, digits: seq<Byte>, rest: seq<Byte>)
    ensures var s := [c] + digits + rest; s[0] == c && s[1..] == digits + rest
  {
  }

  lemma DigitsOf(digits: seq<Byte>, rest: seq<Byte>)
    requires AllDigits(digits) && (rest == [] || !IsDigit(rest[0]))
    ensures Digits(digits + rest, 0) == Weight(digits)
  {
    DigitsConcat(digits, rest, 0);
    DigitsWeigh(digits, 0);
  }

  /** The number that `v` is cut to. */
  function Cut(v: nat, negative: bool): nat {
    if v >= UNSIGNED * UNSIGNED then UNSIGNED - 1
    else if negative then (UNSIGNED - v % UNSIGNED) % UNSIGNED else v % UNSIGNED
  }

  lemma ScanPlain(t: seq<Byte>)
    requires t == [] || (!White(t[0]) && t[0] != 43 && t[0] != 45)
    ensures ScanOctal(t) == if t == [] || !IsDigit(t[0]) then None else Some(Cut(Digits(t, 0), false))
  {
  }

  lemma ScanAfterSign(s: seq<Byte>)
    requires s != [] && (s[0] == 43 || s[0] == 45)
    ensures ScanOctal(s)
         == if s[1..] == [] || !IsDigit(s[1..][0]) then None else Some(Cut(Digits(s[1..], 0), s[0] == 45))
  {
  }

  /** White space, a sign, and octal digits up to anything else: the weight of the digits cut to 32 bits, or the largest
      number when 64 bits are too few for it; without digits, nothing. */
  lemma ScanNumber(pre: seq<Byte>, sign: seq<Byte>, digits: seq<Byte>, rest: seq<Byte>)
    requires AllSpaces(pre) && IsSign(sign) && AllDigits(digits) && (rest == [] || !IsDigit(rest[0]))
    requires digits == [] ==> rest == [] || !White(rest[0]) || sign != []
    requires digits == [] && sign == [] ==> rest == [] || (rest[0] != 43 && rest[0] != 45)
    ensures ScanOctal(pre + (sign + digits + rest))
         == if digits == [] then None
            else Some(Cut(Weight(digits), sign == [45]))
  {
    ScanSpaces(pre, sign + digits + rest);
    ScanSigned(sign, digits, rest);
  }

  // ----- Whole headers -----

  /** A number field as it is filled: padding and digits, and something else after them. */
  datatype Number = Number(pre: seq<Byte>, digits: seq<Byte>)

  predicate Fills(s: seq<Byte>, n: Number) {
    && AllSpaces(n.pre) && AllDigits(n.digits) && n.digits != [] && Weight(n.digits) < UNSIGNED
    && n.pre + n.digits <= s
    && (|n.pre + n.digits| < |s| ==> !IsDigit(s[|n.pre + n.digits|]))
  }

  lemma SplitFilled(s: seq<Byte>, n: Number)
    requires n.pre + n.digits <= s
    ensures s == n.pre + ([] + n.digits + s[|n.pre + n.digits|..])
  {
  }

  lemma FilledScans(s: seq<Byte>, n: Number)
    requires Fills(s, n)
    ensures ScanOctal(s) == Some(Weight(n.digits))
  {
    var rest := s[|n.pre + n.digits|..];
    SplitFilled(s, n);
    ScanNumber(n.pre, [], n.digits, rest);
  }

  /** A name field: the bytes before the first zero, or all of them. */
  predicate Names(s: seq<Byte>, n: nat, name: seq<Byte>) {
    && |name| <= n && name <= s && 0 !in name
    && (|name| < n ==> |name| < |s| && s[|name|] == 0)
  }

  lemma {:induction false} NamesRead(s: seq<Byte>, n: nat, name: seq<Byte>)
    requires Names(s, n, name)
    ensures CString(s, n) == name
    decreases n
  {
    if name != [] {
      assert s[0] == name[0] && name[0] in name;
      assert name == [name[0]] + name[1..];
      NamesRead(s[1..], n - 1, name[1..]);
    }
  }

  datatype Fields = Fields(mode: Number, uid: Number, size: Number, mtime: Number, sum: Number,
                           name: seq<Byte>, link: seq<Byte>, prefix: seq<Byte>)

  predicate Holds(raw: seq<Byte>, f: Fields)
    requires |raw| == HEADER_SIZE
  {
    && Fills(raw[MODE_AT..], f.mode) && Fills(raw[UID_AT..], f.uid) && Fills(raw[SIZE_AT..], f.size)
    && Fills(raw[MTIME_AT..], f.mtime) && Fills(raw[CHECKSUM_AT..], f.sum)
    && Names(raw, NAME_LEN, f.name) && Names(raw[LINK_AT..], NAME_LEN, f.link)
    && Names(raw[PREFIX_AT..], PREFIX_LEN, f.prefix)
  }

  /** Any header with its fields filled so is read as these fields when the checksum is right, and refused when it is
      not.  The prefix goes before the name, with a separator between them if it is a directory, does not fill its
      field, and the name does not begin with one. */
  lemma ForeignHeader(raw: seq<Byte>, f: Fields, env: Surroundings)
    requires |raw| == HEADER_SIZE && Holds(raw, f)
    ensures Weight(f.sum.digits) != Checksum(raw) ==> RawToHeader(raw, env) == Err(BadChecksum)
    ensures Weight(f.sum.digits) == Checksum(raw) ==>
      var r := RawToHeader(raw, env);
      && r.Ok?
      && r.value.mode == Weight(f.mode.digits) && r.value.uid == Weight(f.uid.digits)
      && r.value.size == Weight(f.size.digits) && r.value.mtime == Weight(f.mtime.digits)
      && r.value.kind == (if raw[TYPE_AT] < 128 then raw[TYPE_AT] else UNSIGNED - 256 + raw[TYPE_AT])
      && r.value.linkName == f.link
      && (var slash := f.prefix != [] && env.isDir(f.prefix) && |f.prefix| < PREFIX_LEN
                       && (f.name == [] || f.name[0] != 47);
          r.value.name == if slash then f.prefix + [47] + f.name else f.prefix + f.name)
  {
    FilledScans(raw[MODE_AT..], f.mode);
    FilledScans(raw[UID_AT..], f.uid);
    FilledScans(raw[SIZE_AT..], f.size);
    FilledScans(raw[MTIME_AT..], f.mtime);
    FilledScans(raw[CHECKSUM_AT..], f.sum);
    NamesRead(raw, NAME_LEN, f.name);
    NamesRead(raw[LINK_AT..], NAME_LEN, f.link);
    NamesRead(raw[PREFIX_AT..], PREFIX_LEN, f.prefix);
    FirstOfSum(raw, f.sum);
    Joined(f.prefix, f.name, env.isDir);
  }

  lemma Joined(prefix: seq<Byte>, name: seq<Byte>, isDir: seq<Byte> -> bool)
    ensures var slash := prefix != [] && isDir(prefix) && |prefix| < PREFIX_LEN && (name == [] || name[0] != 47);
      JoinName(prefix, name, isDir) == if slash then prefix + [47] + name else prefix + name
  {
    if prefix == [] { assert prefix + name == name; }
  }

  lemma FirstOfSum(raw: seq<Byte>, n: Number)
    requires |raw| == HEADER_SIZE && Fills(raw[CHECKSUM_AT..], n)
    ensures raw[CHECKSUM_AT] != 0
  {
    var s, d := raw[CHECKSUM_AT..], n.pre + n.digits;
    assert s[0] == d[0] && s[0] == raw[CHECKSUM_AT];
    assert d[0] == if n.pre == [] then n.digits[0] else n.pre[0];
  }

  /** A field without digits leaves what the caller's variable held; a checksum that begins with a zero byte ends the
      archive whatever else is there. */
  lemma EmptyFields(raw: seq<Byte>, env: Surroundings)
    requires |raw| == HEADER_SIZE
    ensures raw[CHECKSUM_AT] == 0 ==> RawToHeader(raw, env) == Err(NullRecord)
    ensures RawToHeader(raw, env).Ok? && raw[MODE_AT] == 0 ==> RawToHeader(raw, env).value.mode == env.stale.mode
    ensures RawToHeader(raw, env).Ok? && raw[UID_AT] == 0 ==> RawToHeader(raw, env).value.uid == env.stale.uid
    ensures RawToHeader(raw, env).Ok? && raw[SIZE_AT] == 0 ==> RawToHeader(raw, env).value.size == env.stale.size
    ensures RawToHeader(raw, env).Ok? && raw[MTIME_AT] == 0 ==> RawToHeader(raw, env).value.mtime == env.stale.mtime
  {
    assert raw[MODE_AT..][0] == raw[MODE_AT] && raw[UID_AT..][0] == raw[UID_AT];
    assert raw[SIZE_AT..][0] == raw[SIZE_AT] && raw[MTIME_AT..][0] == raw[MTIME_AT];
  }

  // ----- The two detectors on padded checksums -----

  /** `k` blanks or zeros, `m` octal digits and the byte `end` in the checksum field. */
  predicate PaddedSum(buf: seq<Byte>, k: nat, m: nat, end: Byte)
    requires |buf| == BLOCK
  {
    && 0 < m && k + m < 8 && !IsDigit(end) && buf[CHECKSUM_AT + k + m] == end
    && (forall i :: CHECKSUM_AT <= i < CHECKSUM_AT + k ==> buf[i] == 32 || buf[i] == 0)
    && (forall i :: CHECKSUM_AT + k <= i < CHECKSUM_AT + k + m ==> IsDigit(buf[i]))
  }

  lemma {:induction false} BlanksSkipped(buf: seq<Byte>, k: nat, m: nat, end: Byte, j: nat)
    requires |buf| == BLOCK && PaddedSum(buf, k, m, end) && j <= k
    ensures SkipBlanks(buf, CHECKSUM_AT + j, 8 - j) == Some((CHECKSUM_AT + k, 8 - k))
    decreases k - j
  {
    if j < k { BlanksSkipped(buf, k, m, end, j + 1); } else { assert IsDigit(buf[CHECKSUM_AT + k]); }
  }

  lemma {:induction false} FieldRead(buf: seq<Byte>, k: nat, m: nat, end: Byte, j: nat, r: nat)
    requires |buf| == BLOCK && PaddedSum(buf, k, m, end) && j <= m
    ensures FieldValue(buf, CHECKSUM_AT + k + j, 8 - k - j, r)
         == if end == 0 then Some(Digits(buf[CHECKSUM_AT + k + j..CHECKSUM_AT + k + m], r)) else None
    decreases m - j
  {
    var at := CHECKSUM_AT + k + j;
    var s := buf[at..CHECKSUM_AT + k + m];
    if j < m {
      assert s[0] == buf[at] && s[1..] == buf[at + 1..CHECKSUM_AT + k + m] && IsDigit(buf[at]);
      FieldRead(buf, k, m, end, j + 1, 8 * r + (buf[at] - 48));
    }
  }

  /** The detector skips blanks and zeros, and wants a name, a zero byte after the digits, and the right sum. */
  lemma IsTarIff(buf: seq<Byte>, k: nat, m: nat, end: Byte)
    requires |buf| == BLOCK && PaddedSum(buf, k, m, end)
    ensures var d := buf[CHECKSUM_AT + k..CHECKSUM_AT + k + m];
      AllDigits(d) && (LooksLikeTar(buf) <==> buf[0] != 0 && end == 0 && Weight(d) == TarSum(buf))
  {
    var d := buf[CHECKSUM_AT + k..CHECKSUM_AT + k + m];
    forall i | 0 <= i < m ensures IsDigit(d[i]) { assert d[i] == buf[CHECKSUM_AT + k + i]; }
    BlanksSkipped(buf, k, m, end, 0);
    FieldRead(buf, k, m, end, 0, 0);
    DigitsWeigh(d, 0);
  }

  /** How many of these bytes are not ASCII. */
  function High(s: seq<Byte>): nat {
    if s == [] then 0 else High(s[..|s| - 1]) + if s[|s| - 1] >= 128 then 1 else 0
  }

  lemma {:induction false} SignedDiffers(s: seq<Byte>)
    ensures SignedSum(s) == Sum(s) - 256 * High(s)
    decreases |s|
  {
    if s != [] { SignedDiffers(s[..|s| - 1]); }
  }

  /** The detector adds 256 too many for every byte of the checksum field that is not ASCII,
    since it takes the field back
      as signed characters. */
  lemma SumsDiffer(buf: seq<Byte>)
    requires |buf| == BLOCK && forall i :: HEADER_SIZE <= i < BLOCK ==> buf[i] == 0
    ensures TarSum(buf) == Checksum(buf[..HEADER_SIZE]) + 256 * High(buf[CHECKSUM_AT..TYPE_AT])
  {
    var raw := buf[..HEADER_SIZE];
    var field := buf[CHECKSUM_AT..TYPE_AT];
    assert buf == raw[..CHECKSUM_AT] + field + raw[TYPE_AT..] + Zeros(12);
    SumConcat(raw[..CHECKSUM_AT] + field + raw[TYPE_AT..], Zeros(12));
    SumConcat(raw[..CHECKSUM_AT] + field, raw[TYPE_AT..]);
    SumConcat(raw[..CHECKSUM_AT], field);
    SumZeros(12);
    SignedDiffers(field);
  }

  /** On any such checksum field the file type detector accepts what the archive reader does exactly when there is a
      name, a zero byte, not a blank, ends the digits, and the field is plain ASCII. */
  lemma PaddedDetectorsIff(buf: seq<Byte>, k: nat, m: nat, end: Byte, env: Surroundings)
    requires |buf| == BLOCK && PaddedSum(buf, k, m, end) && buf[CHECKSUM_AT] != 0
    requires forall i :: CHECKSUM_AT <= i < CHECKSUM_AT + k ==> buf[i] == 32
    requires forall i :: HEADER_SIZE <= i < BLOCK ==> buf[i] == 0
    requires RawToHeader(buf[..HEADER_SIZE], env).Ok?
    ensures LooksLikeTar(buf) <==> buf[0] != 0 && end == 0 && High(buf[CHECKSUM_AT..TYPE_AT]) == 0
  {
    SumsDiffer(buf);
    IsTarIff(buf, k, m, end);
    PaddedScans(buf, k, m, end);
    DigitsWeigh(buf[CHECKSUM_AT + k..CHECKSUM_AT + k + m], 0);
  }

  /** A checksum field that begins with a zero byte is the end of the archive for the reader, but a header for the
      detector when its digits are right. */
  lemma ZeroFirst(buf: seq<Byte>, k: nat, m: nat, end: Byte, env: Surroundings)
    requires |buf| == BLOCK && PaddedSum(buf, k, m, end) && buf[CHECKSUM_AT] == 0
    ensures RawToHeader(buf[..HEADER_SIZE], env) == Err(NullRecord)
    ensures var d := buf[CHECKSUM_AT + k..CHECKSUM_AT + k + m];
      AllDigits(d) && (buf[0] != 0 && end == 0 && Weight(d) == TarSum(buf) ==> LooksLikeTar(buf))
  {
    IsTarIff(buf, k, m, end);
  }

  lemma PaddedScans(buf: seq<Byte>, k: nat, m: nat, end: Byte)
    requires |buf| == BLOCK && PaddedSum(buf, k, m, end) && buf[CHECKSUM_AT] != 0
    requires forall i :: CHECKSUM_AT <= i < CHECKSUM_AT + k ==> buf[i] == 32
    ensures var d := buf[CHECKSUM_AT + k..CHECKSUM_AT + k + m];
      ScanOctal(buf[..HEADER_SIZE][CHECKSUM_AT..]) == Some(Digits(d, 0))
  {
    var s := buf[..HEADER_SIZE][CHECKSUM_AT..];
    var pre, d, rest := s[..k], s[k..k + m], s[k + m..];
    PaddedParts(buf, k, m, end);
    SmallDigits(d);
    DigitsWeigh(d, 0);
    ScanNumber(pre, [], d, rest);
  }

  lemma PaddedParts(buf: seq<Byte>, k: nat, m: nat, end: Byte)
    requires |buf| == BLOCK && PaddedSum(buf, k, m, end)
    requires forall i :: CHECKSUM_AT <= i < CHECKSUM_AT + k ==> buf[i] == 32
    ensures var s := buf[..HEADER_SIZE][CHECKSUM_AT..];
      && s == s[..k] + ([] + s[k..k + m] + s[k + m..])
      && s[k..k + m] == buf[CHECKSUM_AT + k..CHECKSUM_AT + k + m]
      && AllSpaces(s[..k]) && AllDigits(s[k..k + m]) && s[k + m..][0] == end
  {
    var s := buf[..HEADER_SIZE][CHECKSUM_AT..];
    assert forall i :: 0 <= i < |s| ==> s[i] == buf[CHECKSUM_AT + i];
    var pre, d := s[..k], s[k..k + m];
    forall i | 0 <= i < k ensures White(pre[i]) { assert pre[i] == buf[CHECKSUM_AT + i]; }
    forall i | 0 <= i < m ensures IsDigit(d[i]) { assert d[i] == buf[CHECKSUM_AT + k + i]; }
  }

  lemma SmallDigits(d: seq<Byte>)
    requires AllDigits(d) && |d| <= 7
    ensures Digits(d, 0) < UNSIGNED
  {
    DigitsBound(d, 0, 0);
    Powers();
    PowerGrows(|d|, 7);
  }

  lemma {:induction false} PowerGrows(m: nat, n: nat)
    requires m <= n
    ensures Pow8(m) <= Pow8(n)
    decreases n
  {
    if m < n { PowerGrows(m, n - 1); }
  }

  // ----- What this program writes -----

  /** An encoded header byte by byte: each field from its place on, zeros behind it, and zeros where the group,
    the magic
      number and the prefix would be. */
  lemma EncodedLayout(h: Header, i: nat)
    requires HeaderOk(h) && i < HEADER_SIZE
    ensures var b := RawOf(h)[i];
      && (i < 100 ==> b == if i < |h.name| then h.name[i] else 0)
      && (157 <= i < 257 ==> b == if i - 157 < |h.linkName| then h.linkName[i - 157] else 0)
      && (108 <= i < 116 ==> b == if i - 108 < |Octal(h.uid)| then Octal(h.uid)[i - 108] else 0)
      && (100 <= i < 108 ==> b == if i - 100 < |Octal(h.mode)| then Octal(h.mode)[i - 100] else 0)
      && (124 <= i < 136 ==> b == if i - 124 < |Octal(h.size)| then Octal(h.size)[i - 124] else 0)
      && (136 <= i < 148 ==> b == if i - 136 < |Octal(h.mtime)| then Octal(h.mtime)[i - 136] else 0)
      && (116 <= i < 124 || 257 <= i < 500 ==> b == 0)
      && (i == 154 ==> b == 0) && (i == 155 ==> b == 32)
  {
    if CHECKSUM_AT <= i < TYPE_AT {
      var body := Body(h);
      ChecksumBound(body);
      OctalLength(Checksum(body), 6);
      var d := PadZero(Octal(Checksum(body)), 6);
      assert RawOf(h)[i] == (d + [0, 32])[i - CHECKSUM_AT];
    } else {
      RawByte(h, i);
    }
  }
}
