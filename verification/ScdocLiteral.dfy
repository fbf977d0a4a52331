/** What a literal block shows, and which blocks are accepted. */
module ScdocLiteral {
  import opened Scdoc
  import opened ScdocDoc

  const FENCE: string := "```\n"
  const OPENING: string := ".nf\n.RS 4\n"
  const CLOSING: string := ".fi\n.RE\n"

  /** The line after these tabs is empty, or begins with an invalid character. */
  predicate EmptyLine(t: string) { t != "" && (t[0] == '\n' || t[0] == INVALID) }

  function AfterTabs(b: string): string {
    var t := b[Tabs(b)..];
    if t != "" && t[0] == INVALID then t[1..] else t
  }

  /** The tabs of a line beyond the level of the block; empty lines lose theirs inside a level. */
  function ExtraTabs(b: string, indent: nat): nat {
    if (EmptyLine(b[Tabs(b)..]) && indent != 0) || Tabs(b) < indent then 0 else Tabs(b) - indent
  }

  /** The text between the fences as it is shown: without the tabs of the level, with escapes resolved, and with a NUL
      after each bare dot. */
  function ShownText(b: string, indent: nat, start: bool): string
    decreases |b|, start
  {
    if start then Repeat('\t', ExtraTabs(b, indent)) + ShownText(AfterTabs(b), indent, false)
    else if b == "" then ""
    else if b[0] == '\\' && |b| > 1 then [b[1]] + ShownText(b[2..], indent, false)
    else if b[0] == '.' then ".\0" + ShownText(b[1..], indent, false)
    else [b[0]] + ShownText(b[1..], indent, b[0] == '\n')
  }

  /** Bodies of accepted blocks: no line starts left of the level, no three backquotes in a row, no escape without a
      character, and no backquote before the closing fence.  `stops` backquotes come before `b`. */
  predicate Writable(b: string, indent: nat, start: bool, stops: nat)
    decreases |b|, start
  {
    if start then
      (Tabs(b) >= indent || EmptyLine(b[Tabs(b)..])) && Writable(AfterTabs(b), indent, false, stops)
    else if b == "" then stops == 0
    else if b[0] == INVALID then false
    else if b[0] == '`' then stops < 2 && Writable(b[1..], indent, false, stops + 1)
    else if b[0] == '\\' then |b| > 1 && b[1] != INVALID && Writable(b[2..], indent, false, 0)
    else Writable(b[1..], indent, b[0] == '\n', 0)
  }

  // ----- Backquotes that do not close -----

  lemma {:induction false} QuotesShow(n: nat, b: string, indent: nat)
    ensures ShownText(Repeat('`', n) + b, indent, false) == Repeat('`', n) + ShownText(b, indent, false)
    decreases n
  {
    if n == 0 {
      assert Repeat('`', 0) + b == b && Repeat('`', 0) + ShownText(b, indent, false) == ShownText(b, indent, false);
    } else {
      var s := Repeat('`', n) + b;
      assert s[0] == '`' && s[1..] == Repeat('`', n - 1) + b;
      QuotesShow(n - 1, b, indent);
      Assoc("`", Repeat('`', n - 1), ShownText(b, indent, false));
    }
  }

  lemma QuotesWritable(n: nat, b: string, indent: nat)
    requires n <= 2
    ensures Writable(Repeat('`', n) + b, indent, false, 0) <==> Writable(b, indent, false, n)
  {
    if n == 0 {
      assert Repeat('`', 0) + b == b;
    } else if n == 1 {
      assert Repeat('`', 1) + b == ['`'] + b && (['`'] + b)[1..] == b;
    } else {
      assert Repeat('`', 1) == "`" && Repeat('`', 2) == "``";
      assert ("``" + b)[1..] == "`" + b && ("`" + b)[1..] == b;
    }
  }

  lemma RepeatMore(n: nat, s: string)
    requires s != "" && s[0] == '`'
    ensures Repeat('`', n + 1) + s[1..] == Repeat('`', n) + s
  {
    RepeatSnoc(n);
    Uncons(s);
    Assoc(Repeat('`', n), "`", s[1..]);
  }

  lemma {:induction false} RepeatSnoc(n: nat)
    ensures Repeat('`', n + 1) == Repeat('`', n) + "`"
    decreases n
  {
    if n > 0 {
      RepeatSnoc(n - 1);
      assert Repeat('`', n) == "`" + Repeat('`', n - 1);
      Assoc("`", Repeat('`', n - 1), "`");
    }
  }

  lemma {:induction false} RepeatClean(c: char, n: nat)
    requires c != '\\'
    ensures '\\' !in Repeat(c, n)
    decreases n
  {
    if n > 0 { RepeatClean(c, n - 1); }
  }

  // ----- What the pieces show -----

  /** The pieces of a part show this text, and no font. */
  predicate ShowsText(p: Part, text: string) {
    p.Part? && Decode(Render(p.pieces)) == Shown(text, "")
  }

  lemma PlainPiece(c: char, o: string)
    requires c != '\\'
    ensures Decode(Literal(c) + o) == Shown((if c == '.' then ".\0" else [c]) + Decode(o).text, Decode(o).fonts)
  {
    if c == '.' {
      assert "\\&.\0" + o == "\\&" + (".\0" + o);
      DecodeAmp(".\0" + o);
      DecodeText(".\0", o);
    } else if c == '\'' {
      assert "\\&'" + o == "\\&" + ("'" + o);
      DecodeAmp("'" + o);
      DecodePlain('\'', o);
    } else {
      DecodePlain(c, o);
    }
  }

  lemma EscapedPiece(c: char, o: string)
    ensures Decode(LiteralEscape(c) + o) == Shown([c] + Decode(o).text, Decode(o).fonts)
  {
    if c == '\\' { DecodeBackslash(o); } else { DecodePlain(c, o); }
  }

  /** Pending backquotes and one more character. */
  lemma TwoPieces(stops: nat, a: string, shown: string, p: Part, text: string)
    requires ShowsText(p, text)
    requires forall o :: Decode(a + o) == Shown(shown + Decode(o).text, Decode(o).fonts)
    ensures ShowsText(Append([Raw(Repeat('`', stops)), Raw(a)], p), Repeat('`', stops) + (shown + text))
  {
    var o := Render(p.pieces);
    RenderRaws(Repeat('`', stops), a, p);
    RepeatClean('`', stops);
    DecodeText(Repeat('`', stops), a + o);
    assert Decode(a + o) == Shown(shown + text, "");
  }

  lemma TabsPiece(n: nat, p: Part, text: string)
    requires ShowsText(p, text)
    ensures ShowsText(Append([Raw(Repeat('\t', n))], p), Repeat('\t', n) + text)
  {
    RenderRaw(Repeat('\t', n), p);
    RepeatClean('\t', n);
    DecodeText(Repeat('\t', n), Render(p.pieces));
  }

  lemma ClosingShows(rest: string, indent: nat, flags: bv8)
    ensures ShowsText(Part([Raw(".fi\n"), Re], rest, indent, flags, false), CLOSING)
  {
    ClosingPieces();
    NoEscapeShows(CLOSING);
    ClosingText();
  }

  lemma ClosingText()
    ensures ".fi\n" + (".RE\n" + "") == CLOSING
  {
  }

  lemma NoEscapeShows(s: string)
    requires '\\' !in s
    ensures Decode(s) == Shown(s, "")
  {
    DecodeText(s, "");
    assert s + "" == s;
  }

  // ----- Closed blocks -----

  predicate Closed(p: Part) { p.Part? && !p.unclosed }

  /** The body behind `stops` pending backquotes, and what it shows. */
  predicate Reads(s: string, p: Part, indent: nat, check: bool, stops: nat, flags: bv8, body: string) {
    && Closed(p) && p.indent == indent && p.flags == flags
    && Repeat('`', stops) + s == body + (FENCE + p.rest)
    && Writable(body, indent, check, 0) && ShowsText(p, ShownText(body, indent, check) + CLOSING)
  }

  lemma {:induction false} ClosedBody(s: string, indent: nat, check: bool, stops: nat, flags: bv8)
      returns (body: string)
    requires stops < 3 && (check ==> stops == 0) && Closed(LiteralBody(s, indent, check, stops, flags))
    ensures Reads(s, LiteralBody(s, indent, check, stops, flags), indent, check, stops, flags, body)
    decreases |s|, check, 1
  {
    if check {
      body := ClosedLine(s, indent, flags);
    } else if s[0] == '`' {
      body := ClosedQuote(s, indent, stops, flags);
    } else if s[0] == '\\' {
      body := ClosedEscape(s, indent, stops, flags);
    } else {
      body := ClosedPlain(s, indent, stops, flags);
    }
  }

  lemma {:induction false} ClosedLine(s: string, indent: nat, flags: bv8) returns (body: string)
    requires Closed(LiteralBody(s, indent, true, 0, flags))
    ensures Reads(s, LiteralBody(s, indent, true, 0, flags), indent, true, 0, flags, body)
    decreases |s|, true, 0
  {
    var i := IndentAt(s, indent, false);
    LiteralLine(s, indent, 0, flags);
    var more := ClosedBody(i.rest, indent, false, 0, flags);
    var head := s[..|s| - |i.rest|];
    body := head + more;
    ReadLine(s, i, indent, flags, LiteralBody(i.rest, indent, false, 0, flags), more, head, i.level - indent);
  }

  lemma {:induction false} ClosedQuote(s: string, indent: nat, stops: nat, flags: bv8) returns (body: string)
    requires s != "" && s[0] == '`' && stops < 3 && Closed(LiteralBody(s, indent, false, stops, flags))
    ensures Reads(s, LiteralBody(s, indent, false, stops, flags), indent, false, stops, flags, body)
    decreases |s|, false, 0
  {
    if stops < 2 {
      body := ClosedBody(s[1..], indent, false, stops + 1, flags);
      ReadQuote(s, LiteralBody(s[1..], indent, false, stops + 1, flags), indent, stops, flags, body);
    } else {
      body := "";
      ReadClose(s, indent, flags);
    }
  }

  lemma {:induction false} ClosedEscape(s: string, indent: nat, stops: nat, flags: bv8) returns (body: string)
    requires s != "" && s[0] == '\\' && stops < 3 && Closed(LiteralBody(s, indent, false, stops, flags))
    ensures Reads(s, LiteralBody(s, indent, false, stops, flags), indent, false, stops, flags, body)
    decreases |s|, false, 0
  {
    EscapeStep(s, indent, stops, flags);
    var more := ClosedBody(s[2..], indent, false, 0, flags);
    body := Repeat('`', stops) + (['\\', s[1]] + more);
    ReadEscape(s, indent, stops, flags, LiteralBody(s[2..], indent, false, 0, flags), more);
  }

  lemma {:induction false} ClosedPlain(s: string, indent: nat, stops: nat, flags: bv8) returns (body: string)
    requires s != "" && s[0] != '\\' && s[0] != '`' && stops < 3
    requires Closed(LiteralBody(s, indent, false, stops, flags))
    ensures Reads(s, LiteralBody(s, indent, false, stops, flags), indent, false, stops, flags, body)
    decreases |s|, false, 0
  {
    PlainStep(s, indent, stops, flags);
    var more := ClosedBody(s[1..], indent, s[0] == '\n', 0, flags);
    body := Repeat('`', stops) + ([s[0]] + more);
    ReadPlain(s, indent, stops, flags, LiteralBody(s[1..], indent, s[0] == '\n', 0, flags), more);
  }

  lemma EscapeStep(s: string, indent: nat, stops: nat, flags: bv8)
    requires s != "" && s[0] == '\\' && stops < 3 && Closed(LiteralBody(s, indent, false, stops, flags))
    ensures |s| > 1 && s[1] != INVALID && Closed(LiteralBody(s[2..], indent, false, 0, flags))
    ensures LiteralBody(s, indent, false, stops, flags)
         == Append([Raw(Repeat('`', stops)), Raw(LiteralEscape(s[1]))],
                   LiteralBody(s[2..], indent, false, 0, flags))
  {
  }

  lemma PlainStep(s: string, indent: nat, stops: nat, flags: bv8)
    requires s != "" && s[0] != '\\' && s[0] != '`' && stops < 3
    requires Closed(LiteralBody(s, indent, false, stops, flags))
    ensures s[0] != INVALID && Closed(LiteralBody(s[1..], indent, s[0] == '\n', 0, flags))
    ensures LiteralBody(s, indent, false, stops, flags)
         == Append([Raw(Repeat('`', stops)), Raw(Literal(s[0]))], LiteralBody(s[1..], indent, s[0] == '\n', 0, flags))
  {
  }

  lemma ReadQuote(s: string, p: Part, indent: nat, stops: nat, flags: bv8, body: string)
    requires s != "" && s[0] == '`' && stops < 2 && Reads(s[1..], p, indent, false, stops + 1, flags, body)
    ensures Reads(s, p, indent, false, stops, flags, body)
  {
    RepeatMore(stops, s);
  }

  lemma ReadClose(s: string, indent: nat, flags: bv8)
    requires s != "" && s[0] == '`' && Closed(LiteralBody(s, indent, false, 2, flags))
    ensures Reads(s, LiteralBody(s, indent, false, 2, flags), indent, false, 2, flags, "")
  {
    var rest := s[2..];
    ClosingShows(rest, indent, flags);
    assert Repeat('`', 1) == "`" && Repeat('`', 2) == "``";
    assert s == "`\n" + rest && "``" + ("`\n" + rest) == FENCE + rest == "" + (FENCE + rest);
    assert "" + CLOSING == CLOSING;
  }

  /** One character of the source, written as `a` after the pending backquotes, in front of a body already read. */
  lemma ReadHead(source: string, a: string, shown: string, s: string, p: Part, indent: nat, check: bool, stops: nat,
                 flags: bv8, more: string)
    requires stops < 3 && Reads(s, p, indent, check, 0, flags, more)
    requires forall o :: Decode(a + o) == Shown(shown + Decode(o).text, Decode(o).fonts)
    requires ShownText(source + more, indent, false) == shown + ShownText(more, indent, check)
    requires Writable(source + more, indent, false, stops)
    ensures Reads(source + s, Append([Raw(Repeat('`', stops)), Raw(a)], p), indent, false, stops, flags,
                  Repeat('`', stops) + (source + more))
  {
    var q := Repeat('`', stops);
    QuotesShow(stops, source + more, indent);
    QuotesWritable(stops, source + more, indent);
    TwoPieces(stops, a, shown, p, ShownText(more, indent, check) + CLOSING);
    ReadJoin(stops, shown, ShownText(more, indent, check));
    assert Repeat('`', 0) + s == s;
    TakenJoin(stops, source, more, FENCE + p.rest);
  }

  lemma ReadEscape(s: string, indent: nat, stops: nat, flags: bv8, p: Part, more: string)
    requires |s| > 1 && s[0] == '\\' && s[1] != INVALID && stops < 3 && Reads(s[2..], p, indent, false, 0, flags, more)
    ensures Reads(s, Append([Raw(Repeat('`', stops)), Raw(LiteralEscape(s[1]))], p), indent, false,
                  stops, flags, Repeat('`', stops) + (['\\', s[1]] + more))
  {
    var c := s[1];
    EscapeUnfolds(c, more, indent, stops);
    forall o ensures Decode(LiteralEscape(c) + o) == Shown([c] + Decode(o).text, Decode(o).fonts) {
      EscapedPiece(c, o);
    }
    TwoAndRest(s);
    ReadHead(['\\', c], LiteralEscape(c), [c], s[2..], p, indent, false, stops, flags, more);
  }

  lemma EscapeUnfolds(c: char, more: string, indent: nat, stops: nat)
    requires c != INVALID && Writable(more, indent, false, 0)
    ensures ShownText(['\\', c] + more, indent, false) == [c] + ShownText(more, indent, false)
    ensures Writable(['\\', c] + more, indent, false, stops)
  {
    var b := ['\\', c] + more;
    assert b[0] == '\\' && b[1] == c && b[2..] == more;
  }

  lemma TwoAndRest(s: string)
    requires |s| > 1
    ensures s == [s[0], s[1]] + s[2..]
  {
  }

  lemma ReadPlain(s: string, indent: nat, stops: nat, flags: bv8, p: Part, more: string)
    requires s != "" && s[0] != '\\' && s[0] != '`' && s[0] != INVALID && stops < 3
    requires Reads(s[1..], p, indent, s[0] == '\n', 0, flags, more)
    ensures Reads(s, Append([Raw(Repeat('`', stops)), Raw(Literal(s[0]))], p), indent, false, stops, flags,
                  Repeat('`', stops) + ([s[0]] + more))
  {
    var c := s[0];
    var b, shown := [c] + more, if c == '.' then ".\0" else [c];
    assert b[0] == c && b[1..] == more;
    forall o ensures Decode(Literal(c) + o) == Shown(shown + Decode(o).text, Decode(o).fonts) { PlainPiece(c, o); }
    Uncons(s);
    ReadHead([c], Literal(c), shown, s[1..], p, indent, c == '\n', stops, flags, more);
  }

  lemma ReadJoin(stops: nat, a: string, text: string)
    ensures Repeat('`', stops) + (a + (text + CLOSING)) == Repeat('`', stops) + (a + text) + CLOSING
  {
  }

  lemma TakenJoin(stops: nat, a: string, more: string, tail: string)
    ensures Repeat('`', stops) + (a + (more + tail)) == Repeat('`', stops) + (a + more) + tail
  {
  }

  lemma ReadLine(s: string, i: Indented, indent: nat, flags: bv8, p: Part, more: string, head: string, n: nat)
    requires i == IndentAt(s, indent, false) && i.level >= indent && n == i.level - indent
    requires head == s[..|s| - |i.rest|] && Reads(i.rest, p, indent, false, 0, flags, more)
    ensures Reads(s, Append([Raw(Repeat('\t', n))], p), indent, true, 0, flags, head + more)
  {
    assert Repeat('`', 0) + i.rest == i.rest;
    LineText(s, i, indent, more, head, n, FENCE + p.rest);
    TabsPiece(n, p, ShownText(more, indent, false) + CLOSING);
    Assoc(Repeat('\t', n), ShownText(more, indent, false), CLOSING);
  }

  lemma LineText(s: string, i: Indented, indent: nat, more: string, head: string, n: nat, tail: string)
    requires i == IndentAt(s, indent, false) && i.level >= indent && n == i.level - indent
    requires head == s[..|s| - |i.rest|] && i.rest == more + tail && tail != "" && tail[0] == '`'
    requires Writable(more, indent, false, 0)
    ensures Repeat('`', 0) + s == head + more + tail
    ensures ShownText(head + more, indent, true) == Repeat('\t', n) + ShownText(more, indent, false)
    ensures Writable(head + more, indent, true, 0)
  {
    IndentTakes(s, indent);
    BodyOfLine(s, head, i.rest, more, tail);
    LineOfBody(s, indent, more, tail);
    LineShown(head + more, indent, more, n);
  }

  lemma BodyOfLine(s: string, head: string, rest: string, more: string, tail: string)
    requires s == head + rest && rest == more + tail
    ensures Repeat('`', 0) + s == head + more + tail
  {
  }

  lemma LineShown(body: string, indent: nat, more: string, n: nat)
    requires AfterTabs(body) == more && ExtraTabs(body, indent) == n && Writable(more, indent, false, 0)
    requires Tabs(body) >= indent || EmptyLine(body[Tabs(body)..])
    ensures ShownText(body, indent, true) == Repeat('\t', n) + ShownText(more, indent, false)
    ensures Writable(body, indent, true, 0)
  {
  }

  /** The beginning of a line is the same in the body and in the source. */
  lemma LineOfBody(s: string, indent: nat, more: string, tail: string)
    requires IndentAt(s, indent, false).rest == more + tail && tail != "" && tail[0] == '`'
    requires IndentAt(s, indent, false).level >= indent
    ensures var i := IndentAt(s, indent, false);
      var body := s[..|s| - |i.rest|] + more;
      && AfterTabs(body) == more && ExtraTabs(body, indent) == i.level - indent
      && (Tabs(body) >= indent || EmptyLine(body[Tabs(body)..]))
  {
    var i := IndentAt(s, indent, false);
    var n, t := Tabs(s), s[Tabs(s)..];
    var head := s[..|s| - |i.rest|];
    var body := head + more;
    TabsOnly(s);
    if t != "" && t[0] == INVALID {
      assert i.rest == t[1..] && head == s[..n] + [INVALID];
      assert body == s[..n] + ([INVALID] + more);
      TabsThen(s[..n], [INVALID] + more);
      assert body[n..] == [INVALID] + more;
    } else {
      assert i.rest != "" && i.rest == if t == "" then t else Unread(t[0], t[1..]);
      Uncons(t);
      assert i.rest == t && head == s[..n];
      StopsAt(s);
      assert more != "" ==> more[0] == t[0];
      TabsThen(s[..n], more);
      assert body[n..] == more;
    }
  }

  lemma {:induction false} TabsThen(a: string, b: string)
    requires (forall k :: 0 <= k < |a| ==> a[k] == '\t') && (b == "" || b[0] != '\t')
    ensures Tabs(a + b) == |a|
    decreases |a|
  {
    if a == "" {
      assert a + b == b;
    } else {
      assert (a + b)[0] == '\t' && (a + b)[1..] == a[1..] + b;
      TabsThen(a[1..], b);
    }
  }

  lemma {:induction false} StopsAt(s: string)
    ensures Tabs(s) < |s| ==> s[Tabs(s)] != '\t'
    decreases |s|
  {
    if s != "" && s[0] == '\t' { StopsAt(s[1..]); }
  }

  /** Every closed literal block shows its opening requests, the text between its fences, and its closing ones. */
  lemma LiteralShows(s: string, indent: nat, flags: bv8) returns (body: string)
    requires var p := LiteralAt(s, indent, flags); p.Part? && !p.unclosed
    ensures var p := LiteralAt(s, indent, flags);
      && s == "``\n" + (body + (FENCE + p.rest)) && Writable(body, indent, true, 0)
      && p.indent == indent && p.flags == flags
      && Decode(Render(p.pieces)) == Shown(OPENING + (ShownText(body, indent, true) + CLOSING), "")
  {
    var q := LiteralBody(s[3..], indent, true, 0, flags);
    body := ClosedBody(s[3..], indent, true, 0, flags);
    assert s == "``\n" + s[3..] && Repeat('`', 0) + s[3..] == s[3..];
    OpeningShows(q, ShownText(body, indent, true) + CLOSING);
  }

  lemma OpeningShows(p: Part, text: string)
    requires ShowsText(p, text)
    ensures ShowsText(Append([Raw(".nf\n"), Rs], p), OPENING + text)
  {
    OpeningPieces(p);
    assert OPENING == ".nf\n" + ".RS 4\n";
    Assoc(".nf\n", ".RS 4\n", Render(p.pieces));
    DecodeText(OPENING, Render(p.pieces));
  }

  // ----- Accepted blocks -----

  /** Part of a block that is closed just before `rest`. */
  predicate ClosedAt(p: Part, rest: string) { Closed(p) && p.rest == rest }

  lemma {:induction false} Accepts(b: string, rest: string, indent: nat, start: bool, stops: nat, flags: bv8)
    requires stops < 3 && Writable(b, indent, start, stops)
    ensures ClosedAt(LiteralBody(b + (FENCE + rest), indent, start, stops, flags), rest)
    decreases |b|, start
  {
    var tail := FENCE + rest;
    var s := b + tail;
    if start {
      LineIndent(b, tail, indent);
      LiteralLine(s, indent, stops, flags);
      Accepts(AfterTabs(b), rest, indent, false, stops, flags);
    } else if b == "" {
      assert s == tail;
      FenceCloses(rest, indent, flags);
    } else {
      assert s[0] == b[0] && s[1..] == b[1..] + tail;
      if b[0] == '`' {
        Accepts(b[1..], rest, indent, false, stops + 1, flags);
      } else if b[0] == '\\' {
        assert s[1] == b[1] && s[2..] == b[2..] + tail;
        Accepts(b[2..], rest, indent, false, 0, flags);
      } else {
        Accepts(b[1..], rest, indent, b[0] == '\n', 0, flags);
      }
    }
  }

  lemma FenceCloses(rest: string, indent: nat, flags: bv8)
    ensures ClosedAt(LiteralBody(FENCE + rest, indent, false, 0, flags), rest)
  {
    var s := FENCE + rest;
    assert s[1..] == "``\n" + rest && ("``\n" + rest)[1..] == "`\n" + rest && ("`\n" + rest)[2..] == rest;
    assert ClosedAt(LiteralBody("`\n" + rest, indent, false, 2, flags), rest);
    assert ClosedAt(LiteralBody("``\n" + rest, indent, false, 1, flags), rest);
  }

  lemma LineIndent(b: string, tail: string, indent: nat)
    requires tail != "" && tail[0] == '`' && (Tabs(b) >= indent || EmptyLine(b[Tabs(b)..]))
    ensures var i := IndentAt(b + tail, indent, false); i.level >= indent && i.rest == AfterTabs(b) + tail
  {
    TabsBefore(b, tail);
    var t := b[Tabs(b)..];
    if t == "" { assert t + tail == tail; } else { assert (t + tail)[0] == t[0] && (t + tail)[1..] == t[1..] + tail; }
    Uncons(t + tail);
  }

  lemma TabsBefore(b: string, tail: string)
    requires tail != "" && tail[0] == '`'
    ensures Tabs(b + tail) == Tabs(b) && (b + tail)[Tabs(b)..] == b[Tabs(b)..] + tail
  {
    var n, t := Tabs(b), b[Tabs(b)..];
    TabsOnly(b);
    StopsAt(b);
    assert b + tail == b[..n] + (t + tail);
    assert (t + tail)[0] == if t == "" then '`' else t[0];
    TabsThen(b[..n], t + tail);
  }

  /** A block with its fences, and what comes after it. */
  predicate Fenced(s: string, body: string, rest: string, indent: nat) {
    s == "``\n" + (body + (FENCE + rest)) && Writable(body, indent, true, 0)
  }

  lemma FencedCloses(s: string, body: string, rest: string, indent: nat, flags: bv8)
    requires Fenced(s, body, rest, indent)
    ensures ClosedAt(LiteralAt(s, indent, flags), rest)
  {
    assert s[3..] == body + (FENCE + rest) && "``\n" <= s;
    Accepts(body, rest, indent, true, 0, flags);
  }

  /** A literal block is closed exactly when what stands between its opening line and a closing fence is writable;
      then it takes no more and no less. */
  lemma LiteralClosesIff(s: string, indent: nat, flags: bv8)
    ensures Closed(LiteralAt(s, indent, flags)) <==> exists body, rest :: Fenced(s, body, rest, indent)
    ensures forall body, rest :: Fenced(s, body, rest, indent) ==> ClosedAt(LiteralAt(s, indent, flags), rest)
  {
    if Closed(LiteralAt(s, indent, flags)) {
      var body := LiteralShows(s, indent, flags);
      assert Fenced(s, body, LiteralAt(s, indent, flags).rest, indent);
    }
    forall body, rest | Fenced(s, body, rest, indent) ensures ClosedAt(LiteralAt(s, indent, flags), rest) {
      FencedCloses(s, body, rest, indent, flags);
    }
  }

  // ----- Guards -----

  /** Every dot and quote comes directly after the escape that shows nothing, so that none begins a request. */
  predicate Guarded(o: string) {
    forall i :: 0 <= i < |o| && (o[i] == '.' || o[i] == '\'') ==> i >= 2 && o[i - 2] == '\\' && o[i - 1] == '&'
  }

  lemma GuardedJoin(a: string, b: string)
    requires Guarded(a) && Guarded(b)
    ensures Guarded(a + b)
  {
    var o := a + b;
    forall i | 0 <= i < |o| && (o[i] == '.' || o[i] == '\'')
      ensures i >= 2 && o[i - 2] == '\\' && o[i - 1] == '&'
    {
      if i < |a| { assert a[i] == o[i]; } else { assert b[i - |a|] == o[i]; }
    }
  }

  lemma {:induction false} RepeatGuarded(c: char, n: nat)
    requires c != '.' && c != '\''
    ensures Guarded(Repeat(c, n))
    decreases n
  {
    if n > 0 {
      RepeatGuarded(c, n - 1);
      GuardedJoin([c], Repeat(c, n - 1));
    }
  }

  /** The pieces write a guarded text and then the closing requests. */
  predicate WritesGuarded(p: Part, o: string) {
    p.Part? && Guarded(o) && Render(p.pieces) == o + CLOSING
  }

  lemma {:induction false} GuardedBody(s: string, indent: nat, check: bool, stops: nat, flags: bv8)
      returns (o: string)
    requires stops < 3 && '\\' !in s && Closed(LiteralBody(s, indent, check, stops, flags))
    ensures WritesGuarded(LiteralBody(s, indent, check, stops, flags), o)
    decreases |s|, check
  {
    if check {
      var i := IndentAt(s, indent, false);
      LiteralLine(s, indent, stops, flags);
      IndentKeepsPlain(s, indent);
      var more := GuardedBody(i.rest, indent, false, stops, flags);
      o := Repeat('\t', i.level - indent) + more;
      GuardedTabs(i.level - indent, LiteralBody(i.rest, indent, false, stops, flags), more);
    } else if s[0] == '`' {
      if stops < 2 {
        o := GuardedBody(s[1..], indent, false, stops + 1, flags);
      } else {
        o := "";
        ClosingPieces();
        ClosingText();
        assert "" + CLOSING == CLOSING;
      }
    } else {
      assert s[0] in s;
      PlainStep(s, indent, stops, flags);
      var p := LiteralBody(s[1..], indent, s[0] == '\n', 0, flags);
      var more := GuardedBody(s[1..], indent, s[0] == '\n', 0, flags);
      o := Repeat('`', stops) + (Literal(s[0]) + more);
      GuardedChar(s[0], stops, p, more);
    }
  }

  lemma IndentKeepsPlain(s: string, indent: nat)
    requires '\\' !in s
    ensures '\\' !in IndentAt(s, indent, false).rest
  {
    IndentTakes(s, indent);
    var rest := IndentAt(s, indent, false).rest;
    assert forall i :: 0 <= i < |rest| ==> rest[i] == s[|s| - |rest| + i];
  }

  lemma GuardedTabs(n: nat, p: Part, more: string)
    requires WritesGuarded(p, more)
    ensures WritesGuarded(Append([Raw(Repeat('\t', n))], p), Repeat('\t', n) + more)
  {
    RenderRaw(Repeat('\t', n), p);
    RepeatGuarded('\t', n);
    GuardedJoin(Repeat('\t', n), more);
    Assoc(Repeat('\t', n), more, CLOSING);
  }

  lemma GuardedChar(c: char, stops: nat, p: Part, more: string)
    requires WritesGuarded(p, more)
    ensures WritesGuarded(Append([Raw(Repeat('`', stops)), Raw(Literal(c))], p),
      Repeat('`', stops) + (Literal(c) + more))
  {
    RenderRaws(Repeat('`', stops), Literal(c), p);
    RepeatGuarded('`', stops);
    assert Guarded(Literal(c));
    GuardedJoin(Literal(c), more);
    GuardedJoin(Repeat('`', stops), Literal(c) + more);
    ReadJoin(stops, Literal(c), more);
  }

  /** Between its opening and closing requests a closed literal block without backslashes writes no line that could be
      taken for a request. */
  lemma LiteralGuards(s: string, indent: nat, flags: bv8) returns (o: string)
    requires '\\' !in s && Closed(LiteralAt(s, indent, flags))
    ensures Guarded(o) && Render(LiteralAt(s, indent, flags).pieces) == OPENING + (o + CLOSING)
  {
    o := GuardedBody(s[3..], indent, true, 0, flags);
    OpeningPieces(LiteralBody(s[3..], indent, true, 0, flags));
    assert OPENING == ".nf\n" + ".RS 4\n";
    Assoc(".nf\n", ".RS 4\n", o + CLOSING);
  }
}
