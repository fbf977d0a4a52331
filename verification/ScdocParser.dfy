/** The translator itself: a parser that reads characters, pushes some of them back, and appends to its output. */
module ScdocParser {
  import opened Scdoc
  import opened ScdocDoc

  /** What is pending is the pushed back characters, the last of them first, and then the input. */
  predicate Queued(q: string, input: string, pending: string)
    decreases |q|
  {
    if q == "" then pending == input
    else pending != "" && pending[0] == q[|q| - 1] && Queued(q[..|q| - 1], input, pending[1..])
  }

  datatype Outcome = Goes | Done | Failed | AtTable

  // ----- How lines and pieces add up -----

  datatype Translated = Translated(output: string, rest: string, flags: bv8) | NotTranslated

  /** A line of text, written as it is read. */
  function Translate(s: string, first: bool, last: char, flags: bv8, output: string): Translated
    decreases |s|
  {
    match Take(s, first, last, flags)
    case Stop(newline, rest) => Translated(output + Tail(newline, ""), rest, flags)
    case Fail => NotTranslated
    case Go(u, rest) => Translate(rest, false, Last(u, last), After(u, flags), output + Output(u))
  }

  lemma OutPrepend(u: Unit, l: Line, output: string)
    requires l.Line?
    ensures output + Out(Prepend(u, l)) == output + Output(u) + Out(l)
  {
    assert ([u] + l.units)[1..] == l.units;
    AssocTwice(output, Output(u), Outputs(l.units), Tail(l.newline, ""));
  }

  lemma {:induction false} TranslateIsLex(s: string, first: bool, last: char, flags: bv8, output: string)
    ensures var l := Lex(s, first, last, flags);
      Translate(s, first, last, flags, output)
        == if l.Error? then NotTranslated else Translated(output + Out(l), l.rest, l.flags)
    decreases |s|
  {
    match Take(s, first, last, flags) {
      case Go(u, rest) =>
        var l := Lex(rest, false, Last(u, last), After(u, flags));
        TranslateIsLex(rest, false, Last(u, last), After(u, flags), output + Output(u));
        if l.Line? { OutPrepend(u, l, output); }
      case Stop(newline, _) => assert Outputs([]) + Tail(newline, "") == Tail(newline, "");
      case Fail =>
    }
  }

  lemma RenderOne(p: Piece)
    ensures Render([p]) == Written(p)
  {
    assert Written(p) + "" == Written(p);
  }

  lemma EmitNone(output: string)
    ensures output == output + Render([])
  {
  }

  lemma EmitOne(output: string, p: Piece)
    ensures output + Written(p) == output + Render([p])
  {
    RenderOne(p);
  }

  lemma EmitTwo(output: string, p: Piece, q: Piece)
    ensures output + Written(p) + Written(q) == output + Render([p, q])
  {
    assert [p, q][1..] == [q];
    RenderOne(q);
    Assoc(output, Written(p), Written(q));
  }

  lemma EmitAll(output: string, ps: seq<Piece>, qs: seq<Piece>)
    ensures output + Render(ps) + Render(qs) == output + Render(ps + qs)
  {
    RenderAppend(ps, qs);
    Assoc(output, Render(ps), Render(qs));
  }

  lemma JoinNone(p: Part)
    ensures Join([], false, p) == p
  {
    if p.Part? { assert [] + p.pieces == p.pieces; }
  }

  lemma JoinJoin(a: seq<Piece>, x: bool, b: seq<Piece>, y: bool, p: Part)
    ensures Join(a, x, Join(b, y, p)) == Join(a + b, x || y, p)
  {
    if p.Part? { assert a + (b + p.pieces) == a + b + p.pieces; }
  }

  lemma AppendNone(p: Part)
    ensures Append([], p) == p
  {
    if p.Part? { assert [] + p.pieces == p.pieces; }
  }

  lemma RepeatNone(output: string)
    ensures forall c :: output + Repeat(c, 0) == output
  {
  }

  lemma {:induction false} RepeatSnoc(c: char, n: nat)
    ensures Repeat(c, n + 1) == Repeat(c, n) + [c]
    decreases n
  {
    if n > 0 { RepeatSnoc(c, n - 1); }
  }

  lemma RepeatMore(output: string, c: char, n: nat)
    ensures output + Repeat(c, n) + [c] == output + Repeat(c, n + 1)
  {
    RepeatSnoc(c, n);
    Assoc(output, Repeat(c, n), [c]);
  }

  lemma AddPiece(ps: seq<Piece>, p: Piece)
    ensures Render(ps + [p]) == Render(ps) + Written(p)
  {
    RenderAppend(ps, [p]);
    RenderOne(p);
  }

  lemma {:induction false} ClosesSnoc(n: nat)
    ensures Closes(n + 1) == Closes(n) + [Re]
    decreases n
  {
    if n > 0 { ClosesSnoc(n - 1); }
  }

  lemma ClosesAppend(n: nat)
    ensures Render(Closes(n + 1)) == Render(Closes(n)) + ".RE\n"
  {
    ClosesSnoc(n);
    AddPiece(Closes(n), Re);
  }

  function CopiedAfter(a: string, r: Copied): Copied { if r.NotCopied? then r else r.(text := a + r.text) }

  lemma CopiedNone(r: Copied)
    ensures CopiedAfter("", r) == r
  {
    if r.Copied? { assert "" + r.text == r.text; }
  }

  lemma CopiedOne(a: string, c: char, r: Copied)
    ensures CopiedAfter(a, CopiedAfter([c], r)) == CopiedAfter(a + [c], r)
  {
    if r.Copied? { assert a + ([c] + r.text) == a + [c] + r.text; }
  }

  lemma AppendAppend(a: seq<Piece>, b: seq<Piece>, p: Part)
    ensures Append(a, Append(b, p)) == Append(a + b, p)
  {
    if p.Part? { assert a + (b + p.pieces) == a + b + p.pieces; }
  }

  class Parser {
    const queue: array<char>
    var qhead: nat
    var input: string
    var flags: bv8
    var output: string

    /** What is still to be read. */
    ghost var pending: string

    ghost predicate Valid()
      reads `qhead, `input, `pending, queue
    {
      && queue.Length == 32 && qhead <= 2
      && Queued(queue[..qhead], input, pending)
    }

    constructor (input: string)
      ensures Valid() && fresh(queue) && qhead == 0 && pending == input && flags == 0 && output == ""
    {
      queue := new char[32];
      qhead, this.input, flags, output, pending := 0, input, 0, "", input;
    }

    method Getch() returns (c: Option<char>)
      requires Valid()
      modifies `qhead, `input, `pending
      ensures Valid() && qhead == (if old(qhead) == 0 then 0 else old(qhead) - 1)
      ensures if old(pending) == "" then c == None && pending == ""
              else c == Some(old(pending)[0]) && pending == old(pending)[1..]
    {
      if qhead > 0 {
        ghost var q := queue[..qhead];
        qhead := qhead - 1;
        assert q[..|q| - 1] == queue[..qhead];
        c := Some(queue[qhead]);
      } else if input == "" {
        return None;
      } else {
        c := Some(input[0]);
        input := input[1..];
      }
      pending := pending[1..];
    }

    /** There are never more than two characters pushed back. */
    method Pushc(c: Option<char>)
      requires Valid() && qhead <= 1
      modifies `qhead, `pending, queue
      ensures Valid() && qhead <= old(qhead) + 1
      ensures pending == if c.None? then old(pending) else Unread(c.value, old(pending))
    {
      if c.Some? && c.value != INVALID {
        ghost var q := queue[..qhead];
        queue[qhead] := c.value;
        qhead := qhead + 1;
        assert queue[..qhead] == q + [c.value];
        assert queue[..qhead][..qhead - 1] == q;
        ghost var p := pending;
        pending := [c.value] + pending;
        assert pending[1..] == p;
      }
    }

    /** Opens or closes a font; only one can be open. */
    method ParseFormat(format: bv8) returns (ok: bool)
      requires format == BOLD || format == UNDERLINE
      modifies `flags, `output
      ensures match Format(old(flags), format)
              case None => !ok
              case Some(u) => ok && flags == After(u, old(flags)) && output == old(output) + Output(u)
    {
      if flags != 0 {
        if flags & !format != 0 {
          return false;
        }
        output := output + "\\fR";
      } else {
        output := output + (if format == BOLD then "\\fB" else "\\fI");
      }
      flags := flags ^ format;
      return true;
    }

    /** After a plus: whether it began an explicit line break, or nothing when a blank line follows one. */
    method ParseLinebreak() returns (r: Option<bool>)
      requires Valid() && qhead <= 1
      modifies `qhead, `input, `pending, `output, queue
      ensures Valid()
      ensures match PlusOf(old(pending))
              case Fail => r == None
              case Go(u, rest) => r == Some(u == Break) && pending == rest && output == old(output) + Output(u)
              case Stop(_, _) => false
    {
      var plus := Getch();
      if plus != Some('+') {
        output := output + "+";
        Pushc(plus);
        return Some(false);
      }
      var lf := Getch();
      if lf != Some('\n') {
        output := output + "+";
        Pushc(lf);
        Pushc(plus);
        return Some(false);
      }
      var c := Getch();
      if c == Some('\n') {
        return None;
      }
      Pushc(c);
      output := output + "\n.br\n";
      return Some(true);
    }

    /** After an underscore, which begins or ends an underline or stands for itself. */
    method Underscore(last: char) returns (o: Outcome)
      requires Valid() && qhead <= 1
      modifies `qhead, `input, `pending, `flags, `output, queue
      ensures Valid()
      ensures match Underline(old(pending), last, old(flags))
              case Fail => o == Failed
              case Go(u, _) => o == (if pending == "" then Done else Goes) && (o == Done ==> qhead == 0)
                && pending == old(pending)
                               && flags == After(u, old(flags)) && output == old(output) + Output(u)
              case Stop(_, _) => false
    {
      ghost var s := pending;
      var next := Getch();
      if !Alnum(last) || (flags & UNDERLINE != 0 && !(next.Some? && Alnum(next.value))) {
        var ok := ParseFormat(UNDERLINE);
        if !ok {
          return Failed;
        }
      } else {
        output := output + "_";
      }
      if next.None? {
        return Done;
      }
      if next.value == INVALID {
        return Failed;
      }
      Pushc(next);
      assert [s[0]] + s[1..] == s;
      return Goes;
    }

    /** One turn of the loop of `parse_text`. */
    method Turn(first: bool, last: char) returns (o: Outcome, last': char)
      requires Valid()
      modifies `qhead, `input, `pending, `flags, `output, queue
      ensures Valid()
      ensures match Take(old(pending), first, last, old(flags))
              case Stop(newline, rest) => o == Done && pending == rest && flags == old(flags) && qhead <= 1
                                          && output == old(output) + Tail(newline, "")
              case Fail => o == Failed
              case Go(u, rest) => (o == Goes || (o == Done && rest == "" && qhead == 0)) && pending == rest
                                  && flags == After(u, old(flags)) && output == old(output) + Output(u)
                                  && last' == Last(u, last)
    {
      last' := last;
      var c := Getch();
      if c.None? || c.value == INVALID {
        return Done, last;
      }
      if c.value == '\n' {
        output := output + "\n";
        return Done, last;
      }
      o, last' := Switch(c.value, first, last);
    }

    /** What the character read does. */
    method Switch(c: char, first: bool, last: char) returns (o: Outcome, last': char)
      requires Valid() && qhead <= 1 && c != INVALID && c != '\n'
      modifies `qhead, `input, `pending, `flags, `output, queue
      ensures Valid()
      ensures match TakeChar(c, old(pending), first, last, old(flags))
              case Stop(newline, rest) => false
              case Fail => o == Failed
              case Go(u, rest) => (o == Goes || (o == Done && rest == "" && qhead == 0)) && pending == rest
                                  && flags == After(u, old(flags)) && output == old(output) + Output(u)
                                  && last' == Last(u, last)
    {
      last' := last;
      if c == '\\' {
        o := Escape();
      } else if c == '*' {
        var ok := ParseFormat(BOLD);
        o := if ok then Goes else Failed;
      } else if c == '_' {
        o := Underscore(last);
      } else if c == '+' {
        var r := ParseLinebreak();
        if r.None? {
          return Failed, last;
        }
        if r.value {
          last' := '\n';
        }
        o := Goes;
      } else {
        last' := Character(c, first, last);
        o := Goes;
      }
    }

    /** After a backslash. */
    method Escape() returns (o: Outcome)
      requires Valid()
      modifies `qhead, `input, `pending, `output
      ensures Valid() && qhead <= old(qhead)
      ensures match EscapeOf(old(pending))
              case Fail => o == Failed
              case Go(u, rest) => o == Goes && pending == rest && output == old(output) + Output(u)
              case Stop(_, _) => false
    {
      var c := Getch();
      if c.None? || c.value == INVALID {
        return Failed;
      }
      if c.value == '\\' {
        output := output + "\\\\";
      } else {
        output := output + [c.value];
      }
      return Goes;
    }

    /** Any other character; a dot or a quote that comes first would otherwise begin a control line. */
    method Character(c: char, first: bool, last: char) returns (last': char)
      requires c !in "\\*_+\n" && c != INVALID
      modifies `output
      ensures output == old(output) + Output(Ordinary(c, first)) && last' == Last(Ordinary(c, first), last)
    {
      last' := last;
      if c == '.' && first {
        output := output + "\\&.\\&";
      } else if c == '\'' && first {
        output := output + "\\&'\\&";
      } else if c == '.' || c == '\'' || c == '!' || c == '?' {
        last' := c;
        output := output + [c];
        output := output + "\\&";
        assert output == old(output) + Output(Sentence(c));
      } else {
        last' := c;
        output := output + [c];
      }
    }

    /** A line of text; it is left at the end of the line, of the input, or after an invalid character. */
    method ParseText() returns (ok: bool)
      requires Valid() && qhead <= 1
      modifies `qhead, `input, `pending, `flags, `output, queue
      ensures Valid() && (ok ==> qhead <= 1)
      ensures var l := Lex(old(pending), true, ' ', old(flags));
        if l.Error? then !ok else ok && pending == l.rest && flags == l.flags && output == old(output) + Out(l)
    {
      var last, first, o := ' ', true, Goes;
      ghost var all := Translate(pending, true, ' ', flags, output);
      TranslateIsLex(pending, true, ' ', flags, output);
      while true
        invariant Valid() && all == Translate(pending, first, last, flags, output)
        decreases |pending|
      {
        o, last := Turn(first, last);
        if o == Failed {
          return false;
        }
        if o == Done {
          return true;
        }
        first := false;
      }
    }

    // ----- Indentation -----

    /** The number of tabs before the next character, and that character. */
    method CountTabs() returns (i: nat, c: Option<char>)
      requires Valid() && qhead <= 1
      modifies `qhead, `input, `pending
      ensures Valid() && qhead == 0 && i == Tabs(old(pending))
      ensures var t := old(pending)[i..];
        if t == "" then c == None && pending == "" else c == Some(t[0]) && pending == t[1..]
    {
      ghost var s := pending;
      i := 0;
      c := Getch();
      assert s[0..] == s;
      while c == Some('\t')
        invariant Valid() && qhead == 0 && i <= |s|
        invariant var t := s[i..]; if t == "" then c == None && pending == "" else c == Some(t[0]) && pending == t[1..]
        invariant Tabs(s) == i + Tabs(s[i..])
        decreases |s| - i
      {
        assert s[i..][1..] == s[i + 1..];
        i := i + 1;
        c := Getch();
      }
    }

    /** The level of a line; when writing, it opens one level at most, and closes any number. */
    method ParseIndent(indent: nat, write: bool) returns (ok: bool, level: nat)
      requires Valid() && qhead <= 1
      modifies `qhead, `input, `pending, `output, queue
      ensures Valid() && qhead <= 1
      ensures match IndentAt(old(pending), indent, write)
              case TooDeep => !ok
              case Indented(l, ps, rest) => ok && level == l && pending == rest && output == old(output) + Render(ps)
    {
      ghost var s := pending;
      var i, c := CountTabs();
      Pushc(c);
      assert pending == if s[i..] == "" then "" else Unread(s[i..][0], s[i..][1..]);
      EmitNone(output);
      if (c.None? || c.value == '\n' || c.value == INVALID) && indent != 0 {
        return true, indent;
      }
      if write {
        if i > indent + 1 {
          return false, indent;
        }
        Reindent(indent, i);
      }
      return true, i;
    }

    method Reindent(indent: nat, i: nat)
      requires i <= indent + 1
      modifies `output
      ensures output == old(output)
                        + Render(if i < indent then Closes(indent - i) else if i == indent + 1 then [Rs] else [])
    {
      if i < indent {
        var j := indent;
        while i < j
          invariant i <= j <= indent
          invariant output == old(output) + Render(Closes(indent - j))
        {
          ClosesAppend(indent - j);
          output := output + ".RE\n";
          j := j - 1;
        }
      } else if i == indent + 1 {
        RenderOne(Rs);
        output := output + ".RS 4\n";
      }
    }

    // ----- Headings and comments -----

    method ParseHeading() returns (ok: bool)
      requires Valid() && qhead <= 1
      modifies `qhead, `input, `pending, `output
      ensures Valid() && qhead <= old(qhead)
      ensures Matches(HeadingAt(old(pending), 0, flags), ok, 0, old(output))
    {
      var level: nat := 1;
      ghost var s := pending;
      while true
        invariant Valid() && qhead <= old(qhead) && output == old(output)
        invariant HeadingLevel(s, 1) == HeadingLevel(pending, level)
        decreases |pending|
      {
        var c := Getch();
        if c.None? {
          break;
        }
        if c.value == '#' {
          level := level + 1;
        } else if c.value == ' ' {
          break;
        } else {
          return false;
        }
      }
      assert HeadingLevel(s, 1) == Level(level, pending);
      if level > 2 {
        return false;
      }
      ghost var t := pending;
      output := output + (if level == 1 then ".SH " else ".SS ");
      ok := ParseLine();
      ghost var r := CopyLine(t);
      if r.Copied? { EmitTwo(old(output), Raw(if level == 1 then ".SH " else ".SS "), Raw(r.text)); }
    }

    /** Copies the rest of a heading as it is. */
    method ParseLine() returns (ok: bool)
      requires Valid()
      modifies `qhead, `input, `pending, `output
      ensures Valid() && qhead <= old(qhead)
      ensures match CopyLine(old(pending))
              case NotCopied => !ok
              case Copied(text, rest) => ok && pending == rest && output == old(output) + text
    {
      ghost var all := CopyLine(pending);
      ghost var read := "";
      CopiedNone(all);
      while true
        invariant Valid() && qhead <= old(qhead)
        invariant all == CopiedAfter(read, CopyLine(pending))
        invariant output == old(output) + read
        decreases |pending|
      {
        ghost var rest := pending;
        var c := Getch();
        if c.None? {
          assert read + "" == read;
          return true;
        }
        if c.value == INVALID {
          return false;
        }
        output := output + [c.value];
        if c.value == '\n' {
          return true;
        }
        CopiedOne(read, c.value, CopyLine(rest[1..]));
        read := read + [c.value];
      }
    }

    method ParseComment() returns (goesOn: bool)
      requires Valid()
      modifies `qhead, `input, `pending
      ensures Valid() && qhead <= old(qhead)
      ensures (pending, goesOn) == Comment(old(pending))
    {
      var c := Getch();
      while c.Some? && c.value != INVALID && c.value != '\n'
        invariant Valid() && qhead <= old(qhead)
        invariant Comment(old(pending)) == Comment((if c.None? then "" else [c.value]) + pending)
        invariant c.None? ==> pending == ""
        decreases |pending|, c.Some?
      {
        ghost var s := pending;
        assert ([c.value] + s)[1..] == s;
        c := Getch();
        if c.Some? { assert [c.value] + pending == s; }
      }
      if c.Some? { assert ([c.value] + pending)[1..] == pending; }
      return c == Some('\n');
    }

    // ----- Lists -----

    ghost predicate Matches(p: Part, ok: bool, level: nat, before: string)
      reads `pending, `flags, `output
    {
      match p
      case Part(ps, rest, l, f, _) => ok && pending == rest && level == l && flags == f && output == before + Render(ps)
      case _ => !ok
    }

    /** A line of a list after its indentation: its text, after a header if it begins an entry. */
    method ListEntry(level: nat, num: Option<nat>) returns (o: Outcome, num': Option<nat>, ghost ps: seq<Piece>)
      requires Valid() && qhead <= 1
      modifies `qhead, `input, `pending, `flags, `output, queue
      ensures Valid() && (o != Failed ==> qhead <= 1)
      ensures Continues(ListRest(old(pending), level, num, old(flags)), o, level, num', ps, old(pending), old(output))
    {
      num', ps := num, [];
      ghost var s := pending;
      var c := Getch();
      if c.None? {
        EmitNone(output);
        return Done, num', ps;
      }
      if c.value == INVALID {
        return Failed, num', ps;
      }
      if c.value == ' ' || c.value == '-' || c.value == '.' {
        var d := Getch();
        if d != Some(' ') {
          return Failed, num', ps;
        }
        assert pending == s[2..] && s[0] in " -.";
        if c.value == ' ' {
          o, ps := EntryText(level, num);
        } else {
          num' := NextNum(num);
          o, ps := Entry(level, num);
        }
        return o, num', ps;
      }
      ps := [Raw(".PD\n")];
      EmitOne(output, ps[0]);
      output := output + ".PD\n";
      Pushc(c);
      assert [s[0]] + s[1..] == s;
      return Done, num', ps;
    }

    /** `p` begins with what has been written as `ps`, and goes on, ends, or fails as `o` says. */
    ghost predicate Continues(p: Part, o: Outcome, level: nat, num: Option<nat>, ps: seq<Piece>,
                              s: string, before: string)
      reads `pending, `flags, `output
    {
      match o
      case Goes => |pending| < |s| && p == Append(ps, ListLines(pending, level, num, flags))
        && output == before + Render(ps)
      case Done => p == Part(ps, pending, level, flags, false) && output == before + Render(ps)
      case Failed => !p.Part?
      case AtTable => false
    }

    method EntryText(level: nat, num: Option<nat>) returns (o: Outcome, ghost ps: seq<Piece>)
      requires Valid() && qhead <= 1
      modifies `qhead, `input, `pending, `flags, `output, queue
      ensures Valid() && (o == Failed || (o == Goes && qhead <= 1))
      ensures |pending| <= |old(pending)| || o == Failed
      ensures ListText(old(pending), level, num, old(flags))
        == if o == Goes then Append(ps, ListLines(pending, level, num, flags)) else Fault
      ensures o == Goes ==> output == old(output) + Render(ps)
    {
      ghost var l := Lex(pending, true, ' ', flags);
      var ok := ParseText();
      ps := [];
      if !ok {
        return Failed, ps;
      }
      ps := [Raw(Out(l))];
      EmitOne(old(output), Raw(Out(l)));
      return Goes, ps;
    }

    method Entry(level: nat, num: Option<nat>) returns (o: Outcome, ghost ps: seq<Piece>)
      requires Valid() && qhead <= 1
      modifies `qhead, `input, `pending, `flags, `output, queue
      ensures Valid() && (o == Failed || (o == Goes && qhead <= 1))
      ensures |pending| <= |old(pending)| || o == Failed
      ensures Append([Raw(Header(num))], ListText(old(pending), level, NextNum(num), old(flags)))
           == if o == Goes then Append(ps, ListLines(pending, level, NextNum(num), flags)) else Fault
      ensures o == Goes ==> output == old(output) + Render(ps)
    {
      output := output + Header(num);
      EmitOne(old(output), Raw(Header(num)));
      o, ps := EntryText(level, NextNum(num));
      if o == Goes {
        AppendAppend([Raw(Header(num))], ps, ListLines(pending, level, NextNum(num), flags));
        EmitAll(old(output), [Raw(Header(num))], ps);
        ps := [Raw(Header(num))] + ps;
      }
    }

    /** One line of a list. */
    method ListLine(indent: nat, num: Option<nat>)
        returns (o: Outcome, level: nat, num': Option<nat>, ghost ps: seq<Piece>)
      requires Valid() && qhead <= 1
      modifies `qhead, `input, `pending, `flags, `output, queue
      ensures Valid() && (o != Failed ==> qhead <= 1)
      ensures Continues(ListLines(old(pending), indent, num, old(flags)), o, level, num', ps, old(pending), old(output))
    {
      ghost var i := IndentAt(pending, indent, true);
      var ok;
      num', ps := num, [];
      ok, level := ParseIndent(indent, true);
      if !ok {
        return Failed, level, num', ps;
      }
      ghost var qs;
      o, num', qs := ListEntry(level, num);
      ps := i.pieces + qs;
      EmitAll(old(output), i.pieces, qs);
      AppendAppend(i.pieces, qs, ListLines(pending, level, num', flags));
    }

    method ParseList(indent: nat, num: Option<nat>) returns (ok: bool, level: nat)
      requires Valid() && qhead <= 1
      modifies `qhead, `input, `pending, `flags, `output, queue
      ensures Valid() && (ok ==> qhead <= 1)
      ensures Matches(ListAt(old(pending), indent, num, old(flags)), ok, level, old(output))
    {
      level := indent;
      var c := Getch();
      if c != Some(' ') {
        return false, level;
      }
      output := output + ".PD 0\n";
      output := output + Header(num);
      ghost var ps := [Raw(".PD 0\n"), Raw(Header(num))];
      EmitTwo(old(output), ps[0], ps[1]);
      ghost var t, f, out := pending, flags, output;
      ok, level := ListTail(indent, NextNum(num));
      ghost var p := ListText(t, indent, NextNum(num), f);
      if ok {
        EmitAll(old(output), ps, p.pieces);
      }
    }

    /** A list after its first header. */
    method ListTail(indent: nat, num: Option<nat>) returns (ok: bool, level: nat)
      requires Valid() && qhead <= 1
      modifies `qhead, `input, `pending, `flags, `output, queue
      ensures Valid() && (ok ==> qhead <= 1)
      ensures Matches(ListText(old(pending), indent, num, old(flags)), ok, level, old(output))
    {
      level := indent;
      ghost var all := ListText(pending, indent, num, flags);
      ghost var ps;
      var o, n := Goes, num;
      o, ps := EntryText(level, n);
      if o == Failed {
        return false, level;
      }
      while true
        invariant Valid() && qhead <= 1
        invariant all == Append(ps, ListLines(pending, level, n, flags))
        invariant output == old(output) + Render(ps)
        decreases |pending|
      {
        ghost var qs;
        o, level, n, qs := ListLine(level, n);
        if o == Failed {
          return false, level;
        }
        EmitAll(old(output), ps, qs);
        if o == Done {
          return true, level;
        }
        AppendAppend(ps, qs, ListLines(pending, level, n, flags));
        ps := ps + qs;
      }
    }

    // ----- Literal blocks -----

    /** The indentation of a line in a literal block: what exceeds the block's is written as tabs. */
    method LiteralIndent(indent: nat) returns (ok: bool)
      requires Valid() && qhead <= 1
      modifies `qhead, `input, `pending, `output, queue
      ensures Valid() && qhead <= 1
      ensures var i := IndentAt(old(pending), indent, false);
        ok == (i.level >= indent) && pending == i.rest
        && (ok ==> output == old(output) + Repeat('\t', i.level - indent))
    {
      var level;
      ok, level := ParseIndent(indent, false);
      assert Render([]) == "" && output == old(output);
      if level < indent {
        return false;
      }
      ghost var n := level - indent;
      RepeatNone(output);
      while level > indent
        modifies `output
        invariant indent <= level <= indent + n
        invariant output == old(output) + Repeat('\t', n - (level - indent))
      {
        RepeatMore(old(output), '\t', n - (level - indent));
        level := level - 1;
        output := output + "\t";
      }
      return true;
    }

    /** Backquotes that did not close the block. */
    method Backquotes(stops: nat)
      modifies `output
      ensures output == old(output) + Repeat('`', stops)
    {
      var left: nat := stops;
      RepeatNone(output);
      while left != 0
        invariant left <= stops && output == old(output) + Repeat('`', stops - left)
        decreases left
      {
        RepeatMore(old(output), '`', stops - left);
        output := output + "`";
        left := left - 1;
      }
    }

    /** `p` begins with `ps`, which has been written, and goes on with the rest of the literal block. */
    ghost predicate LiteralGoes(p: Part, indent: nat, check: bool, stops: nat, ps: seq<Piece>, before: string)
      reads `pending, `flags, `output
    {
      stops < 3 && p == Append(ps, LiteralBody(pending, indent, check, stops, flags)) && output == before + Render(ps)
    }

    /** One character of a literal block other than a backquote. */
    method LiteralChar(c: char, indent: nat, stops: nat) returns (ok: bool, check: bool, ghost ps: seq<Piece>)
      requires Valid() && qhead <= 1 && c != '`' && c != INVALID && stops < 3
      modifies `qhead, `input, `pending, `output
      ensures Valid() && qhead <= old(qhead) && (ok ==> |pending| <= |old(pending)|)
      ensures var p := LiteralBody([c] + old(pending), indent, false, stops, flags);
        if ok then LiteralGoes(p, indent, check, 0, ps, old(output)) else !p.Part?
    {
      assert ([c] + pending)[1..] == pending;
      ghost var p := pending;
      Backquotes(stops);
      check := false;
      ps := [];
      if c == '\\' {
        var o := Escape();
        if o == Failed {
          return false, check, ps;
        }
        ghost var more := if p[0] == '\\' then "\\\\" else [p[0]];
        assert ([c] + p)[2..] == pending && ([c] + p)[1] == p[0];
        ps := [Raw(Repeat('`', stops)), Raw(more)];
        EmitTwo(old(output), ps[0], ps[1]);
      } else {
        ps := [Raw(Repeat('`', stops)), Raw(Literal(c))];
        EmitTwo(old(output), ps[0], ps[1]);
        output := output + (if c == '.' then "\\&.\0" else if c == '\'' then "\\&'" else [c]);
        check := c == '\n';
      }
      return true, check, ps;
    }

    method ParseLiteral(indent: nat) returns (ok: bool)
      requires Valid() && qhead <= 1
      modifies `qhead, `input, `pending, `output, queue
      ensures Valid() && qhead <= 1
      ensures Matches(LiteralAt(old(pending), indent, flags), ok, indent, old(output))
    {
      ghost var s := pending;
      ok := OpensLiteral();
      if !ok {
        return;
      }
      output := output + ".nf\n";
      output := output + ".RS 4\n";
      ghost var ps := [Raw(".nf\n"), Rs];
      EmitTwo(old(output), ps[0], ps[1]);
      ghost var t, out := pending, output;
      ok := LiteralTail(indent);
      if ok { EmitAll(old(output), ps, LiteralBody(t, indent, true, 0, flags).pieces); }
    }

    method OpensLiteral() returns (ok: bool)
      requires Valid() && qhead <= 1
      modifies `qhead, `input, `pending
      ensures Valid() && qhead <= old(qhead)
      ensures ok == ("``\n" <= old(pending)) && (ok ==> pending == old(pending)[3..])
    {
      ghost var s := pending;
      var c := Getch();
      if c != Some('`') {
        return false;
      }
      c := Getch();
      if c != Some('`') {
        return false;
      }
      c := Getch();
      if c != Some('\n') {
        return false;
      }
      assert s[..3] == "``\n" && s == s[..3] + s[3..];
      return true;
    }

    /** The body of a literal block, until three backquotes close it or the input ends. */
    method LiteralTail(indent: nat) returns (ok: bool)
      requires Valid() && qhead <= 1
      modifies `qhead, `input, `pending, `output, queue
      ensures Valid() && qhead <= 1
      ensures Matches(LiteralBody(old(pending), indent, true, 0, flags), ok, indent, old(output))
    {
      ghost var all := LiteralBody(pending, indent, true, 0, flags);
      var stops: nat, check, o := 0, true, Goes;
      ghost var ps: seq<Piece>, qs := [], [];
      EmitNone(output);
      AppendNone(all);
      while true
        invariant Valid() && qhead <= 1 && (check ==> stops == 0)
        invariant LiteralGoes(all, indent, check, stops, ps, old(output))
        decreases |pending|, check
      {
        if check {
          ok, qs := LiteralStart(indent);
          if !ok {
            return;
          }
          EmitAll(old(output), ps, qs);
          AppendAppend(ps, qs, LiteralBody(pending, indent, false, 0, flags));
          ps := ps + qs;
          check := false;
        }
        o, check, stops, qs := LiteralTurn(indent, stops);
        if o == Failed {
          return false;
        }
        EmitAll(old(output), ps, qs);
        if o == Done {
          return true;
        }
        AppendAppend(ps, qs, LiteralBody(pending, indent, check, stops, flags));
        ps := ps + qs;
      }
    }

    method LiteralStart(indent: nat) returns (ok: bool, ghost ps: seq<Piece>)
      requires Valid() && qhead <= 1
      modifies `qhead, `input, `pending, `output, queue
      ensures Valid() && qhead <= 1 && |pending| <= |old(pending)|
      ensures var p := LiteralBody(old(pending), indent, true, 0, flags);
        if ok then LiteralGoes(p, indent, false, 0, ps, old(output)) else p == Fault
    {
      ghost var i := IndentAt(pending, indent, false);
      ok := LiteralIndent(indent);
      ps := [];
      if ok {
        ps := [Raw(Repeat('\t', i.level - indent))];
        EmitOne(old(output), ps[0]);
      }
    }

    /** One character of a literal block, when `stops` backquotes stand before it. */
    method LiteralTurn(indent: nat, stops: nat) returns (o: Outcome, check: bool, stops': nat, ghost ps: seq<Piece>)
      requires Valid() && qhead <= 1 && stops < 3
      modifies `qhead, `input, `pending, `output
      ensures Valid() && qhead <= 1 && (check ==> stops' == 0)
      ensures var p := LiteralBody(old(pending), indent, false, stops, flags);
        match o
        case Goes => |pending| < |old(pending)| && LiteralGoes(p, indent, check, stops', ps, old(output))
        case Done => output == old(output) + Render(ps) && p.Part? && p == Part(ps, pending, indent, flags, p.unclosed)
        case Failed => !p.Part?
        case AtTable => false
    {
      ghost var s := pending;
      check, stops', ps := false, stops, [];
      EmitNone(output);
      var c := Getch();
      if c.None? {
        return Done, check, stops', ps;
      }
      if c.value == INVALID {
        return Failed, check, stops', ps;
      }
      if c.value == '`' {
        stops' := stops + 1;
        if stops' == 3 {
          c := Getch();
          if c != Some('\n') {
            return Failed, check, stops', ps;
          }
          assert pending == s[2..];
          output := output + ".fi\n";
          output := output + ".RE\n";
          ps := [Raw(".fi\n"), Re];
          EmitTwo(old(output), ps[0], ps[1]);
          return Done, check, stops', ps;
        }
        AppendNone(LiteralBody(pending, indent, false, stops', flags));
        return Goes, check, stops', ps;
      }
      assert [c.value] + pending == s;
      var ok;
      ok, check, ps := LiteralChar(c.value, indent, stops);
      return if ok then Goes else Failed, check && ok, if ok then 0 else stops, ps;
    }

    // ----- The document -----

    /** A block, from its first character on. */
    method ParseBlock(c: char, indent: nat) returns (o: Outcome, level: nat)
      requires Valid() && qhead == 0
      modifies `qhead, `input, `pending, `flags, `output, queue
      ensures Valid() && (o == Goes || o == Done ==> qhead <= 1)
      ensures var b := BlockAt([c] + old(pending), indent, old(flags));
        match b.part
        case Fault => o == Failed
        case Table => o == AtTable
        case Part(_, _, _, _, _) => o == (if b.goesOn then Goes else Done) && Matches(b.part, true, level, old(output))
    {
      ghost var s := [c] + pending;
      assert s[1..] == pending && s[0] == c;
      level := indent;
      var ok := true;
      EmitNone(output);
      if c == INVALID {
        return Failed, level;
      } else if c == ';' {
        var d := Getch();
        if d != Some(' ') {
          return Failed, level;
        }
        var goesOn := ParseComment();
        return if goesOn then Goes else Done, level;
      } else if c == '#' && indent == 0 {
        ok := ParseHeading();
      } else if c == '-' {
        ok, level := ParseList(indent, None);
      } else if c == '.' {
        o, level := AfterDot(indent);
        return o, level;
      } else if c == '`' {
        ok := ParseLiteral(indent);
      } else if c == '[' || c == '|' || c == ']' {
        return if indent != 0 then Failed else AtTable, level;
      } else if c == ' ' {
        // only a message is printed
      } else if c == '\n' {
        if flags != 0 {
          return Failed, level;
        }
        EmitOne(output, Raw(".PP\n"));
        output := output + ".PP\n";
      } else {
        Pushc(Some(c));
        ok := TextBlock(indent);
      }
      return if ok then Goes else Failed, level;
    }

    method TextBlock(ghost indent: nat) returns (ok: bool)
      requires Valid() && qhead <= 1
      modifies `qhead, `input, `pending, `flags, `output, queue
      ensures Valid() && (ok ==> qhead <= 1)
      ensures Matches(TextAt(old(pending), indent, old(flags)), ok, indent, old(output))
    {
      ghost var l := Lex(pending, true, ' ', flags);
      ok := ParseText();
      if ok { EmitOne(old(output), Raw(Out(l))); }
    }

    /** A dot begins a numbered list before a blank; anywhere else it is dropped. */
    method AfterDot(indent: nat) returns (o: Outcome, level: nat)
      requires Valid() && qhead == 0
      modifies `qhead, `input, `pending, `flags, `output, queue
      ensures Valid() && (o == Goes || o == Done ==> qhead <= 1)
      ensures var b := BlockAt("." + old(pending), indent, old(flags));
        match b.part
        case Fault => o == Failed
        case Table => false
        case Part(_, _, _, _, _) => o == (if b.goesOn then Goes else Done) && Matches(b.part, true, level, old(output))
    {
      ghost var t := pending;
      BlockAfterDot(t, indent, flags);
      level := indent;
      var ok;
      var c := Getch();
      Pushc(c);
      if c == Some(' ') {
        assert [t[0]] + t[1..] == t;
        ok, level := ParseList(indent, Some(1));
        return if ok then Goes else Failed, level;
      }
      ok := TextBlock(indent);
      return if !ok then Failed else if c.None? || c.value == INVALID then Done else Goes, level;
    }

    /** The blocks of a document, until it ends. */
    method ParseDocument() returns (o: Outcome, level: nat)
      requires Valid() && qhead <= 1
      modifies `qhead, `input, `pending, `flags, `output, queue
      ensures match Document(old(pending), 0, old(flags))
              case Fault => o == Failed
              case Table => o == AtTable
              case Part(ps, rest, l, f, _) =>
                o == Done && pending == rest && level == l && flags == f && output == old(output) + Render(ps)
    {
      level := 0;
      ghost var all := Document(pending, 0, flags);
      ghost var ps: seq<Piece>, unclosed := [], false;
      EmitNone(output);
      JoinNone(all);
      while true
        invariant Valid() && qhead <= 1
        invariant all == Join(ps, unclosed, Document(pending, level, flags))
        invariant output == old(output) + Render(ps)
        decreases |pending|
      {
        ghost var qs, more;
        o, level, qs, more := DocumentTurn(level);
        if o == Failed || o == AtTable {
          return;
        }
        EmitAll(old(output), ps, qs);
        if o == Done {
          return;
        }
        JoinJoin(ps, unclosed, qs, more, Document(pending, level, flags));
        ps, unclosed := ps + qs, unclosed || more;
      }
    }

    /** One turn of the loop over the blocks. */
    method DocumentTurn(indent: nat) returns (o: Outcome, level: nat, ghost ps: seq<Piece>, ghost unclosed: bool)
      requires Valid() && qhead <= 1
      modifies `qhead, `input, `pending, `flags, `output, queue
      ensures Valid() && (o == Goes || o == Done ==> qhead <= 1)
      ensures var d := Document(old(pending), indent, old(flags));
        match o
        case Goes => |pending| < |old(pending)| && d == Join(ps, unclosed, Document(pending, level, flags))
        case Done => d == Part(ps, pending, level, flags, unclosed)
        case Failed => d == Fault
        case AtTable => d == Table
      ensures o == Goes || o == Done ==> output == old(output) + Render(ps)
    {
      ghost var i := IndentAt(pending, indent, true);
      ps, unclosed := [], false;
      var ok;
      ok, level := ParseIndent(indent, true);
      if !ok {
        return Failed, level, ps, unclosed;
      }
      ps := i.pieces;
      ghost var s, at, f := pending, level, flags;
      var c := Getch();
      if c.None? {
        return Done, level, ps, unclosed;
      }
      assert [c.value] + pending == s;
      o, level := ParseBlock(c.value, level);
      ghost var b := BlockAt(s, at, f);
      if b.part.Part? {
        EmitAll(old(output), ps, b.part.pieces);
        ps, unclosed := ps + b.part.pieces, b.part.unclosed;
      }
    }
  }
}
