/** The blocks of a document: indentation, lists, literal blocks, headings, comments and text. */
module ScdocDoc {
  import opened Scdoc

  /** What the translator writes: it opens and closes an indentation level, or writes anything else. */
  datatype Piece = Rs | Re | Raw(text: string)

  function Written(p: Piece): string {
    match p
    case Rs => ".RS 4\n"
    case Re => ".RE\n"
    case Raw(text) => text
  }

  function Render(ps: seq<Piece>): string { if ps == [] then "" else Written(ps[0]) + Render(ps[1..]) }

  /** A part of a document, translated.  `unclosed` tells of a literal block that the input ended in. */
  datatype Part = Part(pieces: seq<Piece>, rest: string, indent: nat, flags: bv8, unclosed: bool) | Fault | Table

  function Append(ps: seq<Piece>, p: Part): Part { if p.Part? then p.(pieces := ps + p.pieces) else p }

  // ----- Text and indentation -----

  function Out(l: Line): string
    requires l.Line?
  {
    Outputs(l.units) + Tail(l.newline, "")
  }

  function TextAt(s: string, indent: nat, flags: bv8): (p: Part)
    ensures !p.Table?
    ensures p.Part? ==> |p.rest| <= |s| && (s != "" ==> |p.rest| < |s|)
  {
    var l := Lex(s, true, ' ', flags);
    if l.Error? then Fault else Part([Raw(Out(l))], l.rest, indent, l.flags, false)
  }

  function Tabs(s: string): (n: nat)
    ensures n <= |s|
  {
    if s != "" && s[0] == '\t' then 1 + Tabs(s[1..]) else 0
  }

  function Closes(n: nat): seq<Piece> { if n == 0 then [] else [Re] + Closes(n - 1) }

  datatype Indented = Indented(level: nat, pieces: seq<Piece>, rest: string) | TooDeep

  /** Empty lines and the end keep the level, unless it is zero. */
  function IndentAt(s: string, indent: nat, write: bool): (r: Indented)
    ensures r.Indented? ==> |r.rest| <= |s|
    ensures !write ==> r.Indented?
  {
    var i := Tabs(s);
    var t := s[i..];
    var rest := if t == "" then t else Unread(t[0], t[1..]);
    if (t == "" || t[0] == '\n' || t[0] == INVALID) && indent != 0 then Indented(indent, [], rest)
    else if !write then Indented(i, [], rest)
    else if i > indent + 1 then TooDeep
    else Indented(i, if i < indent then Closes(indent - i) else if i == indent + 1 then [Rs] else [], rest)
  }

  // ----- Lists -----

  function Decimal(n: nat): string {
    if n < 10 then [(48 + n) as char] else Decimal(n / 10) + [(48 + n % 10) as char]
  }

  /** A list counts its entries from `num`, or has bullets when there is no number. */
  function Header(num: Option<nat>): string {
    match num case None => ".IP \\(bu 4\n" case Some(n) => ".IP " + Decimal(n) + ". 4\n"
  }

  function NextNum(num: Option<nat>): Option<nat> {
    match num case None => None case Some(n) => Some(n + 1)
  }

  /** The lines of a list, from the indentation of one of them on. */
  function ListLines(s: string, indent: nat, num: Option<nat>, flags: bv8): (p: Part)
    ensures !p.Table?
    ensures p.Part? ==> |p.rest| <= |s|
    decreases |s|, 1
  {
    match IndentAt(s, indent, true)
    case TooDeep => Fault
    case Indented(level, ps, t) => Append(ps, ListRest(t, level, num, flags))
  }

  function ListRest(s: string, level: nat, num: Option<nat>, flags: bv8): (p: Part)
    ensures !p.Table?
    ensures p.Part? ==> |p.rest| <= |s|
    decreases |s|, 0
  {
    if s == "" then Part([], "", level, flags, false)
    else if s[0] == INVALID then Fault
    else if s[0] in " -." then
      if |s| == 1 || s[1] != ' ' then Fault
      else if s[0] == ' ' then ListText(s[2..], level, num, flags)
      else Append([Raw(Header(num))], ListText(s[2..], level, NextNum(num), flags))
    else Part([Raw(".PD\n")], s, level, flags, false)
  }

  function ListText(s: string, indent: nat, num: Option<nat>, flags: bv8): (p: Part)
    ensures !p.Table?
    ensures p.Part? ==> |p.rest| <= |s|
    decreases |s|, 2
  {
    var l := Lex(s, true, ' ', flags);
    if l.Error? then Fault else Append([Raw(Out(l))], ListLines(l.rest, indent, num, l.flags))
  }

  function ListAt(s: string, indent: nat, num: Option<nat>, flags: bv8): (p: Part)
    ensures !p.Table?
    ensures p.Part? ==> |p.rest| <= |s|
  {
    if s == "" || s[0] != ' ' then Fault
    else Append([Raw(".PD 0\n"), Raw(Header(num))], ListText(s[1..], indent, NextNum(num), flags))
  }

  // ----- Literal blocks -----

  function Repeat(c: char, n: nat): string { if n == 0 then "" else [c] + Repeat(c, n - 1) }

  /** What one character of a literal block is written as; four bytes are written for a dot, the last of them NUL. */
  function Literal(c: char): string {
    if c == '.' then "\\&.\0" else if c == '\'' then "\\&'" else [c]
  }

  /** What an escaped character of a literal block is written as. */
  function LiteralEscape(c: char): string { if c == '\\' then "\\\\" else [c] }

  /** The body of a literal block; `stops` backquotes have been read and not written. */
  function LiteralBody(s: string, indent: nat, check: bool, stops: nat, flags: bv8): (p: Part)
    requires stops < 3
    ensures !p.Table?
    ensures p.Part? ==> |p.rest| <= |s|
    decreases |s|, check
  {
    if check then
      var i := IndentAt(s, indent, false);
      if i.level < indent then Fault
      else Append([Raw(Repeat('\t', i.level - indent))], LiteralBody(i.rest, indent, false, stops, flags))
    else if s == "" then Part([], "", indent, flags, true)
    else if s[0] == INVALID then Fault
    else if s[0] == '`' then
      if stops < 2 then LiteralBody(s[1..], indent, false, stops + 1, flags)
      else if |s| == 1 || s[1] != '\n' then Fault
      else Part([Raw(".fi\n"), Re], s[2..], indent, flags, false)
    else if s[0] == '\\' then
      if |s| == 1 || s[1] == INVALID then Fault
      else Append([Raw(Repeat('`', stops)), Raw(LiteralEscape(s[1]))],
                  LiteralBody(s[2..], indent, false, 0, flags))
    else
      Append([Raw(Repeat('`', stops)), Raw(Literal(s[0]))], LiteralBody(s[1..], indent, s[0] == '\n', 0, flags))
  }

  function LiteralAt(s: string, indent: nat, flags: bv8): (p: Part)
    ensures !p.Table?
    ensures p.Part? ==> |p.rest| <= |s|
  {
    if !("``\n" <= s) then Fault
    else Append([Raw(".nf\n"), Rs], LiteralBody(s[3..], indent, true, 0, flags))
  }

  // ----- Headings and comments -----

  datatype Level = Level(level: nat, rest: string) | NoLevel

  function HeadingLevel(s: string, level: nat): (r: Level)
    ensures r.Level? ==> |r.rest| <= |s|
  {
    if s == "" then Level(level, "")
    else if s[0] == '#' then HeadingLevel(s[1..], level + 1)
    else if s[0] == ' ' then Level(level, s[1..])
    else NoLevel
  }

  datatype Copied = Copied(text: string, rest: string) | NotCopied

  function CopyLine(s: string): (r: Copied)
    ensures r.Copied? ==> |r.rest| <= |s|
  {
    if s == "" then Copied("", "")
    else if s[0] == INVALID then NotCopied
    else if s[0] == '\n' then Copied("\n", s[1..])
    else
      var r := CopyLine(s[1..]);
      if r.NotCopied? then r else r.(text := [s[0]] + r.text)
  }

  function HeadingAt(s: string, indent: nat, flags: bv8): (p: Part)
    ensures !p.Table?
    ensures p.Part? ==> |p.rest| <= |s|
  {
    match HeadingLevel(s, 1)
    case NoLevel => Fault
    case Level(level, t) =>
      if level > 2 then Fault
      else
        match CopyLine(t)
        case NotCopied => Fault
        case Copied(text, rest) =>
          Part([Raw(if level == 1 then ".SH " else ".SS "), Raw(text)], rest, indent, flags, false)
  }

  /** What follows a comment, and whether the document goes on. */
  function Comment(s: string): (r: (string, bool))
    ensures |r.0| <= |s|
  {
    if s == "" then ("", false)
    else if s[0] == INVALID then (s[1..], false)
    else if s[0] == '\n' then (s[1..], true)
    else Comment(s[1..])
  }

  // ----- The document -----

  datatype Block = Block(part: Part, goesOn: bool)

  function BlockAt(s: string, indent: nat, flags: bv8): (b: Block)
    requires s != ""
    ensures b.part.Part? ==> |b.part.rest| < |s|
  {
    var c, t := s[0], s[1..];
    if c == INVALID then Block(Fault, true)
    else if c == ';' then
      if t == "" || t[0] != ' ' then Block(Fault, true)
      else Block(Part([], Comment(t[1..]).0, indent, flags, false), Comment(t[1..]).1)
    else if c == '#' then Block(if indent != 0 then TextAt(s, indent, flags) else HeadingAt(t, indent, flags), true)
    else if c == '-' then Block(ListAt(t, indent, None, flags), true)
    else if c == '.' then
      if t != "" && t[0] == ' ' then Block(ListAt(t, indent, Some(1), flags), true)
      else Block(TextAt(if t == "" then t else Unread(t[0], t[1..]), indent, flags), t != "" && t[0] != INVALID)
    else if c == '`' then Block(LiteralAt(t, indent, flags), true)
    else if c in "[|]" then Block(if indent != 0 then Fault else Table, true)
    else if c == ' ' then Block(Part([], t, indent, flags, false), true)
    else if c == '\n' then
      Block(if flags != 0 then Fault else Part([Raw(".PP\n")], t, indent, flags, false), true)
    else Block(TextAt(s, indent, flags), true)
  }

  lemma BlockAfterDot(t: string, indent: nat, flags: bv8)
    ensures BlockAt("." + t, indent, flags)
         == if t != "" && t[0] == ' ' then Block(ListAt(t, indent, Some(1), flags), true)
            else Block(TextAt(if t == "" then t else Unread(t[0], t[1..]), indent, flags), t != "" && t[0] != INVALID)
  {
    assert ("." + t)[1..] == t;
  }

  function Join(ps: seq<Piece>, unclosed: bool, more: Part): Part {
    if more.Part? then more.(pieces := ps + more.pieces, unclosed := unclosed || more.unclosed) else more
  }

  function Document(s: string, indent: nat, flags: bv8): Part
    decreases |s|
  {
    match IndentAt(s, indent, true)
    case TooDeep => Fault
    case Indented(level, ps, t) =>
      if t == "" then Part(ps, "", level, flags, false)
      else
        var b := BlockAt(t, level, flags);
        if !b.part.Part? then b.part
        else if !b.goesOn then Append(ps, b.part)
        else
          var more := Document(b.part.rest, b.part.indent, b.part.flags);
          Join(ps + b.part.pieces, b.part.unclosed, more)
  }

  // ----- Indentation is balanced -----

  /** The level after a run of pieces, or nothing when more is closed than is open at some point. */
  function Nest(ps: seq<Piece>, depth: nat): Option<nat> {
    if ps == [] then Some(depth)
    else match ps[0]
      case Rs => Nest(ps[1..], depth + 1)
      case Re => if depth == 0 then None else Nest(ps[1..], depth - 1)
      case Raw(_) => Nest(ps[1..], depth)
  }

  lemma {:induction false} NestAppend(a: seq<Piece>, b: seq<Piece>, depth: nat)
    requires Nest(a, depth).Some?
    ensures Nest(a + b, depth) == Nest(b, Nest(a, depth).value)
    decreases |a|
  {
    if a == [] {
      assert a + b == b;
    } else {
      assert (a + b)[1..] == a[1..] + b;
      NestAppend(a[1..], b, match a[0] case Rs => depth + 1 case Re => depth - 1 case Raw(_) => depth);
    }
  }

  lemma {:induction false} NestCloses(n: nat, depth: nat)
    requires n <= depth
    ensures Nest(Closes(n), depth) == Some(depth - n)
    decreases n
  {
    if n > 0 {
      assert Closes(n)[1..] == Closes(n - 1);
      NestCloses(n - 1, depth - 1);
    }
  }

  /** A written indentation rises by one level at most, and what is written moves to exactly that level. */
  lemma IndentBalanced(s: string, indent: nat)
    requires IndentAt(s, indent, true).Indented?
    ensures var i := IndentAt(s, indent, true); i.level <= indent + 1 && Nest(i.pieces, indent) == Some(i.level)
  {
    var i := IndentAt(s, indent, true);
    if i.level < indent { NestCloses(indent - i.level, indent); }
    assert [Rs][1..] == [];
  }

  function Bonus(unclosed: bool): nat { if unclosed then 1 else 0 }

  predicate Balanced(p: Part, indent: nat) {
    p.Part? ==> Nest(p.pieces, indent) == Some(p.indent + Bonus(p.unclosed)) && (p.unclosed ==> p.rest == "")
  }

  lemma NestRaw(ps: seq<Piece>, depth: nat)
    requires |ps| <= 2 && forall p <- ps :: p.Raw?
    ensures Nest(ps, depth) == Some(depth)
  {
    if ps != [] {
      assert ps[0] in ps;
      if |ps| == 2 { assert ps[1] in ps && ps[1..][0] == ps[1] && ps[1..][1..] == []; }
    }
  }

  lemma AppendBalanced(ps: seq<Piece>, p: Part, indent: nat, level: nat)
    requires Nest(ps, indent) == Some(level) && Balanced(p, level)
    ensures Balanced(Append(ps, p), indent)
  {
    if p.Part? { NestAppend(ps, p.pieces, indent); }
  }

  lemma RawBalanced(ps: seq<Piece>, p: Part, indent: nat)
    requires |ps| <= 2 && (forall q <- ps :: q.Raw?) && Balanced(p, indent)
    ensures Balanced(Append(ps, p), indent)
  {
    NestRaw(ps, indent);
    AppendBalanced(ps, p, indent, indent);
  }

  lemma {:induction false} ListBalanced(s: string, indent: nat, num: Option<nat>, flags: bv8)
    ensures Balanced(ListLines(s, indent, num, flags), indent)
    decreases |s|, 1
  {
    var i := IndentAt(s, indent, true);
    if i.Indented? {
      IndentBalanced(s, indent);
      ListRestBalanced(i.rest, i.level, num, flags);
      AppendBalanced(i.pieces, ListRest(i.rest, i.level, num, flags), indent, i.level);
    }
  }

  lemma {:induction false} ListRestBalanced(s: string, level: nat, num: Option<nat>, flags: bv8)
    ensures Balanced(ListRest(s, level, num, flags), level)
    decreases |s|, 0
  {
    if |s| > 1 && s[0] in " -." && s[1] == ' ' {
      ListTextBalanced(s[2..], level, if s[0] == ' ' then num else NextNum(num), flags);
      RawBalanced([Raw(Header(num))], ListText(s[2..], level, if s[0] == ' ' then num else NextNum(num), flags), level);
    } else {
      NestRaw([Raw(".PD\n")], level);
    }
  }

  lemma {:induction false} ListTextBalanced(s: string, level: nat, num: Option<nat>, flags: bv8)
    ensures Balanced(ListText(s, level, num, flags), level)
    decreases |s|, 2
  {
    var l := Lex(s, true, ' ', flags);
    if l.Line? {
      ListBalanced(l.rest, level, num, l.flags);
      RawBalanced([Raw(Out(l))], ListLines(l.rest, level, num, l.flags), level);
    }
  }

  lemma NestPair(text: string, depth: nat)
    ensures Nest([Raw(text), Rs], depth) == Some(depth + 1)
    ensures Nest([Raw(text), Re], depth + 1) == Some(depth)
  {
    assert [Raw(text), Rs][1..] == [Rs] && [Raw(text), Re][1..] == [Re];
    assert Nest([Rs], depth) == Some(depth + 1) && Nest([Re], depth + 1) == Some(depth);
  }

  predicate BodyBalanced(p: Part, indent: nat) {
    p.Part? ==>
      && p.indent == indent && (p.unclosed ==> p.rest == "")
      && Nest(p.pieces, indent + 1) == Some(indent + Bonus(p.unclosed))
  }

  lemma Prefixed(ps: seq<Piece>, p: Part, indent: nat)
    requires |ps| <= 2 && (forall q <- ps :: q.Raw?) && BodyBalanced(p, indent)
    ensures BodyBalanced(Append(ps, p), indent)
  {
    if p.Part? {
      NestRaw(ps, indent + 1);
      NestAppend(ps, p.pieces, indent + 1);
    }
  }

  /** The body of a literal block closes the level its opening line opened, unless the input ends first. */
  lemma {:induction false} LiteralBalanced(s: string, indent: nat, check: bool, stops: nat, flags: bv8)
    requires stops < 3
    ensures BodyBalanced(LiteralBody(s, indent, check, stops, flags), indent)
    decreases |s|, check
  {
    if check {
      var i := IndentAt(s, indent, false);
      if i.level >= indent {
        LiteralBalanced(i.rest, indent, false, stops, flags);
        Prefixed([Raw(Repeat('\t', i.level - indent))], LiteralBody(i.rest, indent, false, stops, flags), indent);
      }
    } else if s == "" || s[0] == INVALID {
    } else if s[0] == '`' {
      if stops < 2 {
        LiteralBalanced(s[1..], indent, false, stops + 1, flags);
      } else {
        NestPair(".fi\n", indent);
      }
    } else if s[0] == '\\' {
      if |s| > 1 && s[1] != INVALID {
        LiteralBalanced(s[2..], indent, false, 0, flags);
        Prefixed([Raw(Repeat('`', stops)), Raw(LiteralEscape(s[1]))],
                 LiteralBody(s[2..], indent, false, 0, flags), indent);
      }
    } else {
      LiteralBalanced(s[1..], indent, s[0] == '\n', 0, flags);
      Prefixed([Raw(Repeat('`', stops)), Raw(Literal(s[0]))],
               LiteralBody(s[1..], indent, s[0] == '\n', 0, flags), indent);
    }
  }

  lemma LiteralAtBalanced(s: string, indent: nat, flags: bv8)
    ensures Balanced(LiteralAt(s, indent, flags), indent)
  {
    if "``\n" <= s {
      LiteralBalanced(s[3..], indent, true, 0, flags);
      var ps := [Raw(".nf\n"), Rs];
      NestPair(".nf\n", indent);
      var p := LiteralBody(s[3..], indent, true, 0, flags);
      if p.Part? { NestAppend(ps, p.pieces, indent); }
    }
  }

  lemma ListAtBalanced(s: string, indent: nat, num: Option<nat>, flags: bv8)
    ensures Balanced(ListAt(s, indent, num, flags), indent)
  {
    if s != "" && s[0] == ' ' {
      ListTextBalanced(s[1..], indent, NextNum(num), flags);
      RawBalanced([Raw(".PD 0\n"), Raw(Header(num))], ListText(s[1..], indent, NextNum(num), flags), indent);
    }
  }

  lemma TextAtBalanced(s: string, indent: nat, flags: bv8)
    ensures Balanced(TextAt(s, indent, flags), indent)
  {
    var p := TextAt(s, indent, flags);
    if p.Part? { NestRaw(p.pieces, indent); }
  }

  lemma HeadingAtBalanced(s: string, indent: nat, flags: bv8)
    ensures Balanced(HeadingAt(s, indent, flags), indent)
  {
    var p := HeadingAt(s, indent, flags);
    if p.Part? { NestRaw(p.pieces, indent); }
  }

  lemma BlockBalanced(s: string, indent: nat, flags: bv8)
    requires s != ""
    ensures Balanced(BlockAt(s, indent, flags).part, indent)
  {
    var t := s[1..];
    if s[0] == '-' {
      ListAtBalanced(t, indent, None, flags);
    } else if s[0] == '.' {
      ListAtBalanced(t, indent, Some(1), flags);
      TextAtBalanced(if t == "" then t else Unread(t[0], t[1..]), indent, flags);
    } else if s[0] == '`' {
      LiteralAtBalanced(t, indent, flags);
    } else if s[0] == '\n' {
      NestRaw([Raw(".PP\n")], indent);
    } else if s[0] == '#' {
      HeadingAtBalanced(t, indent, flags);
      TextAtBalanced(s, indent, flags);
    } else {
      TextAtBalanced(s, indent, flags);
    }
  }

  /** Over a whole document what is open is the current level, and nothing is closed that is not open;
      only a literal block that the input ends in leaves one more. */
  lemma {:induction false} DocumentBalanced(s: string, indent: nat, flags: bv8)
    ensures Balanced(Document(s, indent, flags), indent)
    decreases |s|
  {
    var i := IndentAt(s, indent, true);
    if i.Indented? {
      IndentBalanced(s, indent);
      if i.rest != "" {
        var b := BlockAt(i.rest, i.level, flags);
        BlockFollows(i.rest, indent, i.level, flags, i.pieces);
        if b.part.Part? && b.goesOn {
          DocumentBalanced(b.part.rest, b.part.indent, b.part.flags);
          if b.part.unclosed { EmptyDocument(b.part.rest, b.part.indent, b.part.flags); }
          JoinBalanced(i.pieces, b.part, Document(b.part.rest, b.part.indent, b.part.flags), indent);
        }
      }
    }
  }

  lemma BlockFollows(s: string, indent: nat, level: nat, flags: bv8, ps: seq<Piece>)
    requires s != "" && Nest(ps, indent) == Some(level)
    ensures Balanced(Append(ps, BlockAt(s, level, flags).part), indent)
  {
    BlockBalanced(s, level, flags);
    AppendBalanced(ps, BlockAt(s, level, flags).part, indent, level);
  }

  lemma EmptyDocument(s: string, indent: nat, flags: bv8)
    requires s == ""
    ensures Document(s, indent, flags) == Part([], "", indent, flags, false)
  {
  }

  lemma JoinBalanced(ps: seq<Piece>, b: Part, more: Part, indent: nat)
    requires b.Part? && Balanced(Append(ps, b), indent) && Balanced(more, b.indent)
    requires b.unclosed ==> more == Part([], "", b.indent, b.flags, false)
    ensures Balanced(Join(ps + b.pieces, b.unclosed, more), indent)
  {
    if more.Part? {
      NestAppend(ps + b.pieces, more.pieces, indent);
      assert Nest([], b.indent + 1) == Some(b.indent + 1);
    }
  }

  // ----- Fonts across lines -----

  lemma {:induction false} LexOneFont(s: string, first: bool, last: char, flags: bv8)
    requires OneFont(flags) && Lex(s, first, last, flags).Line?
    ensures OneFont(Lex(s, first, last, flags).flags)
    decreases |s|
  {
    match Take(s, first, last, flags) {
      case Go(u, rest) => LexOneFont(rest, false, Last(u, last), After(u, flags));
      case _ =>
    }
  }

  predicate EndsOneFont(p: Part) { p.Part? ==> OneFont(p.flags) }

  lemma {:induction false} ListOneFont(s: string, indent: nat, num: Option<nat>, flags: bv8)
    requires OneFont(flags)
    ensures EndsOneFont(ListLines(s, indent, num, flags))
    decreases |s|, 1
  {
    var i := IndentAt(s, indent, true);
    if i.Indented? {
      var t := i.rest;
      if |t| > 1 && t[0] in " -." && t[1] == ' ' {
        ListTextOneFont(t[2..], i.level, if t[0] == ' ' then num else NextNum(num), flags);
      }
    }
  }

  lemma {:induction false} ListTextOneFont(s: string, indent: nat, num: Option<nat>, flags: bv8)
    requires OneFont(flags)
    ensures EndsOneFont(ListText(s, indent, num, flags))
    decreases |s|, 2
  {
    var l := Lex(s, true, ' ', flags);
    if l.Line? {
      LexOneFont(s, true, ' ', flags);
      ListOneFont(l.rest, indent, num, l.flags);
    }
  }

  lemma {:induction false} LiteralKeepsFont(s: string, indent: nat, check: bool, stops: nat, flags: bv8)
    requires stops < 3
    ensures var p := LiteralBody(s, indent, check, stops, flags); p.Part? ==> p.flags == flags
    decreases |s|, check
  {
    if check {
      var i := IndentAt(s, indent, false);
      if i.level >= indent { LiteralKeepsFont(i.rest, indent, false, stops, flags); }
    } else if s == "" || s[0] == INVALID {
    } else if s[0] == '`' {
      if stops < 2 { LiteralKeepsFont(s[1..], indent, false, stops + 1, flags); }
    } else if s[0] == '\\' {
      if |s| > 1 { LiteralKeepsFont(s[2..], indent, false, 0, flags); }
    } else {
      LiteralKeepsFont(s[1..], indent, s[0] == '\n', 0, flags);
    }
  }

  lemma TextAtOneFont(s: string, indent: nat, flags: bv8)
    requires OneFont(flags)
    ensures EndsOneFont(TextAt(s, indent, flags))
  {
    if Lex(s, true, ' ', flags).Line? { LexOneFont(s, true, ' ', flags); }
  }

  lemma ListAtOneFont(s: string, indent: nat, num: Option<nat>, flags: bv8)
    requires OneFont(flags)
    ensures EndsOneFont(ListAt(s, indent, num, flags))
  {
    if s != "" && s[0] == ' ' { ListTextOneFont(s[1..], indent, NextNum(num), flags); }
  }

  lemma LiteralAtKeepsFont(s: string, indent: nat, flags: bv8)
    ensures LiteralAt(s, indent, flags).Part? ==> LiteralAt(s, indent, flags).flags == flags
  {
    if "``\n" <= s { LiteralKeepsFont(s[3..], indent, true, 0, flags); }
  }

  lemma BlockOneFont(s: string, indent: nat, flags: bv8)
    requires s != "" && OneFont(flags)
    ensures EndsOneFont(BlockAt(s, indent, flags).part)
  {
    var t := s[1..];
    if s[0] == '-' {
      ListAtOneFont(t, indent, None, flags);
    } else if s[0] == '.' {
      ListAtOneFont(t, indent, Some(1), flags);
      TextAtOneFont(if t == "" then t else Unread(t[0], t[1..]), indent, flags);
    } else if s[0] == '`' {
      LiteralAtKeepsFont(t, indent, flags);
    } else {
      TextAtOneFont(s, indent, flags);
    }
  }

  /** At most one font is open after any document. */
  lemma {:induction false} DocumentOneFont(s: string, indent: nat, flags: bv8)
    requires OneFont(flags)
    ensures EndsOneFont(Document(s, indent, flags))
    decreases |s|
  {
    if IndentAt(s, indent, true).Indented? {
      var i := IndentAt(s, indent, true);
      if i.rest != "" {
        BlockOneFont(i.rest, i.level, flags);
        var b := BlockAt(i.rest, i.level, flags);
        if b.part.Part? && b.goesOn { DocumentOneFont(b.part.rest, b.part.indent, b.part.flags); }
      }
    }
  }

  // ----- What a paragraph shows -----

  /** Outside words one last character is as good as another. */
  lemma {:induction false} LexSameLast(s: string, first: bool, a: char, b: char, flags: bv8)
    requires !Alnum(a) && !Alnum(b)
    ensures Lex(s, first, a, flags) == Lex(s, first, b, flags)
    decreases |s|
  {
    assert Take(s, first, a, flags) == Take(s, first, b, flags);
    match Take(s, first, a, flags) {
      case Go(u, rest) =>
        if !(Last(u, a) == Last(u, b)) { LexSameLast(rest, false, a, b, After(u, flags)); }
      case _ =>
    }
  }

  /** What a line shows when it is read as text. */
  function Resolved(l: Line): string
    requires l.Line?
  {
    Text(l.units) + Tail(l.newline, "")
  }

  predicate SameText(l: Line, m: Line) {
    if l.Error? then m.Error? else m.Line? && l.rest == m.rest && l.flags == m.flags && Resolved(l) == Resolved(m)
  }

  /** Being first changes how a dot or a quote is written, not what the line shows. */
  lemma FirstShowsTheSame(s: string, flags: bv8)
    ensures SameText(Lex(s, true, ' ', flags), Lex(s, false, ' ', flags))
  {
    if s != "" && (s[0] == '.' || s[0] == '\'') {
      var c, t := s[0], s[1..];
      assert Take(s, true, ' ', flags) == Go(Lead(c), t) && Take(s, false, ' ', flags) == Go(Sentence(c), t);
      LexSameLast(t, false, ' ', c, flags);
      SameShows(Lead(c), Sentence(c), Lex(t, false, ' ', flags));
    } else {
      assert Take(s, true, ' ', flags) == Take(s, false, ' ', flags);
    }
  }

  lemma SameShows(u: Unit, v: Unit, l: Line)
    requires Shows(u) == Shows(v)
    ensures SameText(Prepend(u, l), Prepend(v, l))
  {
    if l.Line? { assert ([u] + l.units)[1..] == l.units && ([v] + l.units)[1..] == l.units; }
  }

  lemma TextShows(s: string, indent: nat, flags: bv8)
    requires Lex(s, true, ' ', flags).Line?
    ensures Decode(Render(TextAt(s, indent, flags).pieces)).text == Resolved(Lex(s, true, ' ', flags))
  {
    var l := Lex(s, true, ' ', flags);
    TextPreserved(s, true, ' ', flags);
    assert Render([Raw(Out(l))]) == Out(l) + "" == Out(l);
  }

  /** A block of text: no list, heading, literal block, comment, table, blank line or stray blank. */
  predicate Paragraph(s: string, indent: nat) {
    && s != "" && s[0] !in ";-`[|] \n" && s[0] != INVALID
    && (s[0] == '#' ==> indent != 0)
    && (s[0] == '.' && |s| > 1 ==> s[1] != ' ' && s[1] != INVALID)
  }

  /** A paragraph shows its source exactly when it does not begin with a dot; then it shows the rest. */
  lemma ParagraphShowsIff(s: string, indent: nat, flags: bv8)
    requires Paragraph(s, indent) && Lex(s, true, ' ', flags).Line?
    ensures var p, l := BlockAt(s, indent, flags).part, Lex(s, true, ' ', flags);
      && p.Part? && p.rest == l.rest && p.flags == l.flags
      && (Decode(Render(p.pieces)).text == Resolved(l) <==> s[0] != '.')
      && (s[0] == '.' ==> "." + Decode(Render(p.pieces)).text == Resolved(l))
  {
    if s[0] == '.' { DotParagraph(s, indent, flags); } else { TextShows(s, indent, flags); }
  }

  lemma DotParagraph(s: string, indent: nat, flags: bv8)
    requires Paragraph(s, indent) && s[0] == '.' && Lex(s, true, ' ', flags).Line?
    ensures var p, l := BlockAt(s, indent, flags).part, Lex(s, true, ' ', flags);
      p.Part? && p.rest == l.rest && p.flags == l.flags && "." + Decode(Render(p.pieces)).text == Resolved(l)
  {
    var t := s[1..];
    DotLine(s, flags);
    FirstShowsTheSame(t, flags);
    assert (if t == "" then t else Unread(t[0], t[1..])) == t;
    assert BlockAt(s, indent, flags).part == TextAt(t, indent, flags);
    TextShows(t, indent, flags);
  }

  lemma DotLine(s: string, flags: bv8)
    requires s != "" && s[0] == '.' && Lex(s, true, ' ', flags).Line?
    ensures var l, m := Lex(s, true, ' ', flags), Lex(s[1..], false, ' ', flags);
      m.Line? && l.rest == m.rest && l.flags == m.flags && Resolved(l) == "." + Resolved(m)
  {
    var m := Lex(s[1..], false, ' ', flags);
    assert ([Lead('.')] + m.units)[1..] == m.units;
    Assoc(".", Text(m.units), Tail(m.newline, ""));
  }

  // ----- Dots in literal blocks -----

  /** A dot that no backslash escapes. */
  predicate BareDot(s: string)
    decreases |s|
  {
    s != "" && (if s[0] == '\\' then |s| > 1 && BareDot(s[2..]) else s[0] == '.' || BareDot(s[1..]))
  }

  function Taken(s: string, rest: string): string
    requires |rest| <= |s|
  {
    s[..|s| - |rest|]
  }

  lemma {:induction false} BareDotAfter(a: string, b: string)
    requires '.' !in a && '\\' !in a
    ensures BareDot(a + b) == BareDot(b)
    decreases |a|
  {
    if a == "" {
      assert a + b == b;
    } else {
      assert (a + b)[1..] == a[1..] + b && a[0] in a;
      BareDotAfter(a[1..], b);
    }
  }

  lemma {:induction false} TabsOnly(s: string)
    ensures forall i :: 0 <= i < Tabs(s) ==> s[i] == '\t'
  {
    if s != "" && s[0] == '\t' { TabsOnly(s[1..]); }
  }

  /** Indentation takes nothing but tabs, and an invalid character after them. */
  lemma IndentTakes(s: string, indent: nat)
    ensures var rest := IndentAt(s, indent, false).rest;
      && s == Taken(s, rest) + rest && '.' !in Taken(s, rest) && '\\' !in Taken(s, rest)
      && ('\0' !in s ==> '\0' !in rest)
  {
    TabsOnly(s);
    var n := Tabs(s);
    var t := s[n..];
    if t != "" { SplitAt(t, 1); }
    var rest := IndentAt(s, indent, false).rest;
    assert rest == t || (t != "" && t[0] == INVALID && rest == t[1..]);
    SplitAt(s, |s| - |rest|);
  }

  lemma RenderRaw(a: string, p: Part)
    requires p.Part?
    ensures Render(Append([Raw(a)], p).pieces) == a + Render(p.pieces)
  {
    assert ([Raw(a)] + p.pieces)[1..] == p.pieces;
  }

  lemma RenderRaws(a: string, b: string, p: Part)
    requires p.Part?
    ensures Render(Append([Raw(a), Raw(b)], p).pieces) == a + (b + Render(p.pieces))
  {
    var ps := [Raw(a), Raw(b)] + p.pieces;
    assert ps[1..] == [Raw(b)] + p.pieces && ps[1..][1..] == p.pieces;
  }

  lemma {:induction false} RepeatHolds(c: char, n: nat)
    requires c != '\0'
    ensures '\0' !in Repeat(c, n)
  {
    if n > 0 { RepeatHolds(c, n - 1); }
  }

  lemma ClosingPieces()
    ensures Render([Raw(".fi\n"), Re]) == ".fi\n" + (".RE\n" + "") && !BareDot("`\n")
  {
    assert [Raw(".fi\n"), Re][1..] == [Re] && "`\n"[1..] == "\n" && "\n"[1..] == "";
    assert Render([Re]) == ".RE\n" + "";
  }

  predicate NulIsDot(s: string, p: Part) {
    p.Part? ==> |p.rest| <= |s| && ('\0' in Render(p.pieces) <==> BareDot(Taken(s, p.rest)))
  }

  /** One character of a literal block, and the backquotes before it. */
  lemma NulStep(head: string, s: string, a: string, b: string, p: Part)
    requires NulIsDot(s, p) && '\0' !in a
    requires forall x :: BareDot(head + x) == ('\0' in b || BareDot(x))
    ensures NulIsDot(head + s, Append([Raw(a), Raw(b)], p))
  {
    if p.Part? {
      RenderRaws(a, b, p);
      assert Taken(head + s, p.rest) == head + Taken(s, p.rest);
      assert '\0' in a + (b + Render(p.pieces)) <==> '\0' in b || '\0' in Render(p.pieces);
    }
  }

  /** A literal block writes a NUL exactly when it has a dot that no backslash escapes. */
  lemma {:induction false} LiteralNulIff(s: string, indent: nat, check: bool, stops: nat, flags: bv8)
    requires stops < 3 && '\0' !in s
    ensures NulIsDot(s, LiteralBody(s, indent, check, stops, flags))
    decreases |s|, check
  {
    if check {
      LiteralLineNulIff(s, indent, stops, flags);
    } else if s == "" || s[0] == INVALID {
    } else if s[0] == '`' {
      if stops < 2 {
        LiteralNulIff(s[1..], indent, false, stops + 1, flags);
        NulQuote(s, LiteralBody(s[1..], indent, false, stops + 1, flags));
      } else {
        NulClose(s, indent, flags);
      }
    } else if s[0] == '\\' {
      if |s| > 1 && s[1] != INVALID {
        LiteralNulIff(s[2..], indent, false, 0, flags);
        NulEscape(s, stops, LiteralBody(s[2..], indent, false, 0, flags));
      }
    } else {
      LiteralNulIff(s[1..], indent, s[0] == '\n', 0, flags);
      NulPlain(s, stops, LiteralBody(s[1..], indent, s[0] == '\n', 0, flags));
    }
  }

  lemma {:induction false} LiteralLineNulIff(s: string, indent: nat, stops: nat, flags: bv8)
    requires stops < 3 && '\0' !in s
    ensures NulIsDot(s, LiteralBody(s, indent, true, stops, flags))
    decreases |s|, true, 0
  {
    var i := IndentAt(s, indent, false);
    if i.level >= indent {
      IndentKeepsNoNul(s, indent);
      LiteralNulIff(i.rest, indent, false, stops, flags);
    }
    NulLine(s, indent, stops, flags);
  }

  lemma NulLine(s: string, indent: nat, stops: nat, flags: bv8)
    requires stops < 3
    requires var i := IndentAt(s, indent, false);
      i.level < indent || NulIsDot(i.rest, LiteralBody(i.rest, indent, false, stops, flags))
    ensures NulIsDot(s, LiteralBody(s, indent, true, stops, flags))
  {
    var i := IndentAt(s, indent, false);
    LiteralLine(s, indent, stops, flags);
    if i.level >= indent {
      NulIndentAt(s, indent, i.level - indent, LiteralBody(i.rest, indent, false, stops, flags));
    }
  }

  lemma LiteralLine(s: string, indent: nat, stops: nat, flags: bv8)
    requires stops < 3
    ensures var i := IndentAt(s, indent, false);
      LiteralBody(s, indent, true, stops, flags)
      == if i.level < indent then Fault
         else Append([Raw(Repeat('\t', i.level - indent))], LiteralBody(i.rest, indent, false, stops, flags))
  {
  }

  lemma IndentKeepsNoNul(s: string, indent: nat)
    requires '\0' !in s
    ensures '\0' !in IndentAt(s, indent, false).rest
  {
    IndentTakes(s, indent);
  }

  lemma NulIndentAt(s: string, indent: nat, tabs: nat, p: Part)
    requires NulIsDot(IndentAt(s, indent, false).rest, p)
    ensures NulIsDot(s, Append([Raw(Repeat('\t', tabs))], p))
  {
    IndentTakes(s, indent);
    NulIndent(s, IndentAt(s, indent, false).rest, tabs, p);
  }

  lemma NulClose(s: string, indent: nat, flags: bv8)
    requires s != "" && s[0] == '`'
    ensures NulIsDot(s, LiteralBody(s, indent, false, 2, flags))
  {
    if |s| > 1 && s[1] == '\n' {
      ClosingPieces();
      assert Taken(s, s[2..]) == "`\n";
    }
  }

  lemma NulEscape(s: string, stops: nat, p: Part)
    requires |s| > 1 && s[0] == '\\' && '\0' !in s && NulIsDot(s[2..], p)
    ensures NulIsDot(s, Append([Raw(Repeat('`', stops)), Raw(LiteralEscape(s[1]))], p))
  {
    RepeatHolds('`', stops);
    EscapedHead(s[1]);
    NulStep(['\\', s[1]], s[2..], Repeat('`', stops), LiteralEscape(s[1]), p);
    assert ['\\', s[1]] + s[2..] == s;
  }

  lemma NulPlain(s: string, stops: nat, p: Part)
    requires s != "" && s[0] != '\\' && '\0' !in s && NulIsDot(s[1..], p)
    ensures NulIsDot(s, Append([Raw(Repeat('`', stops)), Raw(Literal(s[0]))], p))
  {
    RepeatHolds('`', stops);
    PlainHead(s[0]);
    NulStep([s[0]], s[1..], Repeat('`', stops), Literal(s[0]), p);
    assert [s[0]] + s[1..] == s;
  }

  lemma EscapedHead(c: char)
    requires c != '\0'
    ensures forall x :: BareDot(['\\', c] + x) == ('\0' in LiteralEscape(c) || BareDot(x))
  {
    forall x ensures BareDot(['\\', c] + x) == BareDot(x) {
      assert (['\\', c] + x)[2..] == x;
    }
  }

  lemma PlainHead(c: char)
    requires c != '\\' && c != '\0'
    ensures forall x :: BareDot([c] + x) == ('\0' in Literal(c) || BareDot(x))
  {
    forall x ensures BareDot([c] + x) == (c == '.' || BareDot(x)) {
      assert ([c] + x)[1..] == x;
    }
  }

  lemma NulQuote(s: string, p: Part)
    requires s != "" && s[0] == '`' && NulIsDot(s[1..], p)
    ensures NulIsDot(s, p)
  {
    if p.Part? {
      BareDotAfter("`", Taken(s[1..], p.rest));
      assert Taken(s, p.rest) == "`" + Taken(s[1..], p.rest);
    }
  }

  lemma NulIndent(s: string, t: string, tabs: nat, p: Part)
    requires |t| <= |s| && s == Taken(s, t) + t && '.' !in Taken(s, t) && '\\' !in Taken(s, t) && NulIsDot(t, p)
    ensures NulIsDot(s, Append([Raw(Repeat('\t', tabs))], p))
  {
    if p.Part? {
      RepeatHolds('\t', tabs);
      RenderRaw(Repeat('\t', tabs), p);
      BareDotAfter(Taken(s, t), Taken(t, p.rest));
      assert Taken(s, p.rest) == Taken(s, t) + Taken(t, p.rest);
    }
  }

  /** The same of a whole block, with its opening line. */
  lemma LiteralBlockNulIff(s: string, indent: nat, flags: bv8)
    requires '\0' !in s
    ensures NulIsDot(s, LiteralAt(s, indent, flags))
  {
    if "``\n" <= s {
      LiteralNulIff(s[3..], indent, true, 0, flags);
      NulOpen(s, LiteralBody(s[3..], indent, true, 0, flags));
    }
  }

  lemma NulOpen(s: string, p: Part)
    requires "``\n" <= s && NulIsDot(s[3..], p)
    ensures NulIsDot(s, Append([Raw(".nf\n"), Rs], p))
  {
    if p.Part? {
      OpeningPieces(p);
      BareDotAfter("``\n", Taken(s[3..], p.rest));
      assert Taken(s, p.rest) == "``\n" + Taken(s[3..], p.rest);
      var r := Render(p.pieces);
      assert '\0' in ".nf\n" + (".RS 4\n" + r) <==> '\0' in r;
    }
  }

  lemma OpeningPieces(p: Part)
    requires p.Part?
    ensures Render(Append([Raw(".nf\n"), Rs], p).pieces) == ".nf\n" + (".RS 4\n" + Render(p.pieces))
  {
    var ps := [Raw(".nf\n"), Rs] + p.pieces;
    assert ps[1..] == [Rs] + p.pieces && ps[1..][1..] == p.pieces;
  }

  /** A literal block of one line, a dot. */
  lemma LiteralDotExample()
    ensures var p := LiteralAt("``\n.\n```\n", 0, 0); p.Part? && !p.unclosed && p.rest == "" && '\0' in Render(p.pieces)
  {
    var s := "``\n.\n```\n";
    assert s[3..] == ".\n```\n";
    DotBody();
    LiteralBlockNulIff(s, 0, 0);
    var p := LiteralAt(s, 0, 0);
    assert Taken(s, p.rest) == "``\n" + ".\n```\n";
    BareDotAfter("``\n", ".\n```\n");
  }

  lemma DotBody()
    ensures var p := LiteralBody(".\n```\n", 0, true, 0, 0); p.Part? && !p.unclosed && p.rest == ""
  {
    var s, t := ".\n```\n", "\n```\n";
    ClosingLine();
    assert s[1..] == t && t[1..] == "```\n" && s[0..] == s && ['.'] + t == s;
    assert IndentAt(s, 0, false) == Indented(0, [], s);
    assert LiteralBody(t, 0, false, 0, 0).Part?;
    assert LiteralBody(s, 0, false, 0, 0).Part?;
  }

  lemma ClosingLine()
    ensures var p := LiteralBody("```\n", 0, true, 0, 0); p.Part? && !p.unclosed && p.rest == ""
  {
    var u := "```\n";
    assert u[1..] == "``\n" && "``\n"[1..] == "`\n" && "`\n"[2..] == "" && u[0..] == u && ['`'] + "``\n" == u;
    assert IndentAt(u, 0, false) == Indented(0, [], u);
    var d := LiteralBody("`\n", 0, false, 2, 0);
    assert LiteralBody("``\n", 0, false, 1, 0) == d;
    assert LiteralBody(u, 0, false, 0, 0) == d;
  }

  lemma {:induction false} RenderAppend(a: seq<Piece>, b: seq<Piece>)
    ensures Render(a + b) == Render(a) + Render(b)
    decreases |a|
  {
    if a == [] {
      assert a + b == b;
    } else {
      assert (a + b)[1..] == a[1..] + b;
      RenderAppend(a[1..], b);
    }
  }
}
