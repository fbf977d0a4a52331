/** One line of text in the scdoc translator.  Input is a list of code points, up to the first NUL.
    A line is read unit by unit; a unit is what one turn of the loop of `parse_text` consumes and writes. */
module Scdoc {

  /** What the decoder gives for a byte that begins no character, and for U+0080. */
  const INVALID: char := '\U{80}'

  const BOLD: bv8 := 1
  const UNDERLINE: bv8 := 2

  datatype Option<T> = None | Some(value: T)

  datatype Unit = Plain(c: char) | Sentence(c: char) | Lead(c: char) | Escaped(c: char)
                | Open(format: bv8) | Close(format: bv8) | Break

  // ----- What a unit is read from, what is written for it, and what it shows -----

  function Marker(format: bv8): char { if format == BOLD then '*' else '_' }

  function Source(u: Unit): (s: string)
    ensures s != ""
  {
    match u
    case Plain(c) => [c]
    case Sentence(c) => [c]
    case Lead(c) => [c]
    case Escaped(c) => "\\" + [c]
    case Open(format) => [Marker(format)]
    case Close(format) => [Marker(format)]
    case Break => "++\n"
  }

  function Output(u: Unit): string {
    match u
    case Plain(c) => [c]
    case Sentence(c) => [c] + "\\&"
    case Lead(c) => "\\&" + [c] + "\\&"
    case Escaped(c) => if c == '\\' then "\\\\" else [c]
    case Open(format) => if format == BOLD then "\\fB" else "\\fI"
    case Close(_) => "\\fR"
    case Break => "\n.br\n"
  }

  /** An explicit break shows as the request it is written as. */
  function Shows(u: Unit): string {
    match u
    case Plain(c) => [c]
    case Sentence(c) => [c]
    case Lead(c) => [c]
    case Escaped(c) => [c]
    case Open(_) => ""
    case Close(_) => ""
    case Break => "\n.br\n"
  }

  function Sources(us: seq<Unit>): string { if us == [] then "" else Source(us[0]) + Sources(us[1..]) }

  function Outputs(us: seq<Unit>): string { if us == [] then "" else Output(us[0]) + Outputs(us[1..]) }

  function Text(us: seq<Unit>): string { if us == [] then "" else Shows(us[0]) + Text(us[1..]) }

  // ----- The loop -----

  datatype Line = Line(units: seq<Unit>, newline: bool, rest: string, flags: bv8) | Error

  function Prepend(u: Unit, l: Line): Line { if l.Error? then l else l.(units := [u] + l.units) }

  /** Pushing a character back; an invalid one is dropped. */
  function Unread(c: char, s: string): string { if c == INVALID then s else [c] + s }

  /** Only the low byte of a code point is looked at. */
  predicate Alnum(c: char) {
    var k := c as int % 256;
    48 <= k <= 57 || 65 <= k <= 90 || 97 <= k <= 122
  }

  /** Whether an underscore between `last` and `next` is a marker. */
  predicate MarksHere(last: char, flags: bv8, next: string) {
    !Alnum(last) || (flags & UNDERLINE != 0 && !(next != "" && Alnum(next[0])))
  }

  function Format(flags: bv8, format: bv8): Option<Unit> {
    if flags == 0 then Some(Open(format)) else if flags & !format != 0 then None else Some(Close(format))
  }

  /** After a plus: the unit and what remains, or nothing for a blank line after an explicit break. */
  function LineBreak(s: string): (r: Option<(Unit, string)>)
    ensures r.Some? ==> |r.value.1| <= |s|
  {
    if s == "" then Some((Plain('+'), ""))
    else if s[0] != '+' then Some((Plain('+'), Unread(s[0], s[1..])))
    else if |s| == 1 then Some((Plain('+'), "+"))
    else if s[1] != '\n' then Some((Plain('+'), "+" + Unread(s[1], s[2..])))
    else if |s| == 2 then Some((Break, ""))
    else if s[2] == '\n' then None
    else Some((Break, Unread(s[2], s[3..])))
  }

  /** One turn of the loop: a unit and what remains, or the end of the text, or an error. */
  datatype Turn = Stop(newline: bool, left: string) | Fail | Go(u: Unit, rest: string)

  function Mark(flags: bv8, format: bv8, rest: string): Turn {
    match Format(flags, format) case None => Fail case Some(u) => Go(u, rest)
  }

  /** After an underscore. */
  function Underline(s: string, last: char, flags: bv8): (t: Turn)
    ensures !t.Stop? && (t.Go? ==> t.rest == s && t.u != Break)
  {
    if s != "" && s[0] == INVALID then Fail
    else if MarksHere(last, flags, s) then Mark(flags, UNDERLINE, s)
    else Go(Plain('_'), s)
  }

  function EscapeOf(s: string): (t: Turn)
    ensures t.Go? ==> |t.rest| < |s|
    ensures !t.Stop?
  {
    if s == "" || s[0] == INVALID then Fail else Go(Escaped(s[0]), s[1..])
  }

  function PlusOf(s: string): (t: Turn)
    ensures !t.Stop? && (t.Go? ==> |t.rest| <= |s|)
  {
    match LineBreak(s) case None => Fail case Some((u, rest)) => Go(u, rest)
  }

  /** A dot or a quote that comes first would begin a control line. */
  function Ordinary(c: char, first: bool): Unit {
    if (c == '.' || c == '\'') && first then Lead(c) else if c in ".'!?" then Sentence(c) else Plain(c)
  }

  /** What the character read does; `last` is the last ordinary character before it. */
  function TakeChar(c: char, s: string, first: bool, last: char, flags: bv8): (t: Turn)
    ensures t.Go? ==> |t.rest| <= |s|
    ensures t.Stop? ==> t.left == s
  {
    if c == INVALID then Stop(false, s)
    else if c == '\n' then Stop(true, s)
    else if c == '\\' then EscapeOf(s)
    else if c == '*' then Mark(flags, BOLD, s)
    else if c == '_' then Underline(s, last, flags)
    else if c == '+' then PlusOf(s)
    else Go(Ordinary(c, first), s)
  }

  function Take(s: string, first: bool, last: char, flags: bv8): (t: Turn)
    ensures t.Go? ==> |t.rest| < |s|
    ensures t.Stop? ==> |t.left| <= |s| && (s != "" ==> |t.left| < |s|)
  {
    if s == "" then Stop(false, "") else TakeChar(s[0], s[1..], first, last, flags)
  }

  function Last(u: Unit, last: char): char {
    match u
    case Plain(c) => if c == '+' || c == '_' then last else c
    case Sentence(c) => c
    case Break => '\n'
    case _ => last
  }

  function After(u: Unit, flags: bv8): bv8 {
    match u
    case Open(format) => format
    case Close(_) => 0
    case _ => flags
  }

  function AfterAll(us: seq<Unit>, flags: bv8): bv8 {
    if us == [] then flags else AfterAll(us[1..], After(us[0], flags))
  }

  function Lex(s: string, first: bool, last: char, flags: bv8): (r: Line)
    ensures r.Line? ==> |r.rest| <= |s| && (s != "" ==> |r.rest| < |s|)
    decreases |s|
  {
    match Take(s, first, last, flags)
    case Stop(newline, rest) => Line([], newline, rest, flags)
    case Fail => Error
    case Go(u, rest) => Prepend(u, Lex(rest, false, Last(u, last), After(u, flags)))
  }

  // ----- Which lines are accepted, and how they read -----

  predicate MayMark(format: bv8, last: char, flags: bv8, next: string) {
    format == BOLD || (format == UNDERLINE && MarksHere(last, flags, next))
  }

  /** A unit that may stand where it does, with `next` after it. */
  predicate Fits(u: Unit, first: bool, last: char, flags: bv8, next: string) {
    match u
    case Plain(c) => && c !in "\\*\n.'!?" && c != INVALID
                     && (c == '_' ==> !MarksHere(last, flags, next))
                     && (c == '+' ==> !("+\n" <= next))
    case Sentence(c) => c in ".'!?" && (first ==> c in "!?")
    case Lead(c) => c in ".'" && first
    case Escaped(c) => c != INVALID
    case Open(format) => flags == 0 && MayMark(format, last, flags, next)
    case Close(format) => flags == format && MayMark(format, last, flags, next)
    case Break => !("\n" <= next)
  }

  predicate Legal(us: seq<Unit>, first: bool, last: char, flags: bv8, tail: string) {
    us == [] ||
    (Fits(us[0], first, last, flags, Sources(us[1..]) + tail) &&
     Legal(us[1..], false, Last(us[0], last), After(us[0], flags), tail))
  }

  function Tail(newline: bool, rest: string): string { if newline then "\n" + rest else "" }

  predicate Reads(s: string, first: bool, last: char, flags: bv8,
                  us: seq<Unit>, newline: bool, rest: string, after: bv8)
  {
    && (newline || rest == "")
    && s == Sources(us) + Tail(newline, rest)
    && Legal(us, first, last, flags, Tail(newline, rest))
    && after == AfterAll(us, flags)
  }

  lemma Assoc(a: string, b: string, c: string)
    ensures (a + b) + c == a + (b + c)
  {
  }

  lemma AssocTwice(a: string, b: string, c: string, d: string)
    ensures (a + b) + c + d == a + (b + c + d)
  {
  }

  lemma ReadsPrepend(u: Unit, s: string, t: string, first: bool, last: char, flags: bv8,
                     us: seq<Unit>, newline: bool, rest: string, after: bv8)
    requires s == Source(u) + t && Fits(u, first, last, flags, t)
    requires Reads(t, false, Last(u, last), After(u, flags), us, newline, rest, after)
    ensures Reads(s, first, last, flags, [u] + us, newline, rest, after)
  {
    var all, tail := [u] + us, Tail(newline, rest);
    assert all[1..] == us && all[0] == u;
    Assoc(Source(u), Sources(us), tail);
    assert t == Sources(us) + tail && Legal(all, first, last, flags, tail);
  }

  /** A turn that goes on has taken the source of a unit that may stand there. */
  ghost predicate TakesUnit(s: string, t: Turn, first: bool, last: char, flags: bv8) {
    t.Go? ==> s == Source(t.u) + t.rest && Fits(t.u, first, last, flags, t.rest) && INVALID !in t.rest
  }

  lemma TakeFits(s: string, first: bool, last: char, flags: bv8)
    requires s != "" && INVALID !in s
    ensures TakesUnit(s, Take(s, first, last, flags), first, last, flags)
  {
    var c, t := s[0], s[1..];
    assert s == [c] + t;
    if c == '\\' {
      EscapeFits(t, first, last, flags);
    } else if c == '+' {
      PlusFits(t, first, last, flags);
    } else if c == '*' {
      MarkFits(flags, c, t, last);
    } else if c == '_' {
      MarkFits(flags, c, t, last);
    } else if c != '\n' {
      OrdinaryFits(c, t, first, last, flags);
    }
  }

  lemma EscapeFits(s: string, first: bool, last: char, flags: bv8)
    requires INVALID !in s
    ensures TakesUnit("\\" + s, EscapeOf(s), first, last, flags)
  {
    if s != "" {
      Uncons(s);
      Assoc("\\", [s[0]], s[1..]);
    }
  }

  lemma OrdinaryFits(c: char, s: string, first: bool, last: char, flags: bv8)
    requires c != '\\' && c != '*' && c != '_' && c != '+' && c != '\n' && c != INVALID
    ensures Source(Ordinary(c, first)) == [c] && Fits(Ordinary(c, first), first, last, flags, s)
  {
  }

  lemma MarkFits(flags: bv8, c: char, s: string, last: char)
    requires c == '*' || c == '_'
    ensures var t := if c == '*' then Mark(flags, BOLD, s) else Underline(s, last, flags);
      t.Go? ==> Source(t.u) == [c] && Fits(t.u, false, last, flags, s) && Fits(t.u, true, last, flags, s)
  {
    assert flags != 0 && flags & !BOLD == 0 ==> flags == BOLD;
    assert flags != 0 && flags & !UNDERLINE == 0 ==> flags == UNDERLINE;
  }

  lemma SplitAt(s: string, n: nat)
    requires n <= |s|
    ensures s == s[..n] + s[n..]
  {
  }

  lemma Uncons(s: string)
    requires s != ""
    ensures s == [s[0]] + s[1..]
  {
  }

  /** An explicit break is taken whole; any other plus stands for itself. */
  lemma LineBreakTakes(n: string)
    requires INVALID !in n && LineBreak(n).Some?
    ensures LineBreak(n) == Some(if "+\n" <= n then (Break, n[2..]) else (Plain('+'), n))
  {
    if n != "" {
      Uncons(n);
      assert n[0] in n;
      if n[0] == '+' && |n| == 1 {
        assert n == "+";
      } else if n[0] == '+' && n[1] != '\n' {
        assert n[1] in n && n == "+" + ([n[1]] + n[2..]);
      } else if n[0] == '+' && |n| > 2 {
        assert n[2] in n && n[2..] == [n[2]] + n[3..];
      }
    }
  }

  lemma PlusFits(n: string, first: bool, last: char, flags: bv8)
    requires INVALID !in n
    ensures TakesUnit("+" + n, PlusOf(n), first, last, flags)
  {
    if LineBreak(n).Some? {
      LineBreakTakes(n);
      if "+\n" <= n {
        SplitAt(n, 2);
        Assoc("+", "+\n", n[2..]);
        assert n[..2] == "+\n";
      }
    }
  }

  lemma TakeIsComplete(u: Unit, t: string, first: bool, last: char, flags: bv8)
    requires INVALID !in t && Fits(u, first, last, flags, t)
    ensures Take(Source(u) + t, first, last, flags) == Go(u, t)
  {
    var s := Source(u) + t;
    match u {
      case Escaped(c) =>
        EscapedIsComplete(c, t);
      case Break =>
        BreakIsComplete(t);
        assert s[0] == '+' && s[1..] == "+\n" + t;
      case Plain(c) =>
        assert s[0] == c && s[1..] == t;
        if c == '+' { PlusIsComplete(t); }
      case _ =>
        assert s[0] == Source(u)[0] && s[1..] == t;
    }
  }

  lemma EscapedIsComplete(c: char, t: string)
    requires c != INVALID
    ensures forall first, last, flags :: Take("\\" + [c] + t, first, last, flags) == Go(Escaped(c), t)
  {
    var s := "\\" + [c] + t;
    assert s[0] == '\\' && s[1..] == [c] + t && s[1..][0] == c && s[1..][1..] == t;
  }

  lemma BreakIsComplete(t: string)
    requires INVALID !in t && !("\n" <= t)
    ensures LineBreak("+\n" + t) == Some((Break, t))
  {
    var s := "+\n" + t;
    assert s[0] == '+' && s[1] == '\n' && s[2..] == t;
    if t != "" { assert s[3..] == t[1..] && t == [t[0]] + t[1..]; }
  }

  lemma PlusIsComplete(t: string)
    requires INVALID !in t && !("+\n" <= t)
    ensures LineBreak(t) == Some((Plain('+'), t))
  {
    if t != "" {
      assert t == [t[0]] + t[1..];
      if t[0] == '+' {
        if |t| == 1 {
          assert t == "+";
        } else {
          assert t[1] != '\n';
          assert t == "+" + ([t[1]] + t[2..]);
        }
      }
    }
  }

  lemma {:induction false} LexSound(s: string, first: bool, last: char, flags: bv8)
    requires INVALID !in s && Lex(s, first, last, flags).Line?
    ensures var l := Lex(s, first, last, flags); Reads(s, first, last, flags, l.units, l.newline, l.rest, l.flags)
    decreases |s|
  {
    if s != "" {
      match Take(s, first, last, flags) {
        case Stop(_, rest) => assert s == "\n" + rest;
        case Fail =>
        case Go(u, rest) =>
          TakeFits(s, first, last, flags);
          LexSound(rest, false, Last(u, last), After(u, flags));
          var l := Lex(rest, false, Last(u, last), After(u, flags));
          ReadsPrepend(u, s, rest, first, last, flags, l.units, l.newline, l.rest, l.flags);
      }
    }
  }

  lemma TailIsClean(u: Unit, t: string)
    requires INVALID !in Source(u) + t
    ensures INVALID !in t
  {
    var s := Source(u) + t;
    assert forall i :: 0 <= i < |t| ==> t[i] == s[|Source(u)| + i];
  }

  lemma ReadsTail(s: string, first: bool, last: char, flags: bv8,
                  us: seq<Unit>, newline: bool, rest: string, after: bv8)
    requires us != [] && Reads(s, first, last, flags, us, newline, rest, after)
    ensures var t := Sources(us[1..]) + Tail(newline, rest);
      && s == Source(us[0]) + t && Fits(us[0], first, last, flags, t)
      && Reads(t, false, Last(us[0], last), After(us[0], flags), us[1..], newline, rest, after)
  {
    Assoc(Source(us[0]), Sources(us[1..]), Tail(newline, rest));
  }

  lemma LexStep(s: string, u: Unit, t: string, first: bool, last: char, flags: bv8,
                us: seq<Unit>, newline: bool, rest: string, after: bv8)
    requires Take(s, first, last, flags) == Go(u, t)
    requires Lex(t, false, Last(u, last), After(u, flags)) == Line(us, newline, rest, after)
    ensures Lex(s, first, last, flags) == Line([u] + us, newline, rest, after)
  {
  }

  lemma LexEnd(first: bool, last: char, flags: bv8, newline: bool, rest: string)
    requires newline || rest == ""
    ensures Lex(Tail(newline, rest), first, last, flags) == Line([], newline, rest, flags)
  {
    if newline { assert ("\n" + rest)[1..] == rest; }
  }

  lemma {:induction false} LexComplete(s: string, first: bool, last: char, flags: bv8,
                                       us: seq<Unit>, newline: bool, rest: string, after: bv8)
    requires INVALID !in s && Reads(s, first, last, flags, us, newline, rest, after)
    ensures Lex(s, first, last, flags) == Line(us, newline, rest, after)
    decreases |us|
  {
    if us == [] {
      assert s == Tail(newline, rest);
      LexEnd(first, last, flags, newline, rest);
    } else {
      var t := Sources(us[1..]) + Tail(newline, rest);
      ReadsTail(s, first, last, flags, us, newline, rest, after);
      TailIsClean(us[0], t);
      TakeIsComplete(us[0], t, first, last, flags);
      LexComplete(t, false, Last(us[0], last), After(us[0], flags), us[1..], newline, rest, after);
      LexStep(s, us[0], t, first, last, flags, us[1..], newline, rest, after);
      assert [us[0]] + us[1..] == us;
    }
  }

  /** A line is accepted exactly when it is a legal sequence of units, and it reads in one way only. */
  lemma AcceptedIffLegal(s: string, first: bool, last: char, flags: bv8,
                         us: seq<Unit>, newline: bool, rest: string, after: bv8)
    requires INVALID !in s
    ensures Lex(s, first, last, flags) == Line(us, newline, rest, after)
       <==> Reads(s, first, last, flags, us, newline, rest, after)
  {
    if Lex(s, first, last, flags) == Line(us, newline, rest, after) {
      LexSound(s, first, last, flags);
    }
    if Reads(s, first, last, flags, us, newline, rest, after) {
      LexComplete(s, first, last, flags, us, newline, rest, after);
    }
  }

  // ----- What the written line shows -----

  datatype Shown = Shown(text: string, fonts: string)

  /** Reading roff text: `\&` shows nothing, `\f` changes the font, and `\\` is a backslash. */
  function Decode(o: string): Shown
    decreases |o|
  {
    if o == "" then Shown("", "")
    else if o[0] == '\\' && |o| >= 2 && o[1] == '&' then Decode(o[2..])
    else if o[0] == '\\' && |o| >= 3 && o[1] == 'f' then var d := Decode(o[3..]); d.(fonts := [o[2]] + d.fonts)
    else if o[0] == '\\' && |o| >= 2 && o[1] == '\\' then var d := Decode(o[2..]); d.(text := "\\" + d.text)
    else var d := Decode(o[1..]); d.(text := [o[0]] + d.text)
  }

  function Font(u: Unit): string {
    match u
    case Open(format) => if format == BOLD then "B" else "I"
    case Close(_) => "R"
    case _ => ""
  }

  function Fonts(us: seq<Unit>): string { if us == [] then "" else Font(us[0]) + Fonts(us[1..]) }

  predicate Readable(u: Unit) {
    match u
    case Plain(c) => c != '\\'
    case Sentence(c) => c != '\\'
    case Lead(c) => c != '\\'
    case _ => true
  }

  lemma DecodePlain(c: char, o: string)
    requires c != '\\'
    ensures Decode([c] + o) == Shown([c] + Decode(o).text, Decode(o).fonts)
  {
    assert ([c] + o)[1..] == o;
  }

  lemma DecodeAmp(o: string)
    ensures Decode("\\&" + o) == Decode(o)
  {
    assert ("\\&" + o)[2..] == o;
  }

  lemma DecodeFont(x: char, o: string)
    ensures Decode(['\\', 'f', x] + o) == Shown(Decode(o).text, [x] + Decode(o).fonts)
  {
    var s := ['\\', 'f', x] + o;
    assert s[0] == '\\' && s[1] == 'f' && s[2] == x && s[3..] == o;
  }

  lemma DecodeSentence(c: char, o: string)
    requires c != '\\'
    ensures Decode([c] + "\\&" + o) == Shown([c] + Decode(o).text, Decode(o).fonts)
  {
    Assoc([c], "\\&", o);
    DecodePlain(c, "\\&" + o);
    DecodeAmp(o);
  }

  lemma DecodeLead(c: char, o: string)
    requires c != '\\'
    ensures Decode("\\&" + [c] + "\\&" + o) == Shown([c] + Decode(o).text, Decode(o).fonts)
  {
    assert "\\&" + [c] + "\\&" + o == "\\&" + ([c] + "\\&" + o);
    DecodeAmp([c] + "\\&" + o);
    DecodeSentence(c, o);
  }

  lemma DecodeBackslash(o: string)
    ensures Decode("\\\\" + o) == Shown("\\" + Decode(o).text, Decode(o).fonts)
  {
    var s := "\\\\" + o;
    assert s[0] == '\\' && s[1] == '\\' && s[2..] == o;
  }

  lemma NothingMore(d: Shown)
    ensures "" + d.text == d.text && "" + d.fonts == d.fonts
  {
  }

  lemma DecodeUnit(u: Unit, o: string)
    requires Readable(u)
    ensures Decode(Output(u) + o) == Shown(Shows(u) + Decode(o).text, Font(u) + Decode(o).fonts)
  {
    NothingMore(Decode(o));
    match u {
      case Plain(c) => DecodePlain(c, o);
      case Sentence(c) => DecodeSentence(c, o);
      case Lead(c) => DecodeLead(c, o);
      case Escaped(c) => if c == '\\' { DecodeBackslash(o); } else { DecodePlain(c, o); }
      case Open(format) => DecodeFont(if format == BOLD then 'B' else 'I', o);
      case Close(_) => DecodeFont('R', o);
      case Break => DecodeText("\n.br\n", o);
    }
  }

  lemma {:induction false} DecodeText(s: string, o: string)
    requires '\\' !in s
    ensures Decode(s + o) == Shown(s + Decode(o).text, Decode(o).fonts)
    decreases |s|
  {
    if s == "" {
      assert s + o == o && "" + Decode(o).text == Decode(o).text;
    } else {
      assert s + o == [s[0]] + (s[1..] + o) && s[0] in s;
      DecodePlain(s[0], s[1..] + o);
      DecodeText(s[1..], o);
      assert [s[0]] + (s[1..] + Decode(o).text) == s + Decode(o).text;
    }
  }

  predicate AllReadable(us: seq<Unit>) { us == [] || (Readable(us[0]) && AllReadable(us[1..])) }

  lemma {:induction false} DecodeOutputs(us: seq<Unit>, o: string)
    requires AllReadable(us)
    ensures Decode(Outputs(us) + o) == Shown(Text(us) + Decode(o).text, Fonts(us) + Decode(o).fonts)
    decreases |us|
  {
    var d := Decode(o);
    if us == [] {
      assert Outputs(us) + o == o && "" + d.text == d.text && "" + d.fonts == d.fonts;
    } else {
      var u, more := us[0], us[1..];
      Assoc(Output(u), Outputs(more), o);
      DecodeUnit(u, Outputs(more) + o);
      DecodeOutputs(more, o);
      Assoc(Shows(u), Text(more), d.text);
      Assoc(Font(u), Fonts(more), d.fonts);
    }
  }

  predicate OneFont(flags: bv8) { flags == 0 || flags == BOLD || flags == UNDERLINE }

  /** Fonts alternate: one opens only when none is open, and `R` closes the one that is. */
  function FontsFrom(fonts: string, flags: bv8): Option<bv8> {
    if fonts == "" then Some(flags)
    else if flags == 0 then
      if fonts[0] == 'B' then FontsFrom(fonts[1..], BOLD)
      else if fonts[0] == 'I' then FontsFrom(fonts[1..], UNDERLINE) else None
    else if fonts[0] == 'R' then FontsFrom(fonts[1..], 0) else None
  }

  lemma {:induction false} FontsAlternate(us: seq<Unit>, first: bool, last: char, flags: bv8, tail: string)
    requires Legal(us, first, last, flags, tail)
    ensures FontsFrom(Fonts(us), flags) == Some(AfterAll(us, flags))
    decreases |us|
  {
    if us != [] {
      FontsAlternate(us[1..], false, Last(us[0], last), After(us[0], flags), tail);
      var more := Fonts(us[1..]);
      assert Font(us[0]) == "" ==> Fonts(us) == more;
      assert Font(us[0]) != "" ==> Fonts(us)[1..] == more;
    }
  }

  /** Without the invalid characters, which show nowhere. */
  function Clean(s: string): string {
    if s == "" then "" else (if s[0] == INVALID then "" else [s[0]]) + Clean(s[1..])
  }

  lemma CleanCons(c: char, s: string)
    ensures Clean([c] + s) == Clean(Unread(c, s)) == (if c == INVALID then "" else [c]) + Clean(s)
  {
    assert ([c] + s)[1..] == s;
    assert "" + Clean(s) == Clean(s);
  }

  lemma CleanHead(s: string)
    requires s != ""
    ensures Clean(s) == Clean(Unread(s[0], s[1..])) == (if s[0] == INVALID then "" else [s[0]]) + Clean(s[1..])
  {
    Uncons(s);
    CleanCons(s[0], s[1..]);
  }

  /** A plus followed by `s` is the source of the unit it was taken for and what remains. */
  ghost predicate PlusRuns(s: string) {
    match LineBreak(s)
    case None => true
    case Some((u, rest)) => (u == Plain('+') || u == Break) && "+" + Clean(s) == Source(u) + Clean(rest)
  }

  lemma CleanPlus(s: string)
    ensures PlusRuns(s)
  {
    if s != "" {
      CleanHead(s);
      if s[0] == '+' && |s| > 1 {
        CleanHead(s[1..]);
        if s[1] == '\n' { CleanBreak(s); } else { CleanTwo(s); }
      }
    }
  }

  /** Two pluses, and no explicit break. */
  lemma CleanTwo(s: string)
    requires |s| > 1 && s[0] == '+' && s[1] != '\n'
    ensures PlusRuns(s)
  {
    var u := Unread(s[1], s[2..]);
    CleanHead(s);
    CleanHead(s[1..]);
    CleanCons('+', u);
    assert LineBreak(s) == Some((Plain('+'), "+" + u));
    assert Clean(s) == "+" + Clean(u);
  }

  lemma CleanBreak(s: string)
    requires |s| > 1 && s[0] == '+' && s[1] == '\n'
    ensures PlusRuns(s)
  {
    var t := s[2..];
    CleanHead(s);
    CleanHead(s[1..]);
    assert Clean(s) == "+" + ("\n" + Clean(t));
    assert "+" + Clean(s) == "++\n" + Clean(t);
    if t != "" {
      CleanHead(t);
      assert t[0] == s[2] && t[1..] == s[3..];
    }
  }

  /** One turn takes the source of its unit, and leaves what `flags` says. */
  ghost predicate TurnRuns(s: string, t: Turn, flags: bv8) {
    t.Go? ==>
      && Clean(s) == Source(t.u) + Clean(t.rest) && Readable(t.u)
      && FontsFrom(Font(t.u), flags) == Some(After(t.u, flags))
  }

  lemma TakeRuns(s: string, first: bool, last: char, flags: bv8)
    ensures TurnRuns(s, Take(s, first, last, flags), flags)
  {
    if s != "" {
      var c, t := s[0], s[1..];
      CleanHead(s);
      if c == '\\' {
        EscapeRuns(s, flags);
      } else if c == '+' {
        CleanPlus(t);
        assert FontsFrom("", flags) == Some(flags);
      } else if c == '*' || c == '_' {
        MarkRuns(s, last, flags);
      } else {
        assert FontsFrom("", flags) == Some(flags);
      }
    }
  }

  lemma EscapeRuns(s: string, flags: bv8)
    requires s != "" && s[0] == '\\'
    ensures TurnRuns(s, EscapeOf(s[1..]), flags)
  {
    var t := s[1..];
    if t != "" && t[0] != INVALID { EscapeClean(s, t); }
  }

  lemma EscapeClean(s: string, t: string)
    requires s != "" && s[0] == '\\' && t == s[1..] && t != "" && t[0] != INVALID
    ensures Clean(s) == Source(Escaped(t[0])) + Clean(t[1..])
  {
    CleanHead(s);
    CleanHead(t);
    assert Clean(s) == "\\" + Clean(t);
    Assoc("\\", [t[0]], Clean(t[1..]));
  }

  lemma MarkRuns(s: string, last: char, flags: bv8)
    requires s != "" && (s[0] == '*' || s[0] == '_')
    ensures TurnRuns(s, if s[0] == '*' then Mark(flags, BOLD, s[1..]) else Underline(s[1..], last, flags), flags)
  {
    MarkFits(flags, s[0], s[1..], last);
    CleanHead(s);
    assert FontsFrom("", flags) == Some(flags);
    assert "B"[1..] == "" && "I"[1..] == "" && "R"[1..] == "";
  }

  lemma {:induction false} FontsJoin(a: string, b: string, flags: bv8)
    requires FontsFrom(a, flags).Some?
    ensures FontsFrom(a + b, flags) == FontsFrom(b, FontsFrom(a, flags).value)
    decreases |a|
  {
    if a == "" {
      assert a + b == b;
    } else {
      assert (a + b)[1..] == a[1..] + b;
      FontsJoin(a[1..], b, if flags != 0 then 0 else if a[0] == 'B' then BOLD else UNDERLINE);
    }
  }

  lemma {:induction false} LexRuns(s: string, first: bool, last: char, flags: bv8)
    requires Lex(s, first, last, flags).Line?
    ensures var l := Lex(s, first, last, flags);
      && Clean(s) == Sources(l.units) + Tail(l.newline, "") + Clean(l.rest)
      && AllReadable(l.units) && FontsFrom(Fonts(l.units), flags) == Some(l.flags)
    decreases |s|
  {
    match Take(s, first, last, flags) {
      case Go(u, rest) =>
        TakeRuns(s, first, last, flags);
        LexRuns(rest, false, Last(u, last), After(u, flags));
        RunsPrepend(u, Lex(rest, false, Last(u, last), After(u, flags)), flags);
      case Stop(newline, rest) =>
        if s != "" {
          CleanHead(s);
        }
        assert Sources([]) + Tail(newline, "") + Clean(rest) == Tail(newline, "") + Clean(rest);
      case Fail =>
    }
  }

  lemma RunsPrepend(u: Unit, l: Line, flags: bv8)
    requires l.Line? && Readable(u) && AllReadable(l.units)
    requires FontsFrom(Font(u), flags) == Some(After(u, flags))
      && FontsFrom(Fonts(l.units), After(u, flags)) == Some(l.flags)
    ensures var us := [u] + l.units;
      && Sources(us) + Tail(l.newline, "") + Clean(l.rest)
        == Source(u) + (Sources(l.units) + Tail(l.newline, "") + Clean(l.rest))
      && AllReadable(us) && FontsFrom(Fonts(us), flags) == Some(l.flags)
  {
    assert ([u] + l.units)[1..] == l.units;
    FontsJoin(Font(u), Fonts(l.units), flags);
    AssocTwice(Source(u), Sources(l.units), Tail(l.newline, ""), Clean(l.rest));
  }

  /** The written line shows the source line, with its escapes resolved and its markers gone; its fonts
      alternate, and end with the one `flags` names. */
  lemma TextPreserved(s: string, first: bool, last: char, flags: bv8)
    requires Lex(s, first, last, flags).Line?
    ensures var l := Lex(s, first, last, flags);
      var o := Outputs(l.units) + Tail(l.newline, "");
      && Clean(s) == Sources(l.units) + Tail(l.newline, "") + Clean(l.rest)
      && Decode(o).text == Text(l.units) + Tail(l.newline, "")
      && FontsFrom(Decode(o).fonts, flags) == Some(l.flags)
  {
    var l := Lex(s, first, last, flags);
    LexRuns(s, first, last, flags);
    DecodeOutputs(l.units, Tail(l.newline, ""));
    if l.newline { DecodePlain('\n', ""); assert "\n" + "" == "\n"; }
    assert Fonts(l.units) + "" == Fonts(l.units);
  }

  // ----- Control lines -----

  predicate Control(o: string) { o != "" && (o[0] == '.' || o[0] == '\'') }

  predicate EscapesControl(s: string) { |s| >= 2 && s[0] == '\\' && (s[1] == '.' || s[1] == '\'') }

  lemma FirstUnitControl(s: string, flags: bv8)
    requires s != "" && Take(s, true, ' ', flags).Go?
    ensures var u := Take(s, true, ' ', flags).u; Output(u) != "" && (Control(Output(u)) <==> EscapesControl(s))
  {
    if s[0] == '\\' { assert s[1..][0] == s[1]; }
  }

  /** A line of text becomes a control line exactly when the source escapes its first dot or quote. */
  lemma ControlLineIff(s: string, flags: bv8)
    requires Lex(s, true, ' ', flags).Line?
    ensures var l := Lex(s, true, ' ', flags); Control(Outputs(l.units) + Tail(l.newline, "")) <==> EscapesControl(s)
  {
    var l := Lex(s, true, ' ', flags);
    match Take(s, true, ' ', flags) {
      case Go(u, rest) =>
        FirstUnitControl(s, flags);
        assert l.units[0] == u;
        assert (Output(u) + Outputs(l.units[1..]) + Tail(l.newline, ""))[0] == Output(u)[0];
      case Stop(_, _) =>
        assert Outputs(l.units) == "" && !EscapesControl(s);
      case Fail =>
    }
  }

  // Later lines of the same text begin after an explicit break and after an escaped newline.

  predicate NewLineUnit(u: Unit) { u == Break || u == Escaped('\n') }

  /** A unit as it comes after the first one. */
  predicate Later(u: Unit) {
    match u
    case Plain(c) => c != '.' && c != '\'' && c != '\\'
    case Sentence(c) => c in ".'!?"
    case Lead(_) => false
    case _ => true
  }

  predicate AllLater(us: seq<Unit>) { us == [] || (Later(us[0]) && AllLater(us[1..])) }

  lemma TakeLater(s: string, last: char, flags: bv8)
    requires Take(s, false, last, flags).Go?
    ensures Later(Take(s, false, last, flags).u)
  {
  }

  lemma {:induction false} LexLater(s: string, last: char, flags: bv8)
    requires Lex(s, false, last, flags).Line?
    ensures AllLater(Lex(s, false, last, flags).units)
    decreases |s|
  {
    match Take(s, false, last, flags) {
      case Go(u, rest) =>
        TakeLater(s, last, flags);
        LexLater(rest, Last(u, last), After(u, flags));
        var us := Lex(rest, false, Last(u, last), After(u, flags)).units;
        assert ([u] + us)[1..] == us;
      case _ =>
    }
  }

  lemma {:induction false} LaterDrop(us: seq<Unit>, i: nat)
    requires AllLater(us) && i <= |us|
    ensures AllLater(us[i..])
    decreases i
  {
    if i == 0 {
      assert us[0..] == us;
    } else {
      LaterDrop(us[1..], i - 1);
      assert us[1..][i - 1..] == us[i..];
    }
  }

  lemma LineLater(s: string, flags: bv8, i: nat)
    requires Lex(s, true, ' ', flags).Line? && 0 < i <= |Lex(s, true, ' ', flags).units|
    ensures AllLater(Lex(s, true, ' ', flags).units[i..])
  {
    var us := Lex(s, true, ' ', flags).units;
    match Take(s, true, ' ', flags) {
      case Go(u, rest) =>
        LexLater(rest, Last(u, ' '), After(u, flags));
        assert us[1..] == Lex(rest, false, Last(u, ' '), After(u, flags)).units;
        LaterDrop(us[1..], i - 1);
        assert us[1..][i - 1..] == us[i..];
      case _ =>
    }
  }

  predicate StartsControl(s: string) { Control(s) || EscapesControl(s) }

  lemma LaterControl(us: seq<Unit>, newline: bool)
    requires AllLater(us)
    ensures Control(Outputs(us) + Tail(newline, "")) <==> StartsControl(Sources(us) + Tail(newline, ""))
  {
    var tail := Tail(newline, "");
    if us == [] {
      assert Outputs(us) + tail == tail == Sources(us) + tail;
    } else {
      LaterUnitControl(us[0], Outputs(us[1..]) + tail, Sources(us[1..]) + tail);
      Assoc(Output(us[0]), Outputs(us[1..]), tail);
      Assoc(Source(us[0]), Sources(us[1..]), tail);
    }
  }

  lemma LaterUnitControl(u: Unit, a: string, b: string)
    requires Later(u)
    ensures Control(Output(u) + a) <==> StartsControl(Source(u) + b)
  {
    var o, s := Output(u) + a, Source(u) + b;
    assert o[0] == Output(u)[0] && s[0] == Source(u)[0];
    if u.Escaped? { assert s[1] == u.c; }
  }

  /** A later line of output is a control line exactly when its source begins with a dot or a quote,
      escaped or not. */
  lemma LaterLineControlIff(s: string, flags: bv8, i: nat)
    requires Lex(s, true, ' ', flags).Line? && i < |Lex(s, true, ' ', flags).units|
    requires NewLineUnit(Lex(s, true, ' ', flags).units[i])
    ensures var l := Lex(s, true, ' ', flags);
      var us := l.units[i + 1..];
      && Outputs(l.units) == Outputs(l.units[..i + 1]) + Outputs(us)
      && EndsLine(Outputs(l.units[..i + 1]))
      && (Control(Outputs(us) + Tail(l.newline, "")) <==> StartsControl(Sources(us) + Tail(l.newline, "")))
  {
    var l := Lex(s, true, ' ', flags);
    LineLater(s, flags, i + 1);
    LaterControl(l.units[i + 1..], l.newline);
    OutputsSplit(l.units, i + 1);
    OutputsEnd(l.units, i);
  }

  lemma {:induction false} OutputsSplit(us: seq<Unit>, i: nat)
    requires i <= |us|
    ensures Outputs(us) == Outputs(us[..i]) + Outputs(us[i..])
    decreases i
  {
    if i == 0 {
      assert us[0..] == us && us[..0] == [] && "" + Outputs(us) == Outputs(us);
    } else {
      OutputsSplit(us[1..], i - 1);
      assert us[..i][1..] == us[1..][..i - 1] && us[1..][i - 1..] == us[i..];
      Assoc(Output(us[0]), Outputs(us[1..][..i - 1]), Outputs(us[i..]));
    }
  }

  lemma {:induction false} OutputsEnd(us: seq<Unit>, i: nat)
    requires i < |us| && NewLineUnit(us[i])
    ensures EndsLine(Outputs(us[..i + 1]))
    decreases i
  {
    var vs := us[..i + 1];
    if i == 0 {
      assert vs[1..] == [] && Output(us[0]) + "" == Output(us[0]);
    } else {
      OutputsEnd(us[1..], i - 1);
      assert vs[1..] == us[1..][..i];
      EndsAfter(Output(us[0]), Outputs(vs[1..]));
    }
  }

  predicate EndsLine(o: string) { o != "" && o[|o| - 1] == '\n' }

  lemma EndsAfter(a: string, o: string)
    requires EndsLine(o)
    ensures EndsLine(a + o)
  {
  }

  lemma EscapedDotExample()
    ensures Lex("\\.x", true, ' ', 0) == Line([Escaped('.'), Plain('x')], false, "", 0)
    ensures Outputs([Escaped('.'), Plain('x')]) == ".x"
  {
    var us := [Escaped('.'), Plain('x')];
    assert us[1..] == [Plain('x')] && us[1..][1..] == [];
    assert Sources(us) == "\\.x";
    LexComplete("\\.x", true, ' ', 0, us, false, "", 0);
  }

  /** A dot that opens a line after an explicit break is not escaped: that line becomes a control line. */
  lemma BreakThenDotExample()
    ensures Lex("++\n.x", false, 'a', 0) == Line([Break, Sentence('.'), Plain('x')], false, "", 0)
    ensures Outputs([Break, Sentence('.'), Plain('x')]) == "\n.br\n.\\&x"
  {
    LaterDot();
    BreakTaken();
    var us := [Sentence('.'), Plain('x')];
    assert ([Break] + us)[1..] == us;
    assert Outputs([Break] + us) == "\n.br\n" + Outputs(us);
  }

  lemma BreakTaken()
    ensures Take("++\n.x", false, 'a', 0) == Go(Break, ".x")
  {
    var t := ".x";
    assert t[0] == '.';
    BreakIsComplete(t);
    assert "++\n.x"[1..] == "+\n" + t;
  }

  lemma LaterDot()
    ensures Lex(".x", false, '\n', 0) == Line([Sentence('.'), Plain('x')], false, "", 0)
    ensures Outputs([Sentence('.'), Plain('x')]) == ".\\&x"
  {
    assert "x"[1..] == "" && ".x"[1..] == "x";
    assert Take("x", false, '.', 0) == Go(Plain('x'), "");
    assert Lex("x", false, '.', 0) == Line([Plain('x')], false, "", 0);
    assert Take(".x", false, '\n', 0) == Go(Sentence('.'), "x");
    assert [Sentence('.'), Plain('x')][1..] == [Plain('x')] && Outputs([Plain('x')]) == "x";
  }
}
