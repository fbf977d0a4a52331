/** What headings, lists, blank lines and comments are written as. */
module ScdocBlocks {
  import opened Scdoc
  import opened ScdocDoc

  // ----- Headings -----

  /** A line of text that is copied as it is. */
  predicate Copyable(text: string) { '\n' !in text && INVALID !in text }

  lemma {:induction false} CopiesLine(text: string, newline: bool, rest: string)
    requires Copyable(text) && (newline || rest == "")
    ensures CopyLine(text + Tail(newline, rest)) == Copied(text + Tail(newline, ""), rest)
    decreases |text|
  {
    var tail := Tail(newline, rest);
    if text == "" {
      assert text + tail == tail && text + Tail(newline, "") == Tail(newline, "");
      if newline { assert tail[1..] == rest; }
    } else {
      assert text[0] in text && (text + tail)[0] == text[0] && (text + tail)[1..] == text[1..] + tail;
      CopiesLine(text[1..], newline, rest);
      assert [text[0]] + (text[1..] + Tail(newline, "")) == text + Tail(newline, "");
    }
  }

  lemma {:induction false} CountsSigns(n: nat, c: char, s: string, level: nat)
    requires c != '#'
    ensures HeadingLevel(Repeat('#', n) + ([c] + s), level) == if c == ' ' then Level(level + n, s) else NoLevel
    decreases n
  {
    var t := Repeat('#', n) + ([c] + s);
    if n == 0 {
      assert t[0] == c && t[1..] == s;
    } else {
      assert t[0] == '#' && t[1..] == Repeat('#', n - 1) + ([c] + s);
      CountsSigns(n - 1, c, s, level + 1);
    }
  }

  /** At the left margin one sign makes a section, two a subsection, with the text of the line as it is; more signs,
      and anything but a blank after them, are errors. */
  lemma HeadingWrites(n: nat, c: char, text: string, newline: bool, rest: string, flags: bv8)
    requires n > 0 && c != '#' && Copyable(text) && (newline || rest == "")
    ensures var p := BlockAt(Repeat('#', n) + ([c] + (text + Tail(newline, rest))), 0, flags).part;
      if c == ' ' && n <= 2 then
        && p.Part? && p.rest == rest && p.indent == 0 && p.flags == flags
        && Render(p.pieces) == (if n == 1 then ".SH " else ".SS ") + (text + Tail(newline, ""))
      else p == Fault
  {
    var t := [c] + (text + Tail(newline, rest));
    var s := Repeat('#', n) + t;
    assert s[0] == '#' && s[1..] == Repeat('#', n - 1) + t;
    CountsSigns(n - 1, c, text + Tail(newline, rest), 1);
    CopiesLine(text, newline, rest);
    assert BlockAt(s, 0, flags).part == HeadingAt(s[1..], 0, flags);
    if c == ' ' && n <= 2 { RenderTwo(if n == 1 then ".SH " else ".SS ", text + Tail(newline, "")); }
  }

  lemma RenderTwo(a: string, b: string)
    ensures Render([Raw(a), Raw(b)]) == a + b
  {
    var ps := [Raw(a), Raw(b)];
    assert ps[1..] == [Raw(b)] && ps[1..][1..] == [];
    assert Render(ps[1..]) == b + Render([]) && b + "" == b;
  }

  /** A blank line starts a paragraph, and is an error while a font is open; a comment writes nothing. */
  lemma BlankAndComment(text: string, rest: string, indent: nat, flags: bv8)
    requires Copyable(text)
    ensures BlockAt("\n" + rest, indent, flags)
         == Block(if flags == 0 then Part([Raw(".PP\n")], rest, indent, 0, false) else Fault, true)
    ensures BlockAt("; " + (text + ("\n" + rest)), indent, flags) == Block(Part([], rest, indent, flags, false), true)
    ensures BlockAt("; " + text, indent, flags) == Block(Part([], "", indent, flags, false), false)
  {
    assert ("\n" + rest)[1..] == rest;
    var t, u := text + ("\n" + rest), text + "";
    assert ("; " + t)[1..] == " " + t && (" " + t)[1..] == t;
    assert ("; " + text)[1..] == " " + text && (" " + text)[1..] == text && u == text;
    CommentEnds(text, true, rest);
    CommentEnds(text, false, "");
  }

  lemma {:induction false} CommentEnds(text: string, newline: bool, rest: string)
    requires Copyable(text) && (newline || rest == "")
    ensures Comment(text + Tail(newline, rest)) == (rest, newline)
    decreases |text|
  {
    var tail := Tail(newline, rest);
    if text == "" {
      assert text + tail == tail;
      if newline { assert tail[1..] == rest; }
    } else {
      assert text[0] in text && (text + tail)[0] == text[0] && (text + tail)[1..] == text[1..] + tail;
      CommentEnds(text[1..], newline, rest);
    }
  }

  /** An invalid character ends a comment and with it the document; a bracket or bar begins a table at the left margin
      and is an error elsewhere; a blank is passed over; a comment sign without a blank is an error. */
  lemma OtherBeginnings(text: string, s: string, c: char, indent: nat, flags: bv8)
    requires Copyable(text)
    ensures BlockAt("; " + (text + ([INVALID] + s)), indent, flags) == Block(Part([], s, indent, flags, false), false)
    ensures c == '[' || c == '|' || c == ']' ==>
      BlockAt([c] + s, indent, flags).part == if indent == 0 then Table else Fault
    ensures BlockAt(" " + s, indent, flags) == Block(Part([], s, indent, flags, false), true)
    ensures s == "" || s[0] != ' ' ==> BlockAt(";" + s, indent, flags).part == Fault
    ensures s == "" || s[0] != ' ' ==> BlockAt("-" + s, indent, flags).part == Fault
  {
    var t := text + ([INVALID] + s);
    assert ("; " + t)[1..] == " " + t && (" " + t)[1..] == t;
    CommentBreaks(text, s);
    assert ([c] + s)[0] == c && (" " + s)[1..] == s && (";" + s)[1..] == s && ("-" + s)[1..] == s;
  }

  lemma {:induction false} CommentBreaks(text: string, s: string)
    requires Copyable(text)
    ensures Comment(text + ([INVALID] + s)) == (s, false)
    decreases |text|
  {
    var t := text + ([INVALID] + s);
    if text == "" {
      assert t[0] == INVALID && t[1..] == s;
    } else {
      assert text[0] in text && t[0] == text[0] && t[1..] == text[1..] + ([INVALID] + s);
      CommentBreaks(text[1..], s);
    }
  }

  // ----- Indentation -----

  function Ends(n: nat): string { if n == 0 then "" else ".RE\n" + Ends(n - 1) }

  lemma {:induction false} ClosesWrite(n: nat)
    ensures Render(Closes(n)) == Ends(n)
    decreases n
  {
    if n > 0 { ClosesWrite(n - 1); }
  }

  /** A line that begins with `n` tabs and something else goes to level `n` if it rises by one at most: one opening is
      written for a rise and one closing for each level it falls by. */
  lemma IndentWrites(n: nat, c: char, s: string, indent: nat)
    requires c != '\t' && c != '\n' && c != INVALID
    ensures var i := IndentAt(Repeat('\t', n) + ([c] + s), indent, true);
      if n > indent + 1 then i == TooDeep
      else
        && i.Indented? && i.level == n && i.rest == [c] + s
        && Render(i.pieces) == if n == indent + 1 then ".RS 4\n" else Ends(indent - n)
  {
    TabsCount(n, [c] + s);
    Uncons([c] + s);
    if n < indent { ClosesWrite(indent - n); }
    if n == indent + 1 { assert Render([Rs]) == ".RS 4\n" + "" == ".RS 4\n"; }
  }

  /** An empty line keeps the level, but at the left margin its tabs count. */
  lemma EmptyLineKeeps(n: nat, s: string, indent: nat)
    requires indent > 0 || n == 0
    ensures IndentAt(Repeat('\t', n) + ("\n" + s), indent, true) == Indented(indent, [], "\n" + s)
  {
    TabsCount(n, "\n" + s);
    Uncons("\n" + s);
  }

  /** An invalid character is an error where a block, a list line or a heading is to begin,
    and anywhere in a heading. */
  lemma InvalidIsError(s: string, text: string, indent: nat, num: Option<nat>, flags: bv8)
    requires '\n' !in text && INVALID !in text
    ensures BlockAt([INVALID] + s, indent, flags).part == Fault
    ensures ListRest([INVALID] + s, indent, num, flags) == Fault
    ensures CopyLine(text + ([INVALID] + s)) == NotCopied
  {
    CopyFails(text, s);
  }

  lemma {:induction false} CopyFails(text: string, s: string)
    requires '\n' !in text && INVALID !in text
    ensures CopyLine(text + ([INVALID] + s)) == NotCopied
    decreases |text|
  {
    var t := text + ([INVALID] + s);
    if text != "" {
      assert text[0] in text && t[0] == text[0] && t[1..] == text[1..] + ([INVALID] + s);
      CopyFails(text[1..], s);
    }
  }

  // ----- Numbers -----

  predicate Digits(s: string) { forall i :: 0 <= i < |s| ==> '0' <= s[i] <= '9' }

  function NumberOf(s: string): nat
    requires Digits(s)
  {
    if s == "" then 0 else 10 * NumberOf(s[..|s| - 1]) + (s[|s| - 1] as int - 48)
  }

  /** A number is written in decimal digits, without leading zeros. */
  lemma {:induction false} DecimalReads(n: nat)
    ensures var s := Decimal(n); s != "" && Digits(s) && NumberOf(s) == n && (n > 0 ==> s[0] != '0')
    decreases n
  {
    var s := Decimal(n);
    if n < 10 {
      assert s == [(48 + n) as char] && s[..0] == "";
    } else {
      DecimalReads(n / 10);
      var t, c := Decimal(n / 10), (48 + n % 10) as char;
      assert s == t + [c] && s[..|s| - 1] == t && s[|s| - 1] == c;
    }
  }

  // ----- Lists -----

  /** The line `l` is read as these units, whatever line comes after it. */
  ghost predicate IsLine(l: string, us: seq<Unit>) {
    forall rest :: Lex(l + ("\n" + rest), true, ' ', 0) == Line(us, true, rest, 0)
  }

  datatype Item = Item(line: string, units: seq<Unit>)

  ghost predicate AllLines(items: seq<Item>) {
    forall i :: 0 <= i < |items| ==> IsLine(items[i].line, items[i].units)
  }

  /** The entries of a list at a level, each with its mark. */
  function Entries(items: seq<Item>, indent: nat, mark: char): string {
    if items == [] then ""
    else Repeat('\t', indent) + ([mark, ' '] + (items[0].line + ("\n" + Entries(items[1..], indent, mark))))
  }

  function Numbered(items: seq<Item>, n: nat): string {
    if items == [] then ""
    else ".IP " + Decimal(n) + ". 4\n" + (Outputs(items[0].units) + "\n" + Numbered(items[1..], n + 1))
  }

  function Bulleted(items: seq<Item>): string {
    if items == [] then ""
    else ".IP \\(bu 4\n" + (Outputs(items[0].units) + "\n" + Bulleted(items[1..]))
  }

  function Listed(items: seq<Item>, num: Option<nat>): string {
    match num case None => Bulleted(items) case Some(n) => Numbered(items, n)
  }

  lemma {:induction false} TabsCount(n: nat, s: string)
    requires s != "" && s[0] != '\t'
    ensures Tabs(Repeat('\t', n) + s) == n && (Repeat('\t', n) + s)[n..] == s
    decreases n
  {
    var t := Repeat('\t', n) + s;
    if n == 0 {
      assert t == s;
    } else {
      assert t[0] == '\t' && t[1..] == Repeat('\t', n - 1) + s;
      TabsCount(n - 1, s);
      assert t[n..] == t[1..][n - 1..];
    }
  }

  /** A line at the level of the list. */
  lemma SameLevel(indent: nat, s: string)
    requires s != "" && s[0] != '\t' && s[0] != '\n' && s[0] != INVALID
    ensures IndentAt(Repeat('\t', indent) + s, indent, true) == Indented(indent, [], s)
  {
    TabsCount(indent, s);
    Uncons(s);
  }

  /** Everything is written, and the input is used up. */
  predicate Whole(p: Part, text: string, indent: nat) {
    p.Part? && Render(p.pieces) == text && p.rest == "" && p.indent == indent && p.flags == 0 && !p.unclosed
  }

  lemma EndOfList(indent: nat, num: Option<nat>)
    ensures Whole(ListLines("", indent, num, 0), "", indent)
  {
    assert IndentAt("", indent, true).Indented?;
  }

  lemma WholeText(item: Item, indent: nat, num: Option<nat>, more: string, text: string)
    requires IsLine(item.line, item.units) && Whole(ListLines(more, indent, num, 0), text, indent)
    ensures Whole(ListText(item.line + ("\n" + more), indent, num, 0), Outputs(item.units) + "\n" + text, indent)
  {
    var l := Line(item.units, true, more, 0);
    assert Lex(item.line + ("\n" + more), true, ' ', 0) == l;
    assert Out(l) == Outputs(item.units) + "\n";
    RenderRaw(Out(l), ListLines(more, indent, num, 0));
  }

  predicate MarkFor(mark: char) { mark == '-' || mark == '.' }

  /** An entry whose text is read whole, with its mark and header. */
  lemma {:induction false} MarkedEntry(t: string, indent: nat, mark: char, num: Option<nat>, text: string)
    requires MarkFor(mark) && Whole(ListText(t, indent, NextNum(num), 0), text, indent)
    ensures Whole(ListLines(Repeat('\t', indent) + ([mark, ' '] + t), indent, num, 0), Header(num) + text, indent)
  {
    var s := [mark, ' '] + t;
    SameLevel(indent, s);
    assert s[0] == mark && s[1] == ' ' && s[2..] == t;
    RenderRaw(Header(num), ListText(t, indent, NextNum(num), 0));
    AppendNone(ListRest(s, indent, num, 0));
  }

  lemma {:induction false} FirstEntry(t: string, indent: nat, mark: char, text: string)
    requires MarkFor(mark)
    requires Whole(ListText(t, indent, NextNum(if mark == '-' then None else Some(1)), 0), text, indent)
    ensures Whole(BlockAt([mark, ' '] + t, indent, 0).part,
                  ".PD 0\n" + (Header(if mark == '-' then None else Some(1)) + text), indent)
  {
    var num: Option<nat> := if mark == '-' then None else Some(1);
    var s := [mark, ' '] + t;
    assert s[0] == mark && s[1..] == [' '] + t && ([' '] + t)[1..] == t;
    RenderRaws(".PD 0\n", Header(num), ListText(t, indent, NextNum(num), 0));
    assert BlockAt(s, indent, 0).part == ListAt([' '] + t, indent, num, 0);
  }

  lemma {:induction false} ListGoesOn(items: seq<Item>, indent: nat, mark: char, num: Option<nat>)
    requires AllLines(items) && MarkFor(mark)
    ensures Whole(ListLines(Entries(items, indent, mark), indent, num, 0), Listed(items, num), indent)
    decreases |items|
  {
    if items == [] {
      EndOfList(indent, num);
    } else {
      var next := NextNum(num);
      var more := Entries(items[1..], indent, mark);
      var text := Outputs(items[0].units) + "\n" + Listed(items[1..], next);
      ListGoesOn(items[1..], indent, mark, next);
      WholeText(items[0], indent, next, more, Listed(items[1..], next));
      MarkedEntry(items[0].line + ("\n" + more), indent, mark, num, text);
      HeaderFirst(items, num);
    }
  }

  lemma AppendNone(p: Part)
    ensures Append([], p) == p
  {
    if p.Part? { assert [] + p.pieces == p.pieces; }
  }

  lemma HeaderFirst(items: seq<Item>, num: Option<nat>)
    requires items != []
    ensures Listed(items, num)
         == Header(num) + (Outputs(items[0].units) + "\n" + Listed(items[1..], NextNum(num)))
  {
  }

  /** A list of any entries is written with one header before each: the bullets of a list with dashes, or the numbers
      1, 2, 3 and so on of a list with dots. */
  lemma {:induction false} ListWrites(items: seq<Item>, indent: nat, mark: char)
    requires items != [] && AllLines(items) && MarkFor(mark)
    ensures var s := [mark, ' '] + (items[0].line + ("\n" + Entries(items[1..], indent, mark)));
      Whole(BlockAt(s, indent, 0).part, ".PD 0\n" + if mark == '-' then Bulleted(items) else Numbered(items, 1), indent)
  {
    var num: Option<nat> := if mark == '-' then None else Some(1);
    var more := Entries(items[1..], indent, mark);
    ListGoesOn(items[1..], indent, mark, NextNum(num));
    WholeText(items[0], indent, NextNum(num), more, Listed(items[1..], NextNum(num)));
    FirstEntry(items[0].line + ("\n" + more), indent, mark,
               Outputs(items[0].units) + "\n" + Listed(items[1..], NextNum(num)));
    HeaderFirst(items, num);
  }

  /** A line of two blanks goes on with the entry before it, without a header. */
  lemma {:induction false} ListContinues(line: string, us: seq<Unit>, rest: string, indent: nat, num: Option<nat>)
    requires IsLine(line, us)
    ensures ListLines(Repeat('\t', indent) + ("  " + (line + ("\n" + rest))), indent, num, 0)
         == Append([Raw(Outputs(us) + "\n")], ListLines(rest, indent, num, 0))
  {
    var t := line + ("\n" + rest);
    var s := "  " + t;
    SameLevel(indent, s);
    assert s[0] == ' ' && s[1] == ' ' && s[2..] == t && Lex(t, true, ' ', 0) == Line(us, true, rest, 0);
    AppendNone(ListRest(s, indent, num, 0));
    assert ListRest(s, indent, num, 0) == ListText(t, indent, num, 0);
    assert Out(Line(us, true, rest, 0)) == Outputs(us) + "\n";
  }

  /** Any other line at this level ends the list, with the distance between paragraphs put back. */
  lemma {:induction false} ListEnds(rest: string, c: char, indent: nat, num: Option<nat>, flags: bv8)
    requires c !in " -.\t\n" && c != INVALID
    ensures ListLines(Repeat('\t', indent) + ([c] + rest), indent, num, flags)
         == Part([Raw(".PD\n")], [c] + rest, indent, flags, false)
  {
    var e := [c] + rest;
    SameLevel(indent, e);
    assert e[0] == c;
    AppendNone(ListRest(e, indent, num, flags));
  }

  // ----- Documents -----

  /** A block of one line at the left margin: a heading, a line of text, a blank line or a comment. */
  datatype Single = Head(signs: nat, text: string) | Para(item: Item) | BlankLine | Note(text: string)

  /** A line of text that begins no other block. */
  predicate Ordinary(l: string) {
    l != "" && l[0] !in "#.;-`[|] \t\n" && l[0] != INVALID
  }

  ghost predicate SingleOk(x: Single) {
    match x
    case Head(signs, text) => 1 <= signs <= 2 && Copyable(text)
    case Para(item) => IsLine(item.line, item.units) && Ordinary(item.line)
    case BlankLine => true
    case Note(text) => Copyable(text)
  }

  function SourceOf(x: Single): string {
    match x
    case Head(signs, text) => Repeat('#', signs) + (" " + text)
    case Para(item) => item.line
    case BlankLine => ""
    case Note(text) => "; " + text
  }

  function WrittenOf(x: Single): string {
    match x
    case Head(signs, text) => (if signs == 1 then ".SH " else ".SS ") + (text + "\n")
    case Para(item) => Outputs(item.units) + "\n"
    case BlankLine => ".PP\n"
    case Note(_) => ""
  }

  function Lines(xs: seq<Single>): string { if xs == [] then "" else SourceOf(xs[0]) + ("\n" + Lines(xs[1..])) }

  function AllWritten(xs: seq<Single>): string { if xs == [] then "" else WrittenOf(xs[0]) + AllWritten(xs[1..]) }

  /** The block takes its line and writes this. */
  predicate TakesLine(b: Block, text: string, rest: string) {
    b.goesOn && b.part.Part? && Render(b.part.pieces) == text && b.part.rest == rest && b.part.indent == 0
    && b.part.flags == 0 && !b.part.unclosed
  }

  lemma {:induction false} ParaTakesLine(item: Item, rest: string)
    requires IsLine(item.line, item.units) && Ordinary(item.line)
    ensures TakesLine(BlockAt(item.line + ("\n" + rest), 0, 0), Outputs(item.units) + "\n", rest)
  {
    var s, l := item.line + ("\n" + rest), Line(item.units, true, rest, 0);
    assert s[0] == item.line[0] && Lex(s, true, ' ', 0) == l;
    assert BlockAt(s, 0, 0) == Block(TextAt(s, 0, 0), true);
    assert Out(l) == Outputs(item.units) + "\n" && Out(l) + "" == Out(l);
    assert Render([Raw(Out(l))]) == Out(l) + "";
  }

  lemma {:induction false} NoteTakesLine(text: string, rest: string)
    requires Copyable(text)
    ensures TakesLine(BlockAt("; " + text + ("\n" + rest), 0, 0), "", rest)
  {
    BlankAndComment(text, rest, 0, 0);
    assert "; " + text + ("\n" + rest) == "; " + (text + ("\n" + rest));
  }

  lemma {:induction false} HeadTakesLine(signs: nat, text: string, rest: string)
    requires 1 <= signs <= 2 && Copyable(text)
    ensures TakesLine(BlockAt(Repeat('#', signs) + (" " + text) + ("\n" + rest), 0, 0),
                      (if signs == 1 then ".SH " else ".SS ") + (text + "\n"), rest)
  {
    HeadingWrites(signs, ' ', text, true, rest, 0);
    var s := Repeat('#', signs) + ([' '] + (text + Tail(true, rest)));
    assert Repeat('#', signs) + (" " + text) + ("\n" + rest) == s;
    assert s[0] == '#' by { assert Repeat('#', signs)[0] == '#'; }
  }

  lemma {:induction false} BlankTakesLine(rest: string)
    ensures TakesLine(BlockAt("\n" + rest, 0, 0), ".PP\n", rest)
  {
    BlankAndComment("", rest, 0, 0);
    assert Render([Raw(".PP\n")]) == ".PP\n" + "" == ".PP\n";
  }

  lemma {:induction false} SingleTakesLine(x: Single, rest: string)
    requires SingleOk(x)
    ensures var s := SourceOf(x) + ("\n" + rest); s != "" && TakesLine(BlockAt(s, 0, 0), WrittenOf(x), rest)
    ensures (SourceOf(x) + ("\n" + rest))[0] != '\t' && (SourceOf(x) + ("\n" + rest))[0] != INVALID
  {
    match x {
      case Head(signs, text) =>
        HeadTakesLine(signs, text, rest);
        assert (SourceOf(x) + ("\n" + rest))[0] == Repeat('#', signs)[0] == '#';
      case Para(item) =>
        ParaTakesLine(item, rest);
        assert (item.line + ("\n" + rest))[0] == item.line[0];
      case BlankLine =>
        assert "" + ("\n" + rest) == "\n" + rest;
        BlankTakesLine(rest);
      case Note(text) =>
        NoteTakesLine(text, rest);
        assert (SourceOf(x) + ("\n" + rest))[0] == ';';
    }
  }

  lemma {:induction false} MarginLine(s: string)
    requires s != "" && s[0] != '\t' && s[0] != INVALID
    ensures IndentAt(s, 0, true) == Indented(0, [], s)
  {
    Uncons(s);
    assert s[0..] == s;
  }

  lemma {:induction false} DocumentStep(s: string, text: string, rest: string, more: string)
    requires s != "" && s[0] != '\t' && s[0] != INVALID && TakesLine(BlockAt(s, 0, 0), text, rest)
    requires Whole(Document(rest, 0, 0), more, 0)
    ensures Whole(Document(s, 0, 0), text + more, 0)
  {
    MarginLine(s);
    var b := BlockAt(s, 0, 0);
    RenderAppend([] + b.part.pieces, Document(rest, 0, 0).pieces);
    assert [] + b.part.pieces == b.part.pieces;
  }

  /** A document of headings, lines of text, blank lines and comments is written block by block, in order and to its
      end. */
  lemma {:induction false} DocumentWrites(xs: seq<Single>)
    requires forall i :: 0 <= i < |xs| ==> SingleOk(xs[i])
    ensures Whole(Document(Lines(xs), 0, 0), AllWritten(xs), 0)
    decreases |xs|
  {
    if xs == [] {
      assert IndentAt("", 0, true) == Indented(0, [], "");
    } else {
      var rest := Lines(xs[1..]);
      SingleTakesLine(xs[0], rest);
      DocumentWrites(xs[1..]);
      DocumentStep(Lines(xs), WrittenOf(xs[0]), rest, AllWritten(xs[1..]));
    }
  }
}
