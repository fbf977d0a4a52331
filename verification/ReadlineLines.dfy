/** Whole command lines: options with and without values, bare words, and lines that begin with an exclamation
    mark. */
module ReadlineLines {
  import opened Readline

  // ----- Types of arguments -----

  /** The names that give a value a type, with that type, and those of flags. */
  const VALUE_NAMES: seq<(string, ArgType)> :=
    [("pat", Pattern), ("sub", Sub), ("range", Range), ("bufname", BufName), ("fname", FileName)]

  const FLAG_NAMES: seq<(string, ArgType)> :=
    [("i", Interactive), ("interactive", Interactive), ("global", Global), ("append", Append),
     ("verbose", Verbose), ("r", Recursive), ("recursive", Recursive)]

  predicate Named(table: seq<(string, ArgType)>, name: string) {
    exists i :: 0 <= i < |table| && table[i].0 == name
  }

  /** A name in a table has the type it has there, and any other name has none. */
  lemma KindsByName(name: string)
    ensures forall i :: 0 <= i < |VALUE_NAMES| && VALUE_NAMES[i].0 == name ==> OptionKind(name) == VALUE_NAMES[i].1
    ensures !Named(VALUE_NAMES, name) ==> OptionKind(name) == AnyType
    ensures forall i :: 0 <= i < |FLAG_NAMES| && FLAG_NAMES[i].0 == name ==> FlagKind(name) == FLAG_NAMES[i].1
    ensures !Named(FLAG_NAMES, name) ==> FlagKind(name) == AnyType
  {
    var v, f := VALUE_NAMES, FLAG_NAMES;
    assert v[0].0 == "pat" && v[1].0 == "sub" && v[2].0 == "range" && v[3].0 == "bufname" && v[4].0 == "fname";
    assert f[0].0 == "i" && f[1].0 == "interactive" && f[2].0 == "global" && f[3].0 == "append";
    assert f[4].0 == "verbose" && f[5].0 == "r" && f[6].0 == "recursive";
  }

  // ----- Items of a line -----

  /** An option with a quoted value, one without a value, each with two dashes or one, or a bare word. */
  datatype Item = Set(long: bool, name: string, value: string) | Flag(long: bool, name: string) | Bare(word: string)

  function Dashes(long: bool): string { if long then "--" else "-" }

  function Write(x: Item): string {
    match x
    case Set(long, name, value) => Dashes(long) + (name + ("=\"" + Escape(value) + "\""))
    case Flag(long, name) => Dashes(long) + name
    case Bare(word) => word
  }

  /** Items separated by any number of blanks. */
  function WriteAll(xs: seq<Item>, blanks: nat): string
    requires blanks > 0
  {
    if xs == [] then "" else Write(xs[0]) + (Blanks(blanks) + WriteAll(xs[1..], blanks))
  }

  function Blanks(n: nat): string { if n == 0 then "" else " " + Blanks(n - 1) }

  predicate Plain(name: string) { name != "" && ' ' !in name && '=' !in name && name[0] != '-' }

  predicate ItemOk(commands: seq<Command>, com: Com, x: Item) {
    match x
    case Set(_, name, value) =>
      && Plain(name) && name != "command" && Quotable(value)
      && (Named(VALUE_NAMES, name) || Recognized(commands, com, name))
    case Flag(_, name) => Plain(name)
    case Bare(word) => word != "" && ' ' !in word && '*' !in word && word[0] != '-'
  }

  /** What an item stands for: a value of the type its name gives it, a flag, or the name of a file. */
  function Meaning(x: Item): Arg {
    match x
    case Set(_, name, value) => Arg(name, Some(value), OptionKind(name))
    case Flag(_, name) => Arg(name, None, FlagKind(name))
    case Bare(word) => Arg(word, Some(word), FileName)
  }

  function Meanings(xs: seq<Item>): seq<Arg> { seq(|xs|, i requires 0 <= i < |xs| => Meaning(xs[i])) }

  function With(p: Parsed, a: Arg): Parsed { p.(args := p.args + [a]) }

  lemma {:induction false} BlanksPass(commands: seq<Command>, n: nat, s: string, p: Parsed)
    ensures ParseArgs(commands, Blanks(n) + s, p) == ParseArgs(commands, s, p)
    decreases n
  {
    if n == 0 {
      assert Blanks(0) + s == s;
    } else {
      assert Blanks(n) + s == " " + (Blanks(n - 1) + s) && (Blanks(n) + s)[1..] == Blanks(n - 1) + s;
      BlanksPass(commands, n - 1, s, p);
    }
  }

  lemma AfterDashes(long: bool, name: string, t: string)
    requires Plain(name)
    ensures var s := Dashes(long) + (name + t);
      s != "" && s[0] == '-' && (if |s| > 1 && s[1] == '-' then s[2..] else s[1..]) == name + t
  {
    var s := Dashes(long) + (name + t);
    assert (name + t)[0] == name[0];
    if long { assert s[0] == '-' && s[1] == '-' && s[2..] == name + t; }
    else { assert s[0] == '-' && s[1] == name[0] && s[1..] == name + t; }
  }

  lemma OptionParsed(commands: seq<Command>, long: bool, name: string, t: string, value: Option<string>, flagged: bool,
                     rest: string, p: Parsed)
    requires Plain(name) && ScanOption(name + t, "") == Opt(name, value, flagged, rest)
    ensures ParseArgs(commands, Dashes(long) + (name + t), p)
         == ParseArgs(commands, Next(rest), Accept(commands, p, name, value, flagged))
  {
    AfterDashes(long, name, t);
    assert (name + t)[0] == name[0];
  }

  lemma BlankPasses(commands: seq<Command>, more: string, p: Parsed)
    ensures ParseArgs(commands, " " + more, p) == ParseArgs(commands, more, p)
  {
    assert (" " + more)[0] == ' ' && (" " + more)[1..] == more;
  }

  lemma ReadSet(commands: seq<Command>, long: bool, name: string, value: string, more: string, p: Parsed)
    requires ItemOk(commands, p.com, Set(long, name, value))
    ensures ParseArgs(commands, Write(Set(long, name, value)) + (" " + more), p)
         == ParseArgs(commands, more, With(p, Meaning(Set(long, name, value))))
  {
    var rest := " " + more;
    var t := "=\"" + Escape(value) + "\"" + rest;
    SetText(long, name, value, rest);
    ScanSetting(Setting(name, value), rest);
    OptionParsed(commands, long, name, t, Some(value), true, "\"" + rest, p);
    AcceptSet(commands, long, name, value, p);
    assert Next("\"" + rest) == rest;
    BlankPasses(commands, more, With(p, Meaning(Set(long, name, value))));
  }

  lemma AcceptSet(commands: seq<Command>, long: bool, name: string, value: string, p: Parsed)
    requires ItemOk(commands, p.com, Set(long, name, value))
    ensures Accept(commands, p, name, Some(value), true) == With(p, Meaning(Set(long, name, value)))
  {
    KindsByName(name);
  }

  lemma SetText(long: bool, name: string, value: string, rest: string)
    ensures Write(Set(long, name, value)) + rest == Dashes(long) + (name + ("=\"" + Escape(value) + "\"" + rest))
  {
  }

  lemma {:induction false} ScanFlag(name: string, opt: string, rest: string)
    requires ' ' !in name && '=' !in name && (rest == "" || rest[0] == ' ')
    ensures ScanOption(name + rest, opt) == Opt(opt + name, None, false, rest)
    decreases |name|
  {
    if name == "" {
      assert name + rest == rest && opt + name == opt;
    } else {
      var s := name + rest;
      assert s[1..] == name[1..] + rest && s[0] == name[0] && name[0] in name;
      assert (opt + [name[0]]) + name[1..] == opt + name;
      ScanFlag(name[1..], opt + [name[0]], rest);
    }
  }

  lemma ReadFlag(commands: seq<Command>, long: bool, name: string, more: string, p: Parsed)
    requires Plain(name)
    ensures ParseArgs(commands, Write(Flag(long, name)) + (" " + more), p)
         == ParseArgs(commands, more, With(p, Arg(name, None, FlagKind(name))))
  {
    var rest := " " + more;
    var s := Dashes(long) + (name + rest);
    assert Write(Flag(long, name)) + rest == s;
    ScanFlag(name, "", rest);
    assert "" + name == name && Next(rest) == more;
    OptionParsed(commands, long, name, rest, None, false, rest, p);
  }

  lemma ReadWord(commands: seq<Command>, word: string, more: string, p: Parsed)
    requires word != "" && ' ' !in word && '*' !in word && word[0] != '-'
    ensures ParseArgs(commands, word + (" " + more), p)
         == ParseArgs(commands, more, With(p, Arg(word, Some(word), FileName)))
  {
    var s := word + (" " + more);
    assert word[0] in word && s[0] == word[0];
    WordOf(word, " " + more);
    assert Next(" " + more) == more;
  }

  lemma ReadOne(commands: seq<Command>, x: Item, more: string, p: Parsed)
    requires ItemOk(commands, p.com, x)
    ensures ParseArgs(commands, Write(x) + (" " + more), p) == ParseArgs(commands, more, With(p, Meaning(x)))
  {
    match x
    case Set(long, name, value) => ReadSet(commands, long, name, value, more, p);
    case Flag(long, name) => ReadFlag(commands, long, name, more, p);
    case Bare(word) => ReadWord(commands, word, more, p);
  }

  lemma BlankFirst(n: nat, s: string)
    requires n > 0
    ensures Blanks(n) + s == " " + (Blanks(n - 1) + s) && (Blanks(n) + s)[0] == ' '
  {
  }

  lemma MoreBlanks(commands: seq<Command>, word: string, more: string, blanks: nat, p: Parsed, q: Parsed)
    requires blanks > 0
    requires var tail := Blanks(blanks - 1) + more;
      ParseArgs(commands, word + (" " + tail), p) == ParseArgs(commands, tail, q)
    ensures ParseArgs(commands, word + (Blanks(blanks) + more), p) == ParseArgs(commands, more, q)
  {
    BlankFirst(blanks, more);
    BlanksPass(commands, blanks - 1, more, q);
  }

  lemma ReadItem(commands: seq<Command>, x: Item, more: string, blanks: nat, p: Parsed)
    requires blanks > 0 && ItemOk(commands, p.com, x)
    ensures ParseArgs(commands, Write(x) + (Blanks(blanks) + more), p) == ParseArgs(commands, more, With(p, Meaning(x)))
  {
    ReadOne(commands, x, Blanks(blanks - 1) + more, p);
    MoreBlanks(commands, Write(x), more, blanks, p, With(p, Meaning(x)));
  }

  lemma {:induction false} ReadItems(commands: seq<Command>, xs: seq<Item>, blanks: nat, p: Parsed)
    requires blanks > 0 && forall i :: 0 <= i < |xs| ==> ItemOk(commands, p.com, xs[i])
    ensures ParseArgs(commands, WriteAll(xs, blanks), p) == p.(args := p.args + Meanings(xs))
    decreases |xs|
  {
    if xs == [] {
      assert p.args + Meanings(xs) == p.args;
    } else {
      var x, more := xs[0], WriteAll(xs[1..], blanks);
      var q := With(p, Meaning(x));
      ReadItem(commands, x, more, blanks, p);
      ReadItems(commands, xs[1..], blanks, q);
      assert q.args + Meanings(xs[1..]) == p.args + Meanings(xs);
    }
  }

  lemma {:induction false} BlanksSkipped(n: nat, s: string)
    ensures SkipBlanks(Blanks(n) + s) == SkipBlanks(s)
    decreases n
  {
    if n == 0 {
      assert Blanks(0) + s == s;
    } else {
      assert Blanks(n) + s == " " + (Blanks(n - 1) + s) && (Blanks(n) + s)[1..] == Blanks(n - 1) + s;
      BlanksSkipped(n - 1, s);
    }
  }

  lemma ParseOf(commands: seq<Command>, line: string, name: string, rest: string)
    requires CommandOf(line) == (name, rest)
    ensures Parse(commands, line) == ParseArgs(commands, rest, Parsed(Lookup(commands, name, 0), []))
  {
  }

  lemma CommandWord(name: string, rest: string, before: nat)
    requires name != "" && ' ' !in name && name[0] != '!' && (rest == "" || rest[0] == ' ')
    ensures CommandOf(Blanks(before) + (name + rest)) == (name, rest)
  {
    BlanksSkipped(before, name + rest);
    assert name[0] in name && (name + rest)[0] == name[0];
    WordOf(name, rest);
  }

  /** A line of a command and any items, with any blanks before and between them, is read as the first command
      registered by that name, or none, and the meanings of the items in order. */
  lemma ItemsRoundTrip(commands: seq<Command>, name: string, xs: seq<Item>, before: nat, blanks: nat)
    requires name != "" && ' ' !in name && name[0] != '!' && blanks > 0
    requires forall i :: 0 <= i < |xs| ==> ItemOk(commands, Lookup(commands, name, 0), xs[i])
    ensures Parse(commands, Blanks(before) + (name + (Blanks(blanks) + WriteAll(xs, blanks))))
         == Parsed(Lookup(commands, name, 0), Meanings(xs))
  {
    var rest := Blanks(blanks) + WriteAll(xs, blanks);
    BlankFirst(blanks, WriteAll(xs, blanks));
    CommandWord(name, rest, before);
    ParseOf(commands, Blanks(before) + (name + rest), name, rest);
    BlanksPass(commands, blanks, WriteAll(xs, blanks), Parsed(Lookup(commands, name, 0), []));
    ReadItems(commands, xs, blanks, Parsed(Lookup(commands, name, 0), []));
    assert [] + Meanings(xs) == Meanings(xs);
  }

  /** A line that begins with an exclamation mark has that for its command, and its words, the first one with the
      mark, for arguments. */
  lemma BangLine(commands: seq<Command>, word: string, xs: seq<Item>, before: nat, blanks: nat)
    requires ' ' !in word && '*' !in word && blanks > 0
    requires forall i :: 0 <= i < |xs| ==> ItemOk(commands, Lookup(commands, "!", 0), xs[i])
    ensures Parse(commands, Blanks(before) + WriteAll([Bare("!" + word)] + xs, blanks))
         == Parsed(Lookup(commands, "!", 0), [Arg("!" + word, Some("!" + word), FileName)] + Meanings(xs))
  {
    var all := [Bare("!" + word)] + xs;
    var s := WriteAll(all, blanks);
    assert all[1..] == xs && s[0] == '!';
    BlanksSkipped(before, s);
    ReadItems(commands, all, blanks, Parsed(Lookup(commands, "!", 0), []));
    assert [] + Meanings(all) == [Arg("!" + word, Some("!" + word), FileName)] + Meanings(xs);
  }

  /** An option is recognised when the command is known and one of its registered options, past its two dashes, begins
      with it. */
  lemma RecognizedIff(commands: seq<Command>, com: Com, opt: string)
    ensures Recognized(commands, com, opt)
       <==> com.Known? && com.index < |commands| && exists reg, a, b, tail ::
              Some(reg) in commands[com.index].options && reg == [a, b] + (opt + tail)
  {
    if Recognized(commands, com, opt) {
      var os := commands[com.index].options;
      var i :| 0 <= i < |os| && Begins(os[i], opt);
      var reg := os[i].value;
      var tail := reg[2 + |opt|..];
      assert reg == [reg[0], reg[1]] + (opt + tail) && Some(reg) in os;
    }
    if com.Known? && com.index < |commands| && exists reg, a, b, tail ::
         Some(reg) in commands[com.index].options && reg == [a, b] + (opt + tail)
    {
      var reg, a, b, tail :| Some(reg) in commands[com.index].options && reg == [a, b] + (opt + tail);
      assert reg[2..] == opt + tail && Begins(Some(reg), opt);
    }
  }

  // ----- Lines that are refused -----

  /** Where the parser hands over: a word with an asterisk, and the option that quotes a command. */
  lemma HandsOver(commands: seq<Command>, long: bool, word: string, t: string, p: Parsed)
    requires '*' in word && ' ' !in word && word[0] != '-'
    ensures ParseArgs(commands, word, p) == p.(com := Failed(Glob))
    ensures ParseArgs(commands, Dashes(long) + ("command=" + t), p) == p.(com := Failed(Subcommand))
  {
    assert word[0] in word && word + "" == word;
    WordOf(word, "");
    assert "command" + ("=" + t) == "command=" + t && "command" + "=" + t == "command=" + t;
    AfterDashes(long, "command", "=" + t);
    ScanName("command", "", t);
    assert "" + "command" == "command" && ("=" + t)[0] == '=';
  }

  /** Dashes with nothing after them. */
  lemma MissingName(commands: seq<Command>, long: bool, p: Parsed)
    ensures ParseArgs(commands, Dashes(long), p) == p.(com := Failed(ArgumentMissing))
  {
    assert Dashes(long)[0] == '-' && "--"[2..] == "" && "-"[1..] == "";
  }

  /** An equals sign with nothing after it. */
  lemma MissingValue(commands: seq<Command>, long: bool, name: string, p: Parsed)
    requires Plain(name) && name != "command"
    ensures ParseArgs(commands, Dashes(long) + (name + "="), p) == p.(com := Failed(StringOptionAwaited))
  {
    AfterDashes(long, name, "=");
    ScanName(name, "", "");
    assert "" + name == name && name + "=" + "" == name + "=" && "=" + "" == "=";
  }

  /** A quoted value that is not closed. */
  lemma UnclosedValue(commands: seq<Command>, long: bool, name: string, value: string, p: Parsed)
    requires Plain(name) && name != "command" && '"' !in value
    ensures ParseArgs(commands, Dashes(long) + (name + ("=\"" + value)), p) == p.(com := Failed(UnterminatedString))
  {
    var open := "\"" + value;
    assert "=\"" + value == "=" + open && name + ("=" + open) == name + "=" + open;
    AfterDashes(long, name, "=\"" + value);
    ScanName(name, "", open);
    assert "" + name == name;
    assert ("=" + open)[0] == '=' && ("=" + open)[1] == '"' && ("=" + open)[2..] == value;
    NeverClosed(value, "");
  }

  /** An option that is neither typed nor registered: it is kept, and its error takes the place of the command. */
  lemma UnknownOption(commands: seq<Command>, long: bool, name: string, value: string, p: Parsed)
    requires Plain(name) && name != "command" && Quotable(value)
    requires !Named(VALUE_NAMES, name) && !Recognized(commands, p.com, name)
    ensures ParseArgs(commands, Write(Set(long, name, value)), p)
         == Parsed(Failed(UnrecognizedOption), p.args + [Arg(name, Some(value), AnyType)])
  {
    var t := "=\"" + Escape(value) + "\"" + "";
    SetText(long, name, value, "");
    assert Write(Set(long, name, value)) + "" == Write(Set(long, name, value));
    AfterDashes(long, name, t);
    ScanSetting(Setting(name, value), "");
    KindsByName(name);
    assert Next("\"" + "") == "";
  }

  lemma {:induction false} NeverClosed(s: string, acc: string)
    requires '"' !in s
    ensures ScanValue(s, acc, true) == Unterminated
    decreases |s|
  {
    if s != "" {
      assert s[0] in s;
      NeverClosed(s[1..], acc + [s[0]]);
    }
  }
}
