/** The command-line argument parser of the pager.  A line is a list of characters; the parser walks it
    once, with quoting, and collects a command and its arguments. */
module Readline {

  datatype ArgType = Pattern | Sub | Range | BufName | FileName | AnyType
                   | Interactive | Global | Append | Verbose | Recursive

  datatype Option<T> = None | Some(value: T)

  datatype Arg = Arg(name: string, value: Option<string>, kind: ArgType)

  /** A command and its options as they are registered, each with its leading dashes; a slot may be empty. */
  datatype Command = Command(name: string, options: seq<Option<string>>)

  datatype Error = StringOptionAwaited | ArgumentMissing | UnterminatedString | UnrecognizedOption | Subcommand | Glob

  datatype Com = NoCommand | Known(index: nat) | Failed(error: Error)

  // ----- Option values -----

  /** `Quoted` tells whether the value ended with the type flag set; `rest` is the unread line, from the
      blank or the closing quote on. */
  datatype Scan = Value(text: string, flagged: bool, rest: string) | Unterminated

  predicate EscapesQuote(acc: string) {
    acc == "\\" || (|acc| > 1 && acc[|acc| - 1] == '\\' && acc[|acc| - 2] != '\\')
  }

  /** The value loop.  A quote inside a quoted value ends it unless the value so far ends in a backslash
      that no other backslash precedes; then it replaces that backslash. */
  function ScanValue(s: string, acc: string, quoted: bool): (r: Scan)
    ensures r.Value? ==> |r.rest| <= |s|
    decreases |s|
  {
    if s == "" then if quoted then Unterminated else Value(acc, false, "")
    else if s[0] == ' ' && !quoted then Value(acc, true, s)
    else if s[0] == '"' && quoted then
      if EscapesQuote(acc) then ScanValue(s[1..], acc[..|acc| - 1] + "\"", true) else Value(acc, true, s)
    else ScanValue(s[1..], acc + [s[0]], quoted)
  }

  /** Printing a value: a quote is written with a backslash before it. */
  function Escape(v: string): string {
    if v == "" then ""
    else (if v[0] == '"' then "\\\"" else [v[0]]) + Escape(v[1..])
  }

  /** No backslash stands directly before a quote, and the value does not end in exactly one backslash. */
  predicate Quotable(v: string) {
    && (forall i :: 0 <= i < |v| - 1 ==> !(v[i] == '\\' && v[i + 1] == '"'))
    && !EscapesQuote(v)
  }

  lemma PlainStep(c: char, more: string, acc: string)
    requires c != '"'
    ensures ScanValue([c] + more, acc, true) == ScanValue(more, acc + [c], true)
  {
    assert ([c] + more)[1..] == more;
  }

  lemma QuoteStep(more: string, acc: string)
    requires acc == "" || acc[|acc| - 1] != '\\'
    ensures ScanValue("\\" + ("\"" + more), acc, true) == ScanValue(more, acc + "\"", true)
  {
    var a := acc + "\\";
    PlainStep('\\', "\"" + more, acc);
    assert EscapesQuote(a) && a[..|a| - 1] == acc;
    assert ("\"" + more)[1..] == more;
  }

  lemma EscapeStep(v: string, k: nat, rest: string)
    requires k < |v|
    ensures Escape(v[k..]) + "\"" + rest ==
            (if v[k] == '"' then "\\" + ("\"" + (Escape(v[k + 1..]) + "\"" + rest))
              else [v[k]] + (Escape(v[k + 1..]) + "\"" + rest))
  {
    assert v[k..][1..] == v[k + 1..];
  }

  /** As long as no quote directly follows a backslash, printed characters are read back one by one. */
  lemma {:induction false} ScanPrefix(v: string, k: nat, m: nat, rest: string)
    requires k <= m <= |v|
    requires forall i :: 0 <= i < m - 1 ==> !(v[i] == '\\' && v[i + 1] == '"')
    ensures ScanValue(Escape(v[k..]) + "\"" + rest, v[..k], true)
      == ScanValue(Escape(v[m..]) + "\"" + rest, v[..m], true)
    decreases m - k
  {
    if k < m {
      ScanPrefix(v, k + 1, m, rest);
      EscapeStep(v, k, rest);
      assert v[..k] + [v[k]] == v[..k + 1];
      var more := Escape(v[k + 1..]) + "\"" + rest;
      if v[k] == '"' {
        assert k > 0 ==> v[k - 1] != '\\';
        QuoteStep(more, v[..k]);
      } else {
        PlainStep(v[k], more, v[..k]);
      }
    }
  }

  lemma ScanEscaped(v: string, rest: string)
    requires Quotable(v)
    ensures ScanValue(Escape(v) + "\"" + rest, "", true) == Value(v, true, "\"" + rest)
  {
    assert v[0..] == v && v[|v|..] == "" && v[..|v|] == v && "" + "\"" + rest == "\"" + rest;
    ScanPrefix(v, 0, |v|, rest);
  }

  /** A scan never takes back what it has read, but for one backslash that turns into a quote. */
  lemma {:induction false} ScanExtends(s: string, acc: string, quoted: bool)
    requires ScanValue(s, acc, quoted).Value?
    ensures acc != "" ==> acc[..|acc| - 1] <= ScanValue(s, acc, quoted).text
    ensures acc != "" && acc[|acc| - 1] != '\\' ==> acc <= ScanValue(s, acc, quoted).text
    decreases |s|
  {
    if s == "" || (s[0] == ' ' && !quoted) {
    } else if s[0] == '"' && quoted {
      if EscapesQuote(acc) {
        var a := acc[..|acc| - 1] + "\"";
        ScanExtends(s[1..], a, true);
        assert a[..|a| - 1] == acc[..|acc| - 1];
      }
    } else {
      var a := acc + [s[0]];
      ScanExtends(s[1..], a, quoted);
      assert a[..|a| - 1] == acc;
      if acc != "" { assert acc[..|acc| - 1] <= acc; }
    }
  }

  lemma BackslashQuoteLost(v: string, m: nat, rest: string)
    requires 0 < m < |v| && v[m - 1] == '\\' && v[m] == '"'
    requires forall i :: 0 <= i < m - 1 ==> !(v[i] == '\\' && v[i + 1] == '"')
    ensures var r := ScanValue(Escape(v) + "\"" + rest, "", true); r.Value? && r.text != v
  {
    assert v[0..] == v;
    ScanPrefix(v, 0, m, rest);
    var more := Escape(v[m + 1..]) + "\"" + rest;
    assert v[m..][1..] == v[m + 1..];
    var s := Escape(v[m..]) + "\"" + rest;
    assert s == "\\" + ("\"" + more);
    var acc := v[..m] + "\\";
    assert acc[|acc| - 2] == '\\' && !EscapesQuote(acc);
    assert s[1..] == "\"" + more;
    assert acc[m] != v[m];
  }

  lemma FinalBackslashLost(v: string, rest: string)
    requires EscapesQuote(v) && forall i :: 0 <= i < |v| - 1 ==> !(v[i] == '\\' && v[i + 1] == '"')
    ensures var r := ScanValue(Escape(v) + "\"" + rest, "", true); r.Value? ==> r.text != v
  {
    assert v[0..] == v && v[|v|..] == "" && v[..|v|] == v && "" + "\"" + rest == "\"" + rest;
    ScanPrefix(v, 0, |v|, rest);
    var s, a := "\"" + rest, v[..|v| - 1] + "\"";
    assert s[1..] == rest;
    var r := ScanValue(rest, a, true);
    assert ScanValue(s, v, true) == r;
    if r.Value? {
      ScanExtends(rest, a, true);
      assert a[|v| - 1] == '"' && v[|v| - 1] == '\\';
    }
  }

  /** A quoted value is read back exactly when it is quotable. */
  lemma ValueRoundTripIff(v: string, rest: string)
    ensures ScanValue(Escape(v) + "\"" + rest, "", true) == Value(v, true, "\"" + rest) <==> Quotable(v)
  {
    if Quotable(v) {
      ScanEscaped(v, rest);
    } else if forall i :: 0 <= i < |v| - 1 ==> !(v[i] == '\\' && v[i + 1] == '"') {
      FinalBackslashLost(v, rest);
    } else {
      var m := FirstBadQuote(v);
      BackslashQuoteLost(v, m, rest);
    }
  }

  lemma FirstBadQuote(v: string) returns (m: nat)
    requires !(forall i :: 0 <= i < |v| - 1 ==> !(v[i] == '\\' && v[i + 1] == '"'))
    ensures 0 < m < |v| && v[m - 1] == '\\' && v[m] == '"'
    ensures forall i :: 0 <= i < m - 1 ==> !(v[i] == '\\' && v[i + 1] == '"')
  {
    var j :| 0 <= j < |v| - 1 && v[j] == '\\' && v[j + 1] == '"';
    m := 1;
    while !(v[m - 1] == '\\' && v[m] == '"')
      invariant 1 <= m <= j + 1
      invariant forall i :: 0 <= i < m - 1 ==> !(v[i] == '\\' && v[i + 1] == '"')
      decreases j - m
    {
      m := m + 1;
    }
  }

  // ----- Options, words, commands -----

  /** An option after its dashes: its name, and a value when there is one. */
  datatype OptScan = Opt(name: string, value: Option<string>, flagged: bool, rest: string) | Bad(error: Error)

  function ScanOption(s: string, opt: string): (r: OptScan)
    ensures r.Opt? ==> |r.rest| <= |s|
    decreases |s|
  {
    if s == "" || s[0] == ' ' then Opt(opt, None, false, s)
    else if s[0] != '=' then ScanOption(s[1..], opt + [s[0]])
    else if opt == "command" then Bad(Subcommand)
    else if |s| == 1 then Bad(StringOptionAwaited)
    else
      var quoted := s[1] == '"';
      match ScanValue(if quoted then s[2..] else s[1..], "", quoted)
      case Unterminated => Bad(UnterminatedString)
      case Value(text, flagged, rest) => Opt(opt, Some(text), flagged, rest)
  }

  function OptionKind(opt: string): ArgType {
    if opt == "pat" then Pattern else if opt == "sub" then Sub else if opt == "range" then Range
    else if opt == "bufname" then BufName else if opt == "fname" then FileName else AnyType
  }

  function FlagKind(opt: string): ArgType {
    if opt == "i" || opt == "interactive" then Interactive else if opt == "global" then Global
    else if opt == "append" then Append else if opt == "verbose" then Verbose
    else if opt == "r" || opt == "recursive" then Recursive else AnyType
  }

  /** An option without a type of its own must begin one the command was registered with. */
  predicate Recognized(commands: seq<Command>, com: Com, opt: string) {
    com.Known? && com.index < |commands| &&
    exists i :: 0 <= i < |commands[com.index].options| && Begins(commands[com.index].options[i], opt)
  }

  predicate Begins(registered: Option<string>, opt: string) {
    registered.Some? && |registered.value| >= 2 && opt <= registered.value[2..]
  }

  function Word(s: string): (r: (string, string))
    ensures |r.1| <= |s| && (s != "" && s[0] != ' ' ==> |r.1| < |s|)
  {
    if s == "" || s[0] == ' ' then ("", s)
    else var (w, rest) := Word(s[1..]); ([s[0]] + w, rest)
  }

  function Next(s: string): string { if s == "" then "" else s[1..] }

  datatype Parsed = Parsed(com: Com, args: seq<Arg>)

  /** The loop of `readline_parse`. */
  function ParseArgs(commands: seq<Command>, s: string, p: Parsed): Parsed
    decreases |s|
  {
    if s == "" then p
    else if s[0] == ' ' then ParseArgs(commands, s[1..], p)
    else if s[0] == '-' then
      var t := if |s| > 1 && s[1] == '-' then s[2..] else s[1..];
      if t == "" then p.(com := Failed(ArgumentMissing))
      else
        match ScanOption(t, "")
        case Bad(e) => p.(com := Failed(e))
        case Opt(name, value, flagged, rest) =>
          ParseArgs(commands, Next(rest), Accept(commands, p, name, value, flagged))
    else
      var (w, rest) := Word(s);
      if '*' in w then p.(com := Failed(Glob))
      else ParseArgs(commands, Next(rest), p.(args := p.args + [Arg(w, Some(w), FileName)]))
  }

  function Accept(commands: seq<Command>, p: Parsed, name: string, value: Option<string>, flagged: bool): Parsed {
    if flagged then
      Parsed(if OptionKind(name) == AnyType && !Recognized(commands, p.com, name) then Failed(UnrecognizedOption)
             else p.com,
             p.args + [Arg(name, value, OptionKind(name))])
    else p.(args := p.args + [Arg(name, value, FlagKind(name))])
  }

  function SkipBlanks(s: string): (r: string)
    ensures |r| <= |s|
  {
    if s != "" && s[0] == ' ' then SkipBlanks(s[1..]) else s
  }

  /** The first registered command with the name. */
  function Lookup(commands: seq<Command>, name: string, i: nat): (r: Com)
    requires i <= |commands|
    ensures match r
      case Known(k) =>
        && i <= k < |commands| && commands[k].name == name
        && forall j :: i <= j < k ==> commands[j].name != name
      case NoCommand => forall j :: i <= j < |commands| ==> commands[j].name != name
      case Failed(_) => false
    decreases |commands| - i
  {
    if i == |commands| then NoCommand
    else if commands[i].name == name then Known(i) else Lookup(commands, name, i + 1)
  }

  /** `readline_parse_command`: a line that begins with `!` has that as its command, still unread. */
  function CommandOf(s: string): (string, string) {
    var t := SkipBlanks(s);
    if t != "" && t[0] == '!' then ("!", t) else Word(t)
  }

  function Parse(commands: seq<Command>, line: string): Parsed {
    var (name, rest) := CommandOf(line);
    ParseArgs(commands, rest, Parsed(Lookup(commands, name, 0), []))
  }

  // ----- Printing a line, and reading it back -----

  datatype Setting = Setting(name: string, value: string)

  function Render(opts: seq<Setting>): string {
    if opts == [] then ""
    else "--" + opts[0].name + "=\"" + Escape(opts[0].value) + "\" " + Render(opts[1..])
  }

  predicate NameOk(commands: seq<Command>, com: Com, name: string) {
    && ' ' !in name && '=' !in name && name != "command"
    && (OptionKind(name) != AnyType || Recognized(commands, com, name))
  }

  function ArgsOf(opts: seq<Setting>): seq<Arg> {
    seq(|opts|, i requires 0 <= i < |opts| => Arg(opts[i].name, Some(opts[i].value), OptionKind(opts[i].name)))
  }

  lemma {:induction false} ScanName(name: string, opt: string, rest: string)
    requires ' ' !in name && '=' !in name
    ensures ScanOption(name + "=" + rest, opt) == ScanOption("=" + rest, opt + name)
    decreases |name|
  {
    if name == "" {
      assert name + "=" + rest == "=" + rest && opt + name == opt;
    } else {
      var s := name + "=" + rest;
      assert s[1..] == name[1..] + "=" + rest && s[0] == name[0] && name[0] in name;
      assert (opt + [name[0]]) + name[1..] == opt + name;
      ScanName(name[1..], opt + [name[0]], rest);
    }
  }

  lemma ScanQuoted(value: string, name: string, rest: string)
    requires name != "command" && Quotable(value)
    ensures ScanOption("=" + ("\"" + (Escape(value) + "\"" + rest)), name) == Opt(name, Some(value), true, "\"" + rest)
  {
    var s := "=" + ("\"" + (Escape(value) + "\"" + rest));
    assert s[0] == '=' && s[1] == '"' && s[2..] == Escape(value) + "\"" + rest;
    ScanEscaped(value, rest);
  }

  lemma ScanSetting(o: Setting, rest: string)
    requires ' ' !in o.name && '=' !in o.name && o.name != "command" && Quotable(o.value)
    ensures ScanOption(o.name + ("=\"" + Escape(o.value) + "\"" + rest), "")
      == Opt(o.name, Some(o.value), true, "\"" + rest)
  {
    var tail := "\"" + (Escape(o.value) + "\"" + rest);
    assert o.name + ("=\"" + Escape(o.value) + "\"" + rest) == o.name + "=" + tail;
    ScanName(o.name, "", tail);
    assert "" + o.name == o.name;
    ScanQuoted(o.value, o.name, rest);
  }

  lemma ParseSetting(commands: seq<Command>, o: Setting, more: string, p: Parsed)
    requires NameOk(commands, p.com, o.name) && Quotable(o.value)
    ensures ParseArgs(commands, "--" + (o.name + ("=\"" + Escape(o.value) + "\"" + (" " + more))), p)
         == ParseArgs(commands, more, p.(args := p.args + [Arg(o.name, Some(o.value), OptionKind(o.name))]))
  {
    var rest := " " + more;
    var t := o.name + ("=\"" + Escape(o.value) + "\"" + rest);
    var s := "--" + t;
    var q := p.(args := p.args + [Arg(o.name, Some(o.value), OptionKind(o.name))]);
    assert s[0] == '-' && s[1] == '-' && s[2..] == t;
    ScanSetting(o, rest);
    assert Next("\"" + rest) == rest;
    assert ParseArgs(commands, s, p) == ParseArgs(commands, rest, q);
    assert rest[0] == ' ' && rest[1..] == more;
  }

  lemma RenderSplit(name: string, value: string, more: string)
    ensures "--" + name + "=\"" + value + "\" " + more == "--" + (name + ("=\"" + value + "\"" + (" " + more)))
  {
  }

  lemma ArgsSplit(opts: seq<Setting>, args: seq<Arg>)
    requires opts != []
    ensures var o := opts[0];
      args + [Arg(o.name, Some(o.value), OptionKind(o.name))] + ArgsOf(opts[1..]) == args + ArgsOf(opts)
  {
  }

  lemma {:induction false} ParseRendered(commands: seq<Command>, opts: seq<Setting>, p: Parsed)
    requires forall i :: 0 <= i < |opts| ==> NameOk(commands, p.com, opts[i].name) && Quotable(opts[i].value)
    ensures ParseArgs(commands, Render(opts), p) == p.(args := p.args + ArgsOf(opts))
    decreases |opts|
  {
    if opts == [] {
      assert p.args + ArgsOf(opts) == p.args;
    } else {
      var o, more := opts[0], Render(opts[1..]);
      RenderSplit(o.name, Escape(o.value), more);
      ParseSetting(commands, o, more, p);
      var q := p.(args := p.args + [Arg(o.name, Some(o.value), OptionKind(o.name))]);
      ParseRendered(commands, opts[1..], q);
      ArgsSplit(opts, p.args);
    }
  }

  lemma {:induction false} WordOf(w: string, rest: string)
    requires ' ' !in w && (rest == "" || rest[0] == ' ')
    ensures Word(w + rest) == (w, rest)
    decreases |w|
  {
    if w == "" {
      assert w + rest == rest;
    } else {
      assert (w + rest)[1..] == w[1..] + rest && w[0] in w;
      assert (w + rest)[0] == w[0];
      assert [w[0]] + w[1..] == w;
      WordOf(w[1..], rest);
    }
  }

  /** Parsing undoes printing: the command and every option come back, in order. */
  lemma {:induction false} LineRoundTrip(commands: seq<Command>, name: string, opts: seq<Setting>)
    requires name != "" && ' ' !in name && name[0] != '!' && Lookup(commands, name, 0).Known?
    requires forall i :: 0 <= i < |opts| ==>
      NameOk(commands, Lookup(commands, name, 0), opts[i].name) && Quotable(opts[i].value)
    ensures Parse(commands, name + " " + Render(opts)) == Parsed(Lookup(commands, name, 0), ArgsOf(opts))
  {
    var rest := " " + Render(opts);
    assert name + " " + Render(opts) == name + rest;
    assert name[0] in name;
    WordOf(name, rest);
    assert rest[1..] == Render(opts);
    ParseRendered(commands, opts, Parsed(Lookup(commands, name, 0), []));
    assert [] + ArgsOf(opts) == ArgsOf(opts);
  }

  // ----- Values without quotes -----

  lemma {:induction false} ScanBare(v: string, acc: string, rest: string)
    requires ' ' !in v && (rest == "" || rest[0] == ' ')
    ensures ScanValue(v + rest, acc, false) == Value(acc + v, rest != "", rest)
    decreases |v|
  {
    if v == "" {
      assert v + rest == rest && acc + v == acc;
    } else {
      assert (v + rest)[1..] == v[1..] + rest && v[0] in v;
      assert acc + [v[0]] + v[1..] == acc + v;
      ScanBare(v[1..], acc + [v[0]], rest);
    }
  }

  /** A value without quotes is marked as one exactly when something, a blank, follows it. */
  lemma BareFlaggedIff(name: string, v: string, rest: string)
    requires name != "command" && v != "" && ' ' !in v && v[0] != '"' && (rest == "" || rest[0] == ' ')
    ensures ScanOption("=" + (v + rest), name) == Opt(name, Some(v), rest != "", rest)
  {
    var s := "=" + (v + rest);
    assert s[0] == '=' && s[1] == v[0] && s[1..] == v + rest;
    ScanBare(v, "", rest);
    assert "" + v == v;
  }

  /** The names that give a value a type, and those that give one to an option without a value. */
  predicate NamesValue(name: string) { OptionKind(name) != AnyType }

  predicate NamesFlag(name: string) { FlagKind(name) != AnyType }

  /** So at the end of a line the option gets the type of a flag, and is never reported as unknown; before
      a blank it gets that of a value, and is reported unless it has a type or was registered. */
  lemma BareKindIff(commands: seq<Command>, p: Parsed, name: string, v: string, flagged: bool)
    ensures var q := Accept(commands, p, name, Some(v), flagged);
      && |q.args| == |p.args| + 1
      && (NamesValue(name) || NamesFlag(name) ==> (q.args[|p.args|].kind == OptionKind(name) <==> flagged))
      && (q.com == Failed(UnrecognizedOption) <==>
            p.com == Failed(UnrecognizedOption) || (flagged && !NamesValue(name) && !Recognized(commands, p.com, name)))
  {
    assert !(NamesValue(name) && NamesFlag(name));
  }

  /** A whole option at the end of a line, and before more of it. */
  lemma ParseBare(commands: seq<Command>, name: string, v: string, rest: string, p: Parsed)
    requires ' ' !in name && '=' !in name && name != "command" && v != "" && ' ' !in v && v[0] != '"'
    requires rest == "" || rest[0] == ' '
    ensures ParseArgs(commands, "--" + (name + "=" + (v + rest)), p)
         == ParseArgs(commands, Next(rest), Accept(commands, p, name, Some(v), rest != ""))
  {
    var t := name + "=" + (v + rest);
    var s := "--" + t;
    assert s[0] == '-' && s[1] == '-' && s[2..] == t;
    ScanName(name, "", v + rest);
    assert "" + name == name;
    BareFlaggedIff(name, v, rest);
  }

  lemma UnquotedAtEndExample()
    ensures ScanOption("=x", "pat") == Opt("pat", Some("x"), false, "")
    ensures ScanOption("=x ", "pat") == Opt("pat", Some("x"), true, " ")
  {
    BareFlaggedIff("pat", "x", "");
    BareFlaggedIff("pat", "x", " ");
    assert "=" + ("x" + "") == "=x" && "=" + ("x" + " ") == "=x ";
  }

  // ----- The parser itself -----

  /** `it` is the position in the line, held as the part of the line not read yet. */
  class Rline {
    const commands: seq<Command>
    var line: string
    var command: string
    var com: Com
    var args: seq<Arg>

    constructor (commands: seq<Command>, line: string)
      ensures this.commands == commands && this.line == line && com == NoCommand && args == []
    {
      this.commands, this.line, command, com, args := commands, line, "", NoCommand, [];
    }

    /** Reads the command word and looks it up. */
    method ParseCommand() returns (it: string)
      modifies `command, `com
      ensures (command, it) == CommandOf(line)
      ensures com == Lookup(commands, command, 0)
      ensures com.NoCommand? <==> forall j :: 0 <= j < |commands| ==> commands[j].name != command
      ensures com.Known? ==> com.index < |commands| && commands[com.index].name == command
      ensures com.Known? ==> forall j :: 0 <= j < com.index ==> commands[j].name != command
    {
      it := line;
      command := "";
      while it != "" && it[0] == ' '
        invariant SkipBlanks(it) == SkipBlanks(line)
        decreases |it|
      {
        it := it[1..];
      }
      if it != "" && it[0] == '!' {
        command := "!";
      } else {
        ghost var t := it;
        assert [] + Word(it).0 == Word(it).0;
        while it != "" && it[0] != ' '
          invariant (command + Word(it).0, Word(it).1) == Word(t)
          invariant SkipBlanks(line) == t
          decreases |it|
        {
          command := command + [it[0]];
          assert (command[..|command| - 1] + [it[0]]) + Word(it[1..]).0 == command[..|command| - 1] + Word(it).0;
          it := it[1..];
        }
        assert command + "" == command;
      }
      com := NoCommand;
      var i := 0;
      while i < |commands|
        invariant i <= |commands| && com == NoCommand
        invariant Lookup(commands, command, i) == Lookup(commands, command, 0)
      {
        if commands[i].name == command {
          com := Known(i);
          return;
        }
        i := i + 1;
      }
    }

    /** The value after `=`, up to its end. */
    static method ReadValue(s: string, quoted: bool) returns (r: Scan)
      ensures r == ScanValue(s, "", quoted)
    {
      var it, val := s, "";
      while it != ""
        invariant ScanValue(it, val, quoted) == ScanValue(s, "", quoted)
        decreases |it|
      {
        if it[0] == ' ' && !quoted {
          return Value(val, true, it);
        }
        if it[0] == '"' && quoted {
          if val == "\\" || (|val| > 1 && val[|val| - 1] == '\\' && val[|val| - 2] != '\\') {
            val := val[..|val| - 1] + "\"";
            it := it[1..];
            continue;
          }
          return Value(val, true, it);
        }
        val := val + [it[0]];
        it := it[1..];
      }
      if quoted {
        return Unterminated;
      }
      return Value(val, false, "");
    }

    /** An option after its dashes. */
    static method ReadOption(s: string) returns (r: OptScan)
      ensures r == ScanOption(s, "")
    {
      var it, opt := s, "";
      while it != ""
        invariant ScanOption(it, opt) == ScanOption(s, "")
        decreases |it|
      {
        if it[0] == ' ' {
          return Opt(opt, None, false, it);
        }
        if it[0] == '=' {
          if opt == "command" {
            return Bad(Subcommand);
          }
          if |it| == 1 {
            return Bad(StringOptionAwaited);
          }
          it := it[1..];
          var quoted := it[0] == '"';
          if quoted {
            it := it[1..];
          }
          var v := ReadValue(it, quoted);
          match v {
            case Unterminated => return Bad(UnterminatedString);
            case Value(text, flagged, rest) => return Opt(opt, Some(text), flagged, rest);
          }
        }
        opt := opt + [it[0]];
        it := it[1..];
      }
      return Opt(opt, None, false, "");
    }

    /** Whether the current command was registered with the option. */
    method FindOption(opt: string) returns (found: bool)
      ensures found == Recognized(commands, com, opt)
    {
      if !com.Known? || com.index >= |commands| {
        return false;
      }
      var options := commands[com.index].options;
      var idx := 0;
      while idx < |options|
        invariant idx <= |options|
        invariant forall i :: 0 <= i < idx ==> !Begins(options[i], opt)
      {
        if options[idx].Some? && |options[idx].value| >= 2 && opt <= options[idx].value[2..] {
          assert Begins(options[idx], opt);
          return true;
        }
        idx := idx + 1;
      }
      return false;
    }

    /** Gives an option its type and appends it. */
    method AppendOption(name: string, value: Option<string>, flagged: bool)
      modifies `com, `args
      ensures Parsed(com, args) == Accept(commands, old(Parsed(com, args)), name, value, flagged)
    {
      var kind;
      if flagged {
        kind := OptionKind(name);
        if kind == AnyType {
          var found := FindOption(name);
          if !found {
            com := Failed(UnrecognizedOption);
          }
        }
      } else {
        kind := FlagKind(name);
      }
      args := args + [Arg(name, value, kind)];
    }

    static method ReadWord(s: string) returns (w: string, it: string)
      requires s != "" && s[0] != ' '
      ensures (w, it) == Word(s)
    {
      w, it := [s[0]], s[1..];
      while it != "" && it[0] != ' '
        invariant (w + Word(it).0, Word(it).1) == Word(s)
        decreases |it|
      {
        assert (w + [it[0]]) + Word(it[1..]).0 == w + Word(it).0;
        w := w + [it[0]];
        it := it[1..];
      }
      assert w + "" == w;
    }

    /** The whole line: the command, then its arguments until the end or the first error. */
    method ParseLine()
      requires args == []
      modifies `command, `com, `args
      ensures Parsed(com, args) == Parse(commands, line)
    {
      var it := ParseCommand();
      while it != ""
        invariant ParseArgs(commands, it, Parsed(com, args)) == Parse(commands, line)
        decreases |it|
      {
        if it[0] == ' ' {
          it := it[1..];
          continue;
        }
        if it[0] == '-' {
          it := if |it| > 1 && it[1] == '-' then it[2..] else it[1..];
          if it == "" {
            com := Failed(ArgumentMissing);
            return;
          }
          var o := ReadOption(it);
          match o {
            case Bad(e) =>
              com := Failed(e);
              return;
            case Opt(name, value, flagged, rest) =>
              AppendOption(name, value, flagged);
              it := rest;
          }
        } else {
          var w, rest := ReadWord(it);
          if '*' in w {
            com := Failed(Glob);
            return;
          }
          args := args + [Arg(w, Some(w), FileName)];
          it := rest;
        }
        if it != "" {
          it := it[1..];
        }
      }
    }
  }
}
