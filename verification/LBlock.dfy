/** The scanner that finds the end of an opened block: the brace that closes it, past strings and comments. */
module LBlock {

  datatype Option<T> = None | Some(value: T)

  /** `str` is the quote of the string the scanner is in. */
  datatype State = State(depth: nat, prev: char, str: Option<char>, com: bool)

  function Outside(depth: nat, prev: char): State { State(depth, prev, None, false) }

  function Inside(depth: nat, prev: char, quote: char): State { State(depth, prev, Some(quote), false) }

  predicate IsQuote(c: char) { c == '"' || c == '`' }

  /** A quote opens or closes a string unless the character before it is a backslash. */
  function Step(st: State, c: char): State {
    if c == '#' && st.str.None? then st.(com := true)
    else if c == '\n' && st.com && st.str.None? then st.(com := false)
    else if st.com then st
    else if IsQuote(c) && st.prev != '\\' then
      if st.str.None? then st.(str := Some(c))
      else if st.str.value != c then st
      else st.(str := None, prev := c)
    else if st.str.None? && c == '}' then st.(prev := c, depth := if st.depth == 0 then 0 else st.depth - 1)
    else if st.str.None? && c == '{' then st.(prev := c, depth := st.depth + 1)
    else st.(prev := c)
  }

  /** How many characters are read until the depth is zero, or nothing when the input ends first. */
  function Scan(s: string, st: State): (r: Option<nat>)
    ensures r.Some? ==> 0 < r.value <= |s|
  {
    if s == "" then None
    else
      var st' := Step(st, s[0]);
      if st'.depth == 0 then Some(1) else Shift(1, Scan(s[1..], st'))
  }

  function Shift(n: nat, r: Option<nat>): Option<nat> {
    match r case None => None case Some(m) => Some(n + m)
  }

  function Run(s: string, st: State): State {
    if s == "" then st else Run(s[1..], Step(st, s[0]))
  }

  // ----- Blocks as they are written -----

  datatype StrChar = Raw(c: char) | Esc(c: char)

  datatype Body = End
                | Plain(c: char, rest: Body)
                | Comment(text: string, rest: Body)
                | Str(quote: char, content: seq<StrChar>, rest: Body)
                | Braces(body: Body, rest: Body)

  function Written(x: StrChar): string { match x case Raw(c) => [c] case Esc(c) => ['\\'] + [c] }

  function Content(cs: seq<StrChar>): string {
    if cs == [] then ""
    else Written(cs[0]) + Content(cs[1..])
  }

  function Source(b: Body): string {
    match b
    case End => ""
    case Plain(c, rest) => [c] + Source(rest)
    case Comment(text, rest) => ['#'] + (text + ['\n']) + Source(rest)
    case Str(quote, content, rest) => [quote] + (Content(content) + [quote]) + Source(rest)
    case Braces(body, rest) => ['{'] + (Source(body) + ['}']) + Source(rest)
  }

  /** A string ends at the first quote of its own kind that no backslash escapes. */
  predicate ContentOk(cs: seq<StrChar>, quote: char) {
    forall i :: 0 <= i < |cs| ==> cs[i].Raw? ==> cs[i].c != quote && cs[i].c != '\\'
  }

  predicate WellFormed(b: Body) {
    match b
    case End => true
    case Plain(c, rest) => c !in "{}\"`#" && WellFormed(rest)
    case Comment(text, rest) => '\n' !in text && WellFormed(rest)
    case Str(quote, content, rest) => (quote == '"' || quote == '`') && ContentOk(content, quote) && WellFormed(rest)
    case Braces(body, rest) => WellFormed(body) && WellFormed(rest)
  }

  /** The content ends in an escaped backslash; `start` tells of a backslash before it. */
  predicate EndsInBackslash(cs: seq<StrChar>, start: bool) {
    if cs == [] then start else EndsInBackslash(cs[1..], cs[0] == Esc('\\'))
  }

  /** The character before what follows, as the scanner remembers it. */
  function PrevAfter(b: Body, prev: char): char {
    match b
    case End => prev
    case Plain(c, rest) => PrevAfter(rest, c)
    case Comment(_, rest) => PrevAfter(rest, prev)
    case Str(quote, _, rest) => PrevAfter(rest, quote)
    case Braces(_, rest) => PrevAfter(rest, '}')
  }

  /** No string ends in a backslash, or follows one. */
  predicate Scannable(b: Body, prev: char) {
    match b
    case End => true
    case Plain(c, rest) => Scannable(rest, c)
    case Comment(_, rest) => Scannable(rest, prev)
    case Str(quote, content, rest) => prev != '\\' && !EndsInBackslash(content, false) && Scannable(rest, quote)
    case Braces(body, rest) => Scannable(body, '{') && Scannable(rest, '}')
  }

  // ----- Reading one part after another -----

  /** The depth stays above zero. */
  predicate Stays(s: string, st: State) {
    s == "" || (Step(st, s[0]).depth > 0 && Stays(s[1..], Step(st, s[0])))
  }

  /** Reading `s` takes the scanner from one state to another without ending the block. */
  predicate Leads(s: string, st: State, e: State) { Stays(s, st) && Run(s, st) == e }

  lemma LeadsOne(c: char, st: State)
    requires Step(st, c).depth > 0
    ensures Leads([c], st, Step(st, c))
  {
    assert [c][1..] == "";
  }

  lemma {:induction false} LeadsJoin(s: string, t: string, st: State, m: State, e: State)
    requires Leads(s, st, m) && Leads(t, m, e)
    ensures Leads(s + t, st, e)
    decreases |s|
  {
    if s == "" {
      assert s + t == t;
    } else {
      assert (s + t)[1..] == s[1..] + t;
      LeadsJoin(s[1..], t, Step(st, s[0]), m, e);
    }
  }

  lemma {:induction false} LeadsScan(s: string, tail: string, st: State, e: State)
    requires Leads(s, st, e)
    ensures Scan(s + tail, st) == Shift(|s|, Scan(tail, e))
    decreases |s|
  {
    if s == "" {
      assert s + tail == tail;
    } else {
      assert (s + tail)[1..] == s[1..] + tail;
      LeadsScan(s[1..], tail, Step(st, s[0]), e);
    }
  }

  lemma {:induction false} RunJoins(s: string, t: string, st: State)
    ensures Run(s + t, st) == Run(t, Run(s, st))
    decreases |s|
  {
    if s == "" {
      assert s + t == t;
    } else {
      assert (s + t)[1..] == s[1..] + t;
      RunJoins(s[1..], t, Step(st, s[0]));
    }
  }

  lemma LeadsStrChar(x: StrChar, quote: char, st: State)
    requires IsQuote(quote) && (x.Raw? ==> x.c != quote && x.c != '\\')
    requires st.depth > 0 && st == Inside(st.depth, st.prev, quote)
    ensures var e := Run(Written(x), st);
      Leads(Written(x), st, e) && e == Inside(st.depth, e.prev, quote) && (e.prev == '\\' <==> x == Esc('\\'))
  {
    match x {
      case Raw(c) => LeadsOne(c, st);
      case Esc(c) =>
        var m := Step(st, '\\');
        LeadsOne('\\', st);
        LeadsOne(c, m);
        LeadsJoin(['\\'], [c], st, m, Step(m, c));
    }
  }

  /** Inside a string everything up to its closing quote is passed over. */
  lemma {:induction false} LeadsContent(cs: seq<StrChar>, quote: char, st: State)
    requires IsQuote(quote) && ContentOk(cs, quote) && st.depth > 0 && st == Inside(st.depth, st.prev, quote)
    ensures var e := Run(Content(cs), st);
      && Leads(Content(cs), st, e) && e == Inside(st.depth, e.prev, quote)
      && (e.prev == '\\' <==> EndsInBackslash(cs, st.prev == '\\'))
    decreases |cs|
  {
    if cs != [] {
      var m := Run(Written(cs[0]), st);
      LeadsStrChar(cs[0], quote, st);
      LeadsContent(cs[1..], quote, m);
      LeadsJoin(Written(cs[0]), Content(cs[1..]), st, m, Run(Content(cs[1..]), m));
    }
  }

  lemma {:induction false} LeadsText(text: string, st: State)
    requires '\n' !in text && st.depth > 0 && st.com && st.str == None
    ensures Leads(text, st, st)
    decreases |text|
  {
    if text != "" { LeadsText(text[1..], st); }
  }

  lemma LeadsComment(text: string, depth: nat, prev: char)
    requires '\n' !in text && depth > 0
    ensures Leads(['#'] + (text + ['\n']), Outside(depth, prev), Outside(depth, prev))
  {
    var st, com := Outside(depth, prev), State(depth, prev, None, true);
    LeadsOne('#', st);
    LeadsText(text, com);
    LeadsOne('\n', com);
    LeadsJoin(text, ['\n'], com, com, st);
    LeadsJoin(['#'], text + ['\n'], st, com, st);
  }

  lemma LeadsString(quote: char, cs: seq<StrChar>, depth: nat, prev: char)
    requires IsQuote(quote) && ContentOk(cs, quote) && depth > 0 && prev != '\\' && !EndsInBackslash(cs, false)
    ensures Leads([quote] + (Content(cs) + [quote]), Outside(depth, prev), Outside(depth, quote))
  {
    var st := Inside(depth, prev, quote);
    var e := Run(Content(cs), st);
    LeadsOne(quote, Outside(depth, prev));
    LeadsContent(cs, quote, st);
    LeadsOne(quote, e);
    LeadsJoin(Content(cs), [quote], st, e, Outside(depth, quote));
    LeadsJoin([quote], Content(cs) + [quote], Outside(depth, prev), st, Outside(depth, quote));
  }

  lemma LeadsBraces(s: string, depth: nat, prev: char, last: char)
    requires depth > 0 && Leads(s, Outside(depth + 1, '{'), Outside(depth + 1, last))
    ensures Leads(['{'] + (s + ['}']), Outside(depth, prev), Outside(depth, '}'))
  {
    LeadsOne('{', Outside(depth, prev));
    LeadsOne('}', Outside(depth + 1, last));
    LeadsJoin(s, ['}'], Outside(depth + 1, '{'), Outside(depth + 1, last), Outside(depth, '}'));
    LeadsJoin(['{'], s + ['}'], Outside(depth, prev), Outside(depth + 1, '{'), Outside(depth, '}'));
  }

  /** A well-formed body is passed over as a whole: what follows it is read at the same depth. */
  lemma {:induction false} LeadsBody(b: Body, depth: nat, prev: char)
    requires WellFormed(b) && Scannable(b, prev) && depth > 0
    ensures Leads(Source(b), Outside(depth, prev), Outside(depth, PrevAfter(b, prev)))
    decreases b
  {
    var st, e := Outside(depth, prev), Outside(depth, PrevAfter(b, prev));
    match b {
      case End =>
      case Plain(c, rest) =>
        LeadsOne(c, st);
        LeadsBody(rest, depth, c);
        LeadsJoin([c], Source(rest), st, Outside(depth, c), e);
      case Comment(text, rest) =>
        LeadsComment(text, depth, prev);
        LeadsBody(rest, depth, prev);
        LeadsJoin(['#'] + (text + ['\n']), Source(rest), st, st, e);
      case Str(quote, content, rest) =>
        LeadsString(quote, content, depth, prev);
        LeadsBody(rest, depth, quote);
        LeadsJoin([quote] + (Content(content) + [quote]), Source(rest), st, Outside(depth, quote), e);
      case Braces(body, rest) =>
        LeadsBody(body, depth + 1, '{');
        LeadsBraces(Source(body), depth, prev, PrevAfter(body, '{'));
        LeadsBody(rest, depth, '}');
        LeadsJoin(['{'] + (Source(body) + ['}']), Source(rest), st, Outside(depth, '}'), e);
    }
  }

  /** The scanner stops at the brace that closes the body. */
  lemma FindsMatchingBrace(b: Body, rest: string)
    requires WellFormed(b) && Scannable(b, '\0')
    ensures Scan(Source(b) + ("}" + rest), Outside(1, '\0')) == Some(|Source(b)| + 1)
  {
    var e := Outside(1, PrevAfter(b, '\0'));
    LeadsBody(b, 1, '\0');
    LeadsScan(Source(b), "}" + rest, Outside(1, '\0'), e);
    assert Step(e, '}').depth == 0;
  }

  predicate NoBackslash(b: Body) {
    match b
    case End => true
    case Plain(c, rest) => c != '\\' && NoBackslash(rest)
    case Comment(_, rest) => NoBackslash(rest)
    case Str(_, content, rest) => (forall i :: 0 <= i < |content| ==> content[i].Raw?) && NoBackslash(rest)
    case Braces(body, rest) => NoBackslash(body) && NoBackslash(rest)
  }

  /** Without backslashes outside comments every body can be scanned. */
  lemma {:induction false} PlainBodiesScan(b: Body, prev: char)
    requires WellFormed(b) && NoBackslash(b) && prev != '\\'
    ensures Scannable(b, prev)
    decreases b
  {
    match b {
      case End =>
      case Plain(c, rest) => PlainBodiesScan(rest, c);
      case Comment(_, rest) => PlainBodiesScan(rest, prev);
      case Str(quote, content, rest) =>
        RawEnds(content);
        PlainBodiesScan(rest, quote);
      case Braces(body, rest) =>
        PlainBodiesScan(body, '{');
        PlainBodiesScan(rest, '}');
    }
  }

  lemma {:induction false} RawEnds(cs: seq<StrChar>)
    requires forall i :: 0 <= i < |cs| ==> cs[i].Raw?
    ensures !EndsInBackslash(cs, false)
    decreases |cs|
  {
    if cs != [] {
      assert cs[0].Raw?;
      RawEnds(cs[1..]);
    }
  }

  // ----- Strings that end in a backslash -----

  /** A string is left at its closing quote exactly when it does not end in an escaped backslash. */
  lemma StringClosesIff(quote: char, cs: seq<StrChar>, depth: nat, prev: char)
    requires IsQuote(quote) && ContentOk(cs, quote) && depth > 0 && prev != '\\'
    ensures Run([quote] + (Content(cs) + [quote]), Outside(depth, prev)).str == None <==> !EndsInBackslash(cs, false)
  {
    var st := Inside(depth, prev, quote);
    var e := Run(Content(cs), st);
    LeadsOne(quote, Outside(depth, prev));
    LeadsContent(cs, quote, st);
    RunJoins(Content(cs), [quote], st);
    RunJoins([quote], Content(cs) + [quote], Outside(depth, prev));
    assert Run([quote], e) == Step(e, quote) by { assert [quote][1..] == ""; }
  }

  lemma {:induction false} NoQuoteNoEnd(s: string, quote: char, st: State)
    requires quote !in s && st.depth > 0 && st == Inside(st.depth, st.prev, quote)
    ensures Scan(s, st) == None
    decreases |s|
  {
    if s != "" {
      assert s[0] in s;
      NoQuoteNoEnd(s[1..], quote, Step(st, s[0]));
    }
  }

  /** After a string that ends in an escaped backslash the block has no end, unless the same quote comes again. */
  lemma BackslashRunsOn(quote: char, cs: seq<StrChar>, tail: string)
    requires IsQuote(quote) && ContentOk(cs, quote) && EndsInBackslash(cs, false) && quote !in tail
    ensures Scan([quote] + (Content(cs) + [quote]) + tail, Outside(1, '\0')) == None
  {
    var o, st := Outside(1, '\0'), Inside(1, '\0', quote);
    var e := Run(Content(cs), st);
    LeadsOne(quote, o);
    LeadsContent(cs, quote, st);
    LeadsOne(quote, e);
    LeadsJoin(Content(cs), [quote], st, e, Step(e, quote));
    LeadsJoin([quote], Content(cs) + [quote], o, st, Step(e, quote));
    LeadsScan([quote] + (Content(cs) + [quote]), tail, o, Step(e, quote));
    NoQuoteNoEnd(tail, quote, Step(e, quote));
  }

  /** Content without braces, comment signs and quotes other than escaped ones. */
  predicate Tame(cs: seq<StrChar>) {
    forall i :: 0 <= i < |cs| ==>
      cs[i].c != '{' && cs[i].c != '}' && cs[i].c != '#' && (cs[i].Raw? ==> !IsQuote(cs[i].c) && cs[i].c != '\\')
  }

  lemma LeadsOutsideChar(x: StrChar, st: State)
    requires Tame([x]) && st.depth > 0 && st == Outside(st.depth, st.prev)
    ensures var e := Run(Written(x), st);
      Leads(Written(x), st, e) && e == Outside(st.depth, e.prev) && (e.prev == '\\' <==> x == Esc('\\'))
  {
    assert [x][0] == x;
    match x {
      case Raw(c) => LeadsOne(c, st);
      case Esc(c) =>
        var m := Step(st, '\\');
        LeadsOne('\\', st);
        LeadsOne(c, m);
        LeadsJoin(['\\'], [c], st, m, Step(m, c));
    }
  }

  /** Read outside a string, such content opens none. */
  lemma {:induction false} LeadsOutside(cs: seq<StrChar>, st: State)
    requires Tame(cs) && st.depth > 0 && st == Outside(st.depth, st.prev)
    ensures var e := Run(Content(cs), st);
      && Leads(Content(cs), st, e) && e == Outside(st.depth, e.prev)
      && (e.prev == '\\' <==> EndsInBackslash(cs, st.prev == '\\'))
    decreases |cs|
  {
    if cs != [] {
      var m := Run(Written(cs[0]), st);
      assert Tame([cs[0]]) by { assert [cs[0]][0] == cs[0]; }
      LeadsOutsideChar(cs[0], st);
      LeadsOutside(cs[1..], m);
      LeadsJoin(Written(cs[0]), Content(cs[1..]), st, m, Run(Content(cs[1..]), m));
    }
  }

  /** After its closing quote the scanner is outside the string if a backslash precedes both quotes or none. */
  lemma LeadsStringIff(quote: char, cs: seq<StrChar>, depth: nat, prev: char)
    requires IsQuote(quote) && ContentOk(cs, quote) && Tame(cs) && depth > 0
    ensures var o, s := Outside(depth, prev), [quote] + (Content(cs) + [quote]);
      var e := Run(s, o);
      && Leads(s, o, e)
      && e == if (prev == '\\') == EndsInBackslash(cs, false) then Outside(depth, quote)
              else Inside(depth, e.prev, quote)
  {
    var o := Outside(depth, prev);
    var st := Step(o, quote);
    var e := Run(Content(cs), st);
    LeadsOne(quote, o);
    if prev == '\\' { LeadsOutside(cs, st); } else { LeadsContent(cs, quote, st); }
    LeadsOne(quote, e);
    LeadsJoin(Content(cs), [quote], st, e, Step(e, quote));
    LeadsJoin([quote], Content(cs) + [quote], o, st, Step(e, quote));
  }

  /** A block whose last part is such a string, with no such quote after it, is found whole exactly when a
      backslash precedes both quotes or none; otherwise it has no end. */
  lemma LastStringIff(b: Body, quote: char, cs: seq<StrChar>, rest: string)
    requires WellFormed(b) && Scannable(b, '\0') && IsQuote(quote) && ContentOk(cs, quote) && Tame(cs) && quote !in rest
    ensures var s := [quote] + (Content(cs) + [quote]);
      Scan(Source(b) + (s + ("}" + rest)), Outside(1, '\0'))
      == if (PrevAfter(b, '\0') == '\\') == EndsInBackslash(cs, false) then Some(|Source(b)| + |s| + 1) else None
  {
    var s, prev, tail := [quote] + (Content(cs) + [quote]), PrevAfter(b, '\0'), "}" + rest;
    var o := Outside(1, prev);
    var e := Run(s, o);
    LeadsBody(b, 1, '\0');
    LeadsScan(Source(b), s + tail, Outside(1, '\0'), o);
    LeadsStringIff(quote, cs, 1, prev);
    LeadsScan(s, tail, o, e);
    if e.str == None {
      assert Step(e, '}').depth == 0;
    } else {
      assert quote !in tail;
      NoQuoteNoEnd(tail, quote, e);
    }
  }

  // ----- The scanner itself -----

  /** Returns the body of the block, without the brace that closes it, and what follows that brace. */
  method GetOpenedBlock(script: string) returns (block: Option<string>, rest: string)
    ensures match Scan(script, Outside(1, '\0'))
            case None => block == None && rest == ""
            case Some(n) => block == Some(script[..n - 1]) && rest == script[n..]
  {
    var bracket: nat := 1;
    var prev := '\0';
    var inStr, inCom, strTok := false, false, '\0';
    var i: nat := 0;
    while bracket > 0
      invariant i <= |script|
      invariant bracket > 0 ==>
        Scan(script, Outside(1, '\0'))
        == Shift(i, Scan(script[i..], State(bracket, prev, if inStr then Some(strTok) else None, inCom)))
      invariant bracket == 0 ==> Scan(script, Outside(1, '\0')) == Some(i)
      decreases |script| - i, bracket
    {
      if i == |script| {
        return None, "";
      }
      var c := script[i];
      assert script[i..][1..] == script[i + 1..];
      i := i + 1;
      if c == '#' && !inStr {
        inCom := true;
        continue;
      }
      if c == '\n' && inCom && !inStr {
        inCom := false;
        continue;
      }
      if inCom {
        continue;
      }
      if c == '"' || c == '`' {
        if prev != '\\' {
          if inStr {
            if strTok != c {
              continue;
            }
            inStr := false;
          } else {
            inStr := true;
            strTok := c;
            continue;
          }
        }
      }
      prev := c;
      if inStr {
        continue;
      }
      if c == '}' {
        bracket := bracket - 1;
      } else if c == '{' {
        bracket := bracket + 1;
      }
    }
    return Some(script[..i - 1]), script[i..];
  }

  /** The token of a block is its body, character by character. */
  lemma BlockIsItsBody(b: Body, rest: string)
    requires WellFormed(b) && Scannable(b, '\0')
    ensures var script := Source(b) + ("}" + rest);
      exists n: nat | n <= |script| ::
        Scan(script, Outside(1, '\0')) == Some(n) && n > 0 && script[..n - 1] == Source(b) && script[n..] == rest
  {
    FindsMatchingBrace(b, rest);
    var script, n := Source(b) + ("}" + rest), |Source(b)| + 1;
    assert script[..n - 1] == Source(b) && script[n..] == rest;
  }
}
