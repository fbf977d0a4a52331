/** Words of scdoc text: when an underscore is a marker, what plain and marked words are written as, and the
    guards after punctuation. */
module ScdocWords {
  import opened Scdoc

  predicate LetterOrDigit(c: char) { '0' <= c <= '9' || 'A' <= c <= 'Z' || 'a' <= c <= 'z' }

  /** The low byte of a code point, as a character. */
  function LowByte(c: char): char { (c as int % 256) as char }

  lemma AlnumIff(c: char)
    ensures Alnum(c) <==> LetterOrDigit(LowByte(c))
    ensures c < '\U{100}' ==> (Alnum(c) <==> LetterOrDigit(c))
  {
  }

  // ----- Underscores -----

  predicate WordAfter(t: string) { t != "" && LetterOrDigit(LowByte(t[0])) }

  lemma TakeUnderscore(t: string, first: bool, last: char, flags: bv8)
    requires t == "" || t[0] != INVALID
    ensures Take("_" + t, first, last, flags)
         == if !LetterOrDigit(LowByte(last)) || (flags & UNDERLINE != 0 && !WordAfter(t)) then Mark(flags, UNDERLINE, t)
            else Go(Plain('_'), t)
  {
    assert ("_" + t)[0] == '_' && ("_" + t)[1..] == t;
    AlnumIff(last);
    if t != "" { AlnumIff(t[0]); }
  }

  /** By the characters on both sides and the open font: inside a word an underscore stands for itself, and so does
      one before a letter or digit there when it could close; elsewhere it opens or closes, and under bold it is an
      error.  Before an invalid character it always is. */
  lemma UnderscoreIff(t: string, first: bool, last: char, flags: bv8)
    requires OneFont(flags)
    ensures var before, after, u := LetterOrDigit(LowByte(last)), WordAfter(t), Take("_" + t, first, last, flags);
      if t != "" && t[0] == INVALID then u == Fail else
      && (u == Go(Plain('_'), t) <==> before && (flags != UNDERLINE || after))
      && (u == Go(Open(UNDERLINE), t) <==> !before && flags == 0)
      && (u == Go(Close(UNDERLINE), t) <==> flags == UNDERLINE && !(before && after))
      && (u == Fail <==> flags == BOLD && !before)
  {
    assert ("_" + t)[0] == '_' && ("_" + t)[1..] == t;
    if t == "" || t[0] != INVALID {
      TakeUnderscore(t, first, last, flags);
      Marking(flags, t);
    }
  }

  lemma Marking(flags: bv8, t: string)
    requires OneFont(flags)
    ensures Mark(flags, UNDERLINE, t)
         == if flags == 0 then Go(Open(UNDERLINE), t) else if flags == UNDERLINE then Go(Close(UNDERLINE), t) else Fail
    ensures Mark(flags, BOLD, t)
         == if flags == 0 then Go(Open(BOLD), t) else if flags == BOLD then Go(Close(BOLD), t) else Fail
    ensures flags & UNDERLINE != 0 <==> flags == UNDERLINE
  {
  }

  /** What an underscore looks back at: it always marks after an explicit break and after punctuation, after any other
      plain character when that is no letter or digit, and otherwise as it would have before; a plus, an underscore, an
      escaped character, a marker and a guarded first character are looked through. */
  lemma UnderscoreAfter(u: Unit, t: string, last: char)
    requires (t == "" || t[0] != INVALID) && (u.Sentence? ==> !LetterOrDigit(LowByte(u.c)))
    ensures var marks := match u
              case Break => true
              case Sentence(_) => true
              case Plain(c) =>
                if c == '+' || c == '_' then !LetterOrDigit(LowByte(last)) else !LetterOrDigit(LowByte(c))
              case _ => !LetterOrDigit(LowByte(last));
      Take("_" + t, false, Last(u, last), 0) == Go(if marks then Open(UNDERLINE) else Plain('_'), t)
  {
    TakeUnderscore(t, false, Last(u, last), 0);
    Marking(0, t);
  }

  // ----- Words without markers -----

  predicate WordChars(s: string) { forall i :: 0 <= i < |s| ==> LetterOrDigit(s[i]) || s[i] == '_' }

  function Plains(s: string): seq<Unit> { if s == "" then [] else [Plain(s[0])] + Plains(s[1..]) }

  function PrependAll(us: seq<Unit>, l: Line): Line {
    if us == [] then l else Prepend(us[0], PrependAll(us[1..], l))
  }

  /** The last letter or digit, which is what an underscore looks back at. */
  function LastWord(s: string, last: char): char {
    if s == "" then last else LastWord(s[1..], if s[0] == '_' then last else s[0])
  }

  lemma {:induction false} PlainsShow(s: string)
    ensures Outputs(Plains(s)) == s && Text(Plains(s)) == s && Fonts(Plains(s)) == ""
    decreases |s|
  {
    if s != "" {
      PlainsShow(s[1..]);
      Uncons(s);
      assert Plains(s)[1..] == Plains(s[1..]);
    }
  }

  lemma TakeWordChar(c: char, t: string, first: bool, last: char, flags: bv8)
    requires LetterOrDigit(c)
    ensures Take([c] + t, first, last, flags) == Go(Plain(c), t)
  {
    assert ([c] + t)[0] == c && ([c] + t)[1..] == t;
  }

  lemma TakeSnakeChar(c: char, t: string, first: bool, last: char, flags: bv8)
    requires (LetterOrDigit(c) || c == '_') && flags & UNDERLINE == 0 && (t == "" || t[0] != INVALID)
    requires LetterOrDigit(last) || LetterOrDigit(c)
    ensures Take([c] + t, first, last, flags) == Go(Plain(c), t)
  {
    if c == '_' {
      AlnumIff(last);
      TakeUnderscore(t, first, last, flags);
    } else {
      TakeWordChar(c, t, first, last, flags);
    }
  }

  /** Outside an underlined word, letters, digits and underscores that follow one of the first two are plain text. */
  lemma {:induction false} SnakeText(s: string, t: string, first: bool, last: char, flags: bv8)
    requires WordChars(s) && flags & UNDERLINE == 0 && (t == "" || t[0] != INVALID)
    requires s != "" && (LetterOrDigit(last) || LetterOrDigit(s[0]))
    ensures Lex(s + t, first, last, flags) == PrependAll(Plains(s), Lex(t, false, LastWord(s, last), flags))
    decreases |s|
  {
    var c, more := s[0], s[1..];
    var next := if c == '_' then last else c;
    assert s + t == [c] + (more + t);
    assert more + t == "" || (more + t)[0] != INVALID by { if more != "" { assert (more + t)[0] == more[0]; } }
    TakeSnakeChar(c, more + t, first, last, flags);
    assert Lex(s + t, first, last, flags) == Prepend(Plain(c), Lex(more + t, false, next, flags));
    if more == "" {
      assert more + t == t && PrependAll([], Lex(t, false, next, flags)) == Lex(t, false, next, flags);
    } else {
      SnakeText(more, t, false, next, flags);
    }
    assert Plains(s)[1..] == Plains(more);
  }

  lemma {:induction false} PrependedLine(us: seq<Unit>, l: Line)
    requires l.Line?
    ensures PrependAll(us, l) == l.(units := us + l.units)
    decreases |us|
  {
    if us == [] {
      assert [] + l.units == l.units;
    } else {
      PrependedLine(us[1..], l);
      assert us + l.units == [us[0]] + (us[1..] + l.units);
    }
  }

  /** A line of letters, digits and underscores that begins with one of the first two is written as it is, with no
      font. */
  lemma SnakeLine(s: string, newline: bool, rest: string, first: bool, last: char, flags: bv8)
    requires s != "" && WordChars(s) && LetterOrDigit(s[0]) && (newline || rest == "") && flags & UNDERLINE == 0
    ensures Lex(s + Tail(newline, rest), first, last, flags) == Line(Plains(s), newline, rest, flags)
    ensures Outputs(Plains(s)) == s && Fonts(Plains(s)) == ""
  {
    var t := Tail(newline, rest);
    SnakeText(s, t, first, last, flags);
    LexEnd(false, LastWord(s, last), flags, newline, rest);
    PrependedLine(Plains(s), Line([], newline, rest, flags));
    PlainsShow(s);
  }

  // ----- Marked words -----

  /** A word that begins and ends in a letter or digit, with single underscores between. */
  predicate Snake(s: string) {
    && s != "" && WordChars(s) && LetterOrDigit(s[0]) && LetterOrDigit(s[|s| - 1])
    && forall i :: 0 <= i < |s| - 1 ==> s[i] == '_' ==> s[i + 1] != '_'
  }

  /** Inside an underlined word the same, as far as its end. */
  lemma {:induction false} UnderlinedText(s: string, t: string, first: bool, last: char)
    requires WordChars(s) && (forall i :: 0 <= i < |s| - 1 ==> s[i] == '_' ==> s[i + 1] != '_')
    requires s != "" && LetterOrDigit(s[|s| - 1]) && (LetterOrDigit(last) || LetterOrDigit(s[0]))
    ensures Lex(s + t, first, last, UNDERLINE) == PrependAll(Plains(s), Lex(t, false, s[|s| - 1], UNDERLINE))
    decreases |s|
  {
    var c, more := s[0], s[1..];
    var next := if c == '_' then last else c;
    assert s + t == [c] + (more + t);
    if c == '_' {
      AlnumIff(last);
      assert more != "" && s[1] == more[0] && (more + t)[0] == more[0];
      AlnumIff(more[0]);
      TakeUnderscore(more + t, first, last, UNDERLINE);
    } else {
      TakeWordChar(c, more + t, first, last, UNDERLINE);
    }
    assert Lex(s + t, first, last, UNDERLINE) == Prepend(Plain(c), Lex(more + t, false, next, UNDERLINE));
    if more == "" {
      assert more + t == t && PrependAll([], Lex(t, false, next, UNDERLINE)) == Lex(t, false, next, UNDERLINE);
    } else {
      forall i | 0 <= i < |more| - 1 ensures more[i] == '_' ==> more[i + 1] != '_' { assert more[i] == s[i + 1]; }
      UnderlinedText(more, t, false, next);
    }
    assert Plains(s)[1..] == Plains(more);
  }

  /** `_word_`, not directly after or before a letter or digit, underlines the word; `*word*` makes it bold anywhere. */
  lemma MarkedWord(s: string, t: string, first: bool, last: char)
    requires Snake(s) && (t == "" || t[0] != INVALID)
    ensures !LetterOrDigit(LowByte(last)) && !WordAfter(t) ==>
      Lex("_" + (s + ("_" + t)), first, last, 0)
      == Prepend(Open(UNDERLINE), PrependAll(Plains(s), Prepend(Close(UNDERLINE), Lex(t, false, s[|s| - 1], 0))))
    ensures Lex("*" + (s + ("*" + t)), first, last, 0)
         == Prepend(Open(BOLD), PrependAll(Plains(s), Prepend(Close(BOLD), Lex(t, false, LastWord(s, last), 0))))
    ensures Outputs([Open(UNDERLINE)] + Plains(s) + [Close(UNDERLINE)]) == "\\fI" + s + "\\fR"
    ensures Outputs([Open(BOLD)] + Plains(s) + [Close(BOLD)]) == "\\fB" + s + "\\fR"
  {
    if !LetterOrDigit(LowByte(last)) && !WordAfter(t) { Underlined(s, t, first, last); }
    Bold(s, t, first, last);
    MarkedOutput(s, UNDERLINE);
    MarkedOutput(s, BOLD);
  }

  lemma Underlined(s: string, t: string, first: bool, last: char)
    requires Snake(s) && (t == "" || t[0] != INVALID) && !LetterOrDigit(LowByte(last)) && !WordAfter(t)
    ensures Lex("_" + (s + ("_" + t)), first, last, 0)
         == Prepend(Open(UNDERLINE), PrependAll(Plains(s), Prepend(Close(UNDERLINE), Lex(t, false, s[|s| - 1], 0))))
  {
    var rest := "_" + t;
    assert (s + rest)[0] == s[0];
    TakeUnderscore(s + rest, first, last, 0);
    Marking(0, s + rest);
    UnderlinedText(s, rest, false, last);
    var end := s[|s| - 1];
    TakeUnderscore(t, false, end, UNDERLINE);
    Marking(UNDERLINE, t);
  }

  lemma TakeStar(t: string, first: bool, last: char, flags: bv8)
    requires OneFont(flags)
    ensures Take("*" + t, first, last, flags)
         == if flags == 0 then Go(Open(BOLD), t) else if flags == BOLD then Go(Close(BOLD), t) else Fail
  {
    assert ("*" + t)[0] == '*' && ("*" + t)[1..] == t;
    Marking(flags, t);
  }

  lemma Bold(s: string, t: string, first: bool, last: char)
    requires Snake(s) && (t == "" || t[0] != INVALID)
    ensures Lex("*" + (s + ("*" + t)), first, last, 0)
         == Prepend(Open(BOLD), PrependAll(Plains(s), Prepend(Close(BOLD), Lex(t, false, LastWord(s, last), 0))))
  {
    var rest := "*" + t;
    TakeStar(s + rest, first, last, 0);
    assert rest[0] == '*' && BOLD & UNDERLINE == 0;
    SnakeText(s, rest, false, last, BOLD);
    TakeStar(t, false, LastWord(s, last), BOLD);
  }

  lemma MarkedOutput(s: string, format: bv8)
    requires format == BOLD || format == UNDERLINE
    ensures Outputs([Open(format)] + Plains(s) + [Close(format)])
         == (if format == BOLD then "\\fB" else "\\fI") + s + "\\fR"
  {
    var us := [Open(format)] + Plains(s) + [Close(format)];
    PlainsShow(s);
    OutputsSplit(us, 1 + |Plains(s)|);
    OutputsSplit([Open(format)] + Plains(s), 1);
    assert us[..1 + |Plains(s)|] == [Open(format)] + Plains(s) && us[1 + |Plains(s)|..] == [Close(format)];
    assert ([Open(format)] + Plains(s))[..1] == [Open(format)] && ([Open(format)] + Plains(s))[1..] == Plains(s);
    assert Outputs([Open(format)]) == Output(Open(format)) + ""
      && Outputs([Close(format)]) == Output(Close(format)) + "";
  }

  // ----- Guards after punctuation -----

  predicate Punctuation(c: char) { c == '.' || c == '!' || c == '?' || c == '\'' }

  /** Every punctuation mark is directly followed by the escape that shows nothing. */
  predicate Guarded(o: string) {
    forall i :: 0 <= i < |o| && Punctuation(o[i]) ==> i + 2 < |o| && o[i + 1] == '\\' && o[i + 2] == '&'
  }

  predicate NoEscapes(us: seq<Unit>) {
    us == [] || (!us[0].Escaped? && us[0] != Break && NoEscapes(us[1..]))
  }

  predicate Marked(u: Unit) { match u case Plain(c) => !Punctuation(c) case _ => true }

  predicate AllMarked(us: seq<Unit>) { us == [] || (Marked(us[0]) && AllMarked(us[1..])) }

  lemma TakeMarks(s: string, first: bool, last: char, flags: bv8)
    ensures var t := Take(s, first, last, flags); t.Go? ==> Marked(t.u)
  {
  }

  lemma {:induction false} LexMarks(s: string, first: bool, last: char, flags: bv8)
    requires Lex(s, first, last, flags).Line?
    ensures AllMarked(Lex(s, first, last, flags).units)
    decreases |s|
  {
    match Take(s, first, last, flags) {
      case Go(u, rest) =>
        TakeMarks(s, first, last, flags);
        LexMarks(rest, false, Last(u, last), After(u, flags));
        var us := Lex(rest, false, Last(u, last), After(u, flags)).units;
        assert ([u] + us)[1..] == us;
      case _ =>
    }
  }

  lemma GuardedJoin(a: string, b: string)
    requires Guarded(a) && Guarded(b)
    ensures Guarded(a + b)
  {
    var o := a + b;
    forall i | 0 <= i < |o| && Punctuation(o[i]) ensures i + 2 < |o| && o[i + 1] == '\\' && o[i + 2] == '&' {
      if i < |a| { assert a[i] == o[i]; } else { assert b[i - |a|] == o[i]; }
    }
  }

  lemma {:induction false} UnitsGuarded(us: seq<Unit>)
    requires AllMarked(us) && NoEscapes(us)
    ensures Guarded(Outputs(us))
    decreases |us|
  {
    if us != [] {
      UnitsGuarded(us[1..]);
      assert Guarded(Output(us[0]));
      GuardedJoin(Output(us[0]), Outputs(us[1..]));
    }
  }

  /** No unescaped full stop, exclamation mark, question mark or quote ends a sentence in the output. */
  lemma NoSentenceEnds(s: string, first: bool, last: char, flags: bv8)
    requires Lex(s, first, last, flags).Line? && NoEscapes(Lex(s, first, last, flags).units)
    ensures Guarded(Outputs(Lex(s, first, last, flags).units))
  {
    LexMarks(s, first, last, flags);
    UnitsGuarded(Lex(s, first, last, flags).units);
  }
}
