/** Quoting an argument list for a shell prompt, and the shell's own reading of it: token
    recognition and quote removal by IEEE Std 1003.1-2017 XCU sections 2.2.1, 2.2.2, 2.3 and
    2.6.7. Any other unquoted character with a meaning to the shell makes the reading fail. */
module ShellQuote {
  import opened Prelude

  predicate IsAlphanumeric(c: char) {
    'a' <= c <= 'z' || 'A' <= c <= 'Z' || '0' <= c <= '9'
  }

  predicate IsPlain(c: char) {
    || IsAlphanumeric(c)
    || c == '-' || c == '_' || c == '.' || c == '/' || c == '='
    || c == ':' || c == '@' || c == '+' || c == ',' || c == '%'
  }

  predicate AllPlain(s: string) {
    forall i | 0 <= i < |s| :: IsPlain(s[i])
  }

  /** `a.replace('\'', r"'\''")`: close the quotes, an escaped quote, open them again. */
  function EscapeQuotes(s: string): string {
    if s == "" then ""
    else (if s[0] == '\'' then "'\\''" else [s[0]]) + EscapeQuotes(s[1..])
  }

  function Quote(arg: string): string {
    if arg != "" && AllPlain(arg) then arg else "'" + EscapeQuotes(arg) + "'"
  }

  /** `shell_quote`. */
  function Quoted(argv: seq<string>): string {
    if argv == [] then ""
    else if |argv| == 1 then Quote(argv[0])
    else Quote(argv[0]) + " " + Quoted(argv[1..])
  }

  /** A word is left unquoted exactly when it is not empty and all of its characters are
      letters, digits or of the listed marks. */
  lemma PlainWordsStay(arg: string)
    ensures Quote(arg) == arg <==>
            arg != "" && forall i | 0 <= i < |arg| ::
              'a' <= arg[i] <= 'z' || 'A' <= arg[i] <= 'Z' || '0' <= arg[i] <= '9' || arg[i] in "-_./=:@+,%"
  {
    assert forall c :: IsPlain(c) <==> 'a' <= c <= 'z' || 'A' <= c <= 'Z' || '0' <= c <= '9' || c in "-_./=:@+,%";
    EscapeGrows(arg);
  }

  lemma EscapeGrows(s: string)
    ensures |EscapeQuotes(s)| >= |s|
  {
  }

  // ---------------------------------------------------------------- the shell

  /** Between words, inside a word, or inside single quotes within a word. */
  datatype Mode = Between | Word(text: string) | InQuotes(text: string)

  predicate IsBlank(c: char) {
    c == ' ' || c == '\t'
  }

  /** Unquoted characters that operate, expand, redirect, comment or glob. */
  predicate IsSpecial(c: char) {
    || c == '|' || c == '&' || c == ';' || c == '<' || c == '>' || c == '(' || c == ')'
    || c == '$' || c == '`' || c == '"' || c == '*' || c == '?' || c == '[' || c == ']'
    || c == '#' || c == '~' || c == '{' || c == '}' || c == '!' || c == '^' || c == '\n'
  }

  function TextOf(mode: Mode): string
    requires !mode.InQuotes?
  {
    if mode.Word? then mode.text else ""
  }

  /** The words of a command line, or None when it is not a list of plain words. */
  function Words(s: string, mode: Mode): Option<seq<string>> {
    if s == "" then
      match mode
      case Between => Some([])
      case Word(text) => Some([text])
      case InQuotes(_) => None
    else if mode.InQuotes? then
      if s[0] == '\'' then Words(s[1..], Word(mode.text)) else Words(s[1..], InQuotes(mode.text + [s[0]]))
    else
      var c, rest := s[0], s[1..];
      if IsBlank(c) then
        var more := Words(rest, Between);
        if mode.Between? || more.None? then more else Some([mode.text] + more.value)
      else if c == '\'' then Words(rest, InQuotes(TextOf(mode)))
      else if c == '\\' then
        if rest == "" then None
        else if rest[0] == '\n' then Words(rest[1..], mode)
        else Words(rest[1..], Word(TextOf(mode) + [rest[0]]))
      else if IsSpecial(c) then None
      else Words(rest, Word(TextOf(mode) + [c]))
  }

  lemma {:induction false} PlainIsRead(arg: string, text: string, rest: string)
    requires AllPlain(arg)
    ensures Words(arg + rest, Word(text)) == Words(rest, Word(text + arg))
  {
    if arg == "" {
      assert arg + rest == rest && text + arg == text;
    } else {
      assert (arg + rest)[0] == arg[0] && (arg + rest)[1..] == arg[1..] + rest;
      assert IsPlain(arg[0]);
      PlainIsRead(arg[1..], text + [arg[0]], rest);
      assert text + [arg[0]] + arg[1..] == text + arg;
    }
  }

  lemma {:induction false} QuotedIsRead(arg: string, text: string, rest: string)
    ensures Words(EscapeQuotes(arg) + "'" + rest, InQuotes(text)) == Words(rest, Word(text + arg))
  {
    if arg == "" {
      var line := EscapeQuotes(arg) + "'" + rest;
      assert line[0] == '\'' && line[1..] == rest;
      assert text + arg == text;
    } else {
      var tail := EscapeQuotes(arg[1..]) + "'" + rest;
      FirstIsRead(arg, text, rest);
      QuotedIsRead(arg[1..], text + [arg[0]], rest);
      assert text + [arg[0]] + arg[1..] == text + arg;
    }
  }

  /** The first character of a quoted argument is read as itself. */
  lemma FirstIsRead(arg: string, text: string, rest: string)
    requires arg != ""
    ensures Words(EscapeQuotes(arg) + "'" + rest, InQuotes(text)) ==
            Words(EscapeQuotes(arg[1..]) + "'" + rest, InQuotes(text + [arg[0]]))
  {
    var tail := EscapeQuotes(arg[1..]) + "'" + rest;
    var line := EscapeQuotes(arg) + "'" + rest;
    if arg[0] == '\'' {
      assert line == "'\\''" + tail;
      EscapedQuoteIsRead(text, tail);
    } else {
      assert line == [arg[0]] + tail;
      PlainInQuotes(arg[0], text, tail);
    }
  }

  lemma PlainInQuotes(c: char, text: string, tail: string)
    requires c != '\''
    ensures Words([c] + tail, InQuotes(text)) == Words(tail, InQuotes(text + [c]))
  {
    assert ([c] + tail)[1..] == tail;
  }

  lemma EscapedQuoteIsRead(text: string, tail: string)
    ensures Words("'\\''" + tail, InQuotes(text)) == Words(tail, InQuotes(text + ['\'']))
  {
    var l0 := "'\\''" + tail;
    var l1, l2, l3 := "\\''" + tail, "''" + tail, "'" + tail;
    assert l0[0] == '\'' && l0[1..] == l1;
    assert l1[0] == '\\' && l1[1..] == l2 && l2[0] == '\'' && l2[1..] == l3;
    assert l3[0] == '\'' && l3[1..] == tail;
    assert Words(l1, Word(text)) == Words(l3, Word(text + ['\'']));
  }

  /** A word starts the same way whether or not the reader has entered it. */
  lemma WordStarts(line: string)
    requires line != "" && !IsBlank(line[0]) && line[0] != '\\'
    ensures Words(line, Between) == Words(line, Word(""))
  {
  }

  lemma QuotesOpen(line: string)
    requires line != "" && line[0] == '\''
    ensures Words(line, Word("")) == Words(line[1..], InQuotes(""))
  {
  }

  lemma PlainStarts(arg: string, rest: string)
    requires arg != "" && AllPlain(arg)
    ensures Words(arg + rest, Between) == Words(rest, Word(arg))
  {
    var line := arg + rest;
    assert line[0] == arg[0] && IsPlain(arg[0]);
    WordStarts(line);
    PlainIsRead(arg, "", rest);
    assert "" + arg == arg;
  }

  lemma QuotedStarts(arg: string, rest: string)
    ensures Words("'" + EscapeQuotes(arg) + "'" + rest, Between) == Words(rest, Word(arg))
  {
    var line := "'" + EscapeQuotes(arg) + "'" + rest;
    assert line[0] == '\'' && line[1..] == EscapeQuotes(arg) + "'" + rest;
    WordStarts(line);
    QuotesOpen(line);
    QuotedIsRead(arg, "", rest);
    assert "" + arg == arg;
  }

  /** One quoted argument is read back as exactly that word, wherever it stands. */
  lemma QuoteIsRead(arg: string, rest: string)
    ensures Words(Quote(arg) + rest, Between) == Words(rest, Word(arg))
  {
    if arg != "" && AllPlain(arg) {
      PlainStarts(arg, rest);
    } else {
      QuotedStarts(arg, rest);
    }
  }

  lemma BlankEndsWord(word: string, more: string)
    ensures Words(" " + more, Word(word)) ==
            var rest := Words(more, Between);
            if rest.None? then None else Some([word] + rest.value)
  {
    assert (" " + more)[0] == ' ' && (" " + more)[1..] == more;
  }

  /** Round trip: the shell splits the quoted line into exactly the original arguments, for
      every list of strings, with empty words, blanks, newlines and quotes inside. */
  lemma {:induction false} ShellReadsBack(argv: seq<string>)
    ensures Words(Quoted(argv), Between) == Some(argv)
  {
    if argv != [] {
      if |argv| == 1 {
        QuoteIsRead(argv[0], "");
        assert Quote(argv[0]) + "" == Quote(argv[0]);
        assert argv == [argv[0]];
      } else {
        var more := Quoted(argv[1..]);
        assert Quoted(argv) == Quote(argv[0]) + (" " + more);
        QuoteIsRead(argv[0], " " + more);
        BlankEndsWord(argv[0], more);
        ShellReadsBack(argv[1..]);
        assert argv == [argv[0]] + argv[1..];
      }
    }
  }

  /** So different argument lists are never quoted to the same line. */
  lemma QuotingIsInjective(a: seq<string>, b: seq<string>)
    requires Quoted(a) == Quoted(b)
    ensures a == b
  {
    ShellReadsBack(a);
    ShellReadsBack(b);
  }
}
