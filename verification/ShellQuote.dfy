/** The single-quote escaper of the frontend build script (node-rs/src/frontend_build.rs), against the quoting
  * rules of sections 2.2.1 to 2.2.3 of the POSIX Shell Command Language. */
module ShellQuote {
  import opened Bytes

  // Every single quote becomes: close the quotes, one double-quoted single quote, open them again.
  function EscapeSingleQuoted(s: string): string {
    if s == "" then "" else (if s[0] == '\'' then "'\"'\"'" else [s[0]]) + EscapeSingleQuoted(s[1..])
  }

  // How the script embeds a command.
  function Quoted(s: string): string { "'" + EscapeSingleQuoted(s) + "'" }

  // The replacement, as text: around every single quote, and nowhere else.
  lemma {:induction false} EscapeExactly(a: string, b: string)
    ensures EscapeSingleQuoted(a + "'" + b) == EscapeSingleQuoted(a) + "'\"'\"'" + EscapeSingleQuoted(b)
    ensures '\'' !in a ==> EscapeSingleQuoted(a) == a
  {
    if a == "" {
      assert a + "'" + b == "'" + b && ("'" + b)[1..] == b;
    } else {
      assert (a + "'" + b)[1..] == a[1..] + "'" + b;
      EscapeExactly(a[1..], b);
      assert a == [a[0]] + a[1..];
    }
  }

  // ----- The shell's side -----

  datatype Mode = Bare | Single | Double

  // The characters section 2.2 asks to quote, apart from the three quoting characters and the blanks.
  predicate IsSpecial(c: char) { c in "|&;<>()$`\n*?[#~=%" }

  // A word under construction; None between words.
  function Grow(word: Option<string>, s: string): Option<string> { Some(word.GetOr("") + s) }

  /** The words `text` stands for once its quotes are removed, when it is built from literal characters, blanks and
    * quotes only; None for an unfinished quote, and for anything the shell would not take literally. */
  function Words(text: string, mode: Mode, word: Option<string>): Option<seq<string>>
    decreases |text|
  {
    if text == "" then
      if mode != Bare then None else Some(if word.Some? then [word.value] else [])
    else
      var c, rest := text[0], text[1..];
      match mode
      case Single => if c == '\'' then Words(rest, Bare, word) else Words(rest, Single, Grow(word, [c]))
      case Double =>
        if c == '"' then Words(rest, Bare, word)
        else if c == '$' || c == '`' then None
        else if c == '\\' && rest != "" && rest[0] == '\n' then Words(rest[1..], Double, word)
        else if c == '\\' && rest != "" && rest[0] in "$`\"\\" then Words(rest[1..], Double, Grow(word, [rest[0]]))
        else Words(rest, Double, Grow(word, [c]))
      case Bare =>
        if c == '\'' then Words(rest, Single, Grow(word, ""))
        else if c == '"' then Words(rest, Double, Grow(word, ""))
        else if c == '\\' then
          if rest == "" then None
          else if rest[0] == '\n' then Words(rest[1..], Bare, word)
          else Words(rest[1..], Bare, Grow(word, [rest[0]]))
        else if c == ' ' || c == '\t' then
          match Words(rest, Bare, None) {
            case None => None
            case Some(words) => Some((if word.Some? then [word.value] else []) + words)
          }
        else if IsSpecial(c) then None
        else Words(rest, Bare, Grow(word, [c]))
  }

  // ----- Quote removal undoes the escaping -----

  // Inside the quotes, whatever follows: the escaped text adds exactly the original text to the current word.
  lemma {:induction false} EscapedAddsItself(s: string, rest: string, word: string)
    ensures Words(EscapeSingleQuoted(s) + rest, Single, Some(word)) == Words(rest, Single, Some(word + s))
    decreases |s|
  {
    if s == "" {
      assert EscapeSingleQuoted(s) + rest == rest && word + s == word;
    } else {
      var tail := EscapeSingleQuoted(s[1..]) + rest;
      assert word + [s[0]] + s[1..] == word + s;
      EscapedAddsItself(s[1..], rest, word + [s[0]]);
      if s[0] == '\'' {
        assert EscapeSingleQuoted(s) + rest == "'\"'\"'" + tail;
        QuotedQuote(tail, word);
      } else {
        assert EscapeSingleQuoted(s) + rest == [s[0]] + tail;
        LiteralInQuotes(s[0], tail, word);
      }
    }
  }

  lemma LiteralInQuotes(c: char, tail: string, word: string)
    requires c != '\''
    ensures Words([c] + tail, Single, Some(word)) == Words(tail, Single, Some(word + [c]))
  {
    assert ([c] + tail)[1..] == tail;
  }

  // Closing the single quotes and opening double ones, and the way back.
  lemma IntoDouble(tail: string, word: string)
    ensures Words("'\"" + tail, Single, Some(word)) == Words(tail, Double, Some(word))
  {
    assert ("'\"" + tail)[1..] == "\"" + tail && ("\"" + tail)[1..] == tail && word + "" == word;
    assert Words("\"" + tail, Bare, Some(word)) == Words(tail, Double, Some(word));
  }

  lemma OutOfDouble(tail: string, word: string)
    ensures Words("\"'" + tail, Double, Some(word)) == Words(tail, Single, Some(word))
  {
    assert ("\"'" + tail)[1..] == "'" + tail && ("'" + tail)[1..] == tail && word + "" == word;
    assert Words("'" + tail, Bare, Some(word)) == Words(tail, Single, Some(word));
  }

  // The five characters that stand for one single quote.
  lemma QuotedQuote(tail: string, word: string)
    ensures Words("'\"'\"'" + tail, Single, Some(word)) == Words(tail, Single, Some(word + "'"))
  {
    var back := "\"'" + tail;
    var middle := "'" + back;
    assert "'\"'\"'" + tail == "'\"" + middle && middle[1..] == back;
    IntoDouble(middle, word);
    OutOfDouble(tail, word + "'");
    assert Words(middle, Double, Some(word)) == Words(back, Double, Some(word + "'"));
  }

  /** A quoted string extends the current word by exactly itself, whatever stands before and after it. */
  lemma QuotedAddsItself(s: string, rest: string, word: Option<string>)
    ensures Words(Quoted(s) + rest, Bare, word) == Words(rest, Bare, Grow(word, s))
  {
    var w := word.GetOr("");
    var inside := EscapeSingleQuoted(s) + ("'" + rest);
    assert Quoted(s) + rest == "'" + inside;
    assert w + "" == w;
    EscapedAddsItself(s, "'" + rest, w);
    assert ("'" + rest)[1..] == rest;
  }

  /** Quote removal gives the original string back, as one word. */
  lemma QuotedIsOneWord(s: string)
    ensures Words(Quoted(s), Bare, None) == Some([s])
  {
    QuotedAddsItself(s, "", None);
    assert Quoted(s) + "" == Quoted(s) && "" + s == s;
  }

  lemma LiteralAddsItself(c: char, rest: string, word: Option<string>)
    requires c !in "'\"\\ \t" && !IsSpecial(c)
    ensures Words([c] + rest, Bare, word) == Words(rest, Bare, Grow(word, [c]))
  {
    assert ([c] + rest)[1..] == rest;
  }

  lemma BlankEndsWord(rest: string, word: string)
    ensures Words(" " + rest, Bare, Some(word)) ==
            match Words(rest, Bare, None) { case None => None case Some(words) => Some([word] + words) }
  {
    assert (" " + rest)[1..] == rest;
  }

  // A literal character, then a second one and a blank: a two-letter word.
  lemma TwoLetterWord(c: char, d: char, rest: string)
    requires c !in "'\"\\ \t" && !IsSpecial(c) && d !in "'\"\\ \t" && !IsSpecial(d)
    ensures Words([c, d] + (" " + rest), Bare, None) ==
            match Words(rest, Bare, None) { case None => None case Some(words) => Some([[c, d]] + words) }
  {
    var t2 := " " + rest;
    var t1 := [d] + t2;
    assert [c, d] + t2 == [c] + t1;
    assert "" + [c] == [c] && [c] + [d] == [c, d];
    LiteralAddsItself(c, t1, None);
    LiteralAddsItself(d, t2, Some([c]));
    BlankEndsWord(rest, [c, d]);
  }

  // The build script's command line: three words, the last one the command as it was given.
  lemma ShellCommandIsThreeWords(s: string)
    ensures Words("sh -c " + Quoted(s), Bare, None) == Some(["sh", "-c", s])
  {
    var q := Quoted(s);
    TwoLetterWord('s', 'h', "-c" + (" " + q));
    TwoLetterWord('-', 'c', q);
    QuotedIsOneWord(s);
    assert "sh -c " + q == "sh" + (" " + ("-c" + (" " + q)));
    assert ["sh"] + (["-c"] + [s]) == ["sh", "-c", s];
  }

  // ----- The escaping is needed for every string that holds a quote -----

  function TotalLength(words: seq<string>): nat {
    if words == [] then 0 else |words[0]| + TotalLength(words[1..])
  }

  lemma TotalLengthCons(word: string, words: seq<string>)
    ensures TotalLength([word] + words) == |word| + TotalLength(words)
  {
  }

  ghost predicate Loses(text: string, mode: Mode, word: Option<string>) {
    var r := Words(text, mode, word);
    r.Some? ==> TotalLength(r.value) < |text| + |word.GetOr("")|
  }

  predicate EndsInQuote(text: string) { text != "" && text[|text| - 1] == '\'' }

  // Text that ends in a single quote always loses at least that character.
  lemma {:induction false} SingleLoses(text: string, word: Option<string>)
    requires EndsInQuote(text)
    ensures Loses(text, Single, word)
    decreases |text|
  {
    var c, rest := text[0], text[1..];
    if rest != "" {
      if c == '\'' { BareLoses(rest, word); } else { SingleLoses(rest, Grow(word, [c])); }
    }
  }

  lemma {:induction false} DoubleLoses(text: string, word: Option<string>)
    requires EndsInQuote(text)
    ensures Loses(text, Double, word)
    decreases |text|
  {
    var c, rest := text[0], text[1..];
    if rest != "" {
      if c == '"' {
        BareLoses(rest, word);
      } else if c == '\\' && rest[0] in "\n$`\"\\" {
        DoubleLoses(rest[1..], if rest[0] == '\n' then word else Grow(word, [rest[0]]));
      } else {
        DoubleLoses(rest, Grow(word, [c]));
      }
    }
  }

  lemma {:induction false} BareLoses(text: string, word: Option<string>)
    requires EndsInQuote(text)
    ensures Loses(text, Bare, word)
    decreases |text|
  {
    var c, rest := text[0], text[1..];
    if rest != "" {
      if c == '\'' {
        SingleLoses(rest, Grow(word, ""));
      } else if c == '"' {
        DoubleLoses(rest, Grow(word, ""));
      } else if c == '\\' {
        if |rest| > 1 { BareLoses(rest[1..], if rest[0] == '\n' then word else Grow(word, [rest[0]])); }
      } else if c == ' ' || c == '\t' {
        BareLoses(rest, None);
        match Words(rest, Bare, None) {
          case None =>
          case Some(words) =>
            if word.Some? { TotalLengthCons(word.value, words); } else { assert [] + words == words; }
        }
      } else {
        BareLoses(rest, Grow(word, [c]));
      }
    }
  }

  lemma {:induction false} PlainAddsItself(s: string, rest: string, word: string)
    requires '\'' !in s
    ensures Words(s + rest, Single, Some(word)) == Words(rest, Single, Some(word + s))
    decreases |s|
  {
    if s == "" {
      assert s + rest == rest && word + s == word;
    } else {
      assert s + rest == [s[0]] + (s[1..] + rest);
      LiteralInQuotes(s[0], s[1..] + rest, word);
      assert word + [s[0]] + s[1..] == word + s;
      PlainAddsItself(s[1..], rest, word + [s[0]]);
    }
  }

  // From the first quote inside the string on, the shell is outside the quotes.
  lemma InnerQuoteCloses(s: string, rest: string)
    requires '\'' !in s
    ensures Words("'" + s + "'" + rest, Bare, None) == Words(rest, Bare, Some(s))
  {
    var inside := s + ("'" + rest);
    assert "'" + s + "'" + rest == "'" + inside && ("'" + inside)[1..] == inside;
    assert "" + "" == "" && "" + s == s;
    PlainAddsItself(s, "'" + rest, "");
    assert ("'" + rest)[1..] == rest;
  }

  /** Plain quotes without the escaping are right exactly for the strings without a single quote. */
  lemma RawQuotesExactlyWhen(s: string)
    ensures Words("'" + s + "'", Bare, None) == Some([s]) <==> '\'' !in s
  {
    if '\'' !in s {
      InnerQuoteCloses(s, "");
      assert "'" + s + "'" + "" == "'" + s + "'";
    } else {
      var n := FirstQuote(s);
      var rest := s[n + 1..] + "'";
      assert "'" + s + "'" == "'" + s[..n] + "'" + rest;
      InnerQuoteCloses(s[..n], rest);
      BareLoses(rest, Some(s[..n]));
      TotalLengthCons(s, []);
      assert [s] + [] == [s];
    }
  }

  function FirstQuote(s: string): (n: nat)
    requires '\'' in s
    ensures n < |s| && s[n] == '\'' && '\'' !in s[..n]
  {
    if s[0] == '\'' then 0
    else
      var n := FirstQuote(s[1..]);
      assert s[..n + 1] == [s[0]] + s[1..][..n];
      n + 1
  }
}
