/** The `.env` file a node renders for an instance's edge functions (node-rs/src/instance_manager.rs).
  * The renderer is proved against an independent line-oriented reader, for every value and every key
  * that the request handler lets through. */
module EnvFile {
  import opened Bytes

  datatype Entry = Entry(key: string, value: string)

  // ----- What the node accepts and writes -----

  predicate IsKeyStart(c: char) { 'A' <= c <= 'Z' || 'a' <= c <= 'z' || c == '_' }

  predicate IsKeyChar(c: char) { IsKeyStart(c) || '0' <= c <= '9' }

  // An accepted key is ASCII, so its length in characters is its length in bytes.
  predicate ValidKey(key: string) {
    1 <= |key| <= 128 && IsKeyStart(key[0]) && forall i :: 0 < i < |key| ==> IsKeyChar(key[i])
  }

  // At most 128 letters, digits and underscores, at least one, and no digit first.
  lemma ValidKeyExactlyWhen(key: string)
    ensures ValidKey(key) <==>
            && key != "" && |key| <= 128 && !('0' <= key[0] <= '9')
            && forall c :: c in key ==> c == '_' || '0' <= c <= '9' || 'A' <= c <= 'Z' || 'a' <= c <= 'z'
  {
    if ValidKey(key) {
      assert IsKeyChar(key[0]);
    }
    assert forall i :: 0 <= i < |key| ==> key[i] in key;
  }

  function EscapeChar(c: char): string {
    match c
    case '\\' => "\\\\"
    case '"' => "\\\""
    case '$' => "\\$"
    case '\n' => "\\n"
    case '\r' => "\\r"
    case _ => [c]
  }

  function Escape(value: string): string {
    if value == "" then "" else EscapeChar(value[0]) + Escape(value[1..])
  }

  function EntryLine(e: Entry): string { e.key + "=\"" + Escape(e.value) + "\"" }

  function EntryLines(entries: seq<Entry>): seq<string> {
    if entries == [] then [] else [EntryLine(entries[0])] + EntryLines(entries[1..])
  }

  // A file is its lines, each closed by a newline.
  function Unlines(lines: seq<string>): string {
    if lines == [] then "" else lines[0] + "\n" + Unlines(lines[1..])
  }

  /** The five characters that get a backslash, and what follows it; every other character stands for itself. */
  lemma EscapedCharacters(c: char)
    ensures Escape(['\\']) == ['\\', '\\'] && Escape(['"']) == ['\\', '"'] && Escape(['$']) == ['\\', '$']
    ensures Escape(['\n']) == ['\\', 'n'] && Escape(['\r']) == ['\\', 'r']
    ensures c !in ['\\', '"', '$', '\n', '\r'] ==> Escape([c]) == [c]
  {
    assert Escape([]) == [];
    assert ['\\'][1..] == [] && ['"'][1..] == [] && ['$'][1..] == [] && ['\n'][1..] == [] && ['\r'][1..] == [];
    assert [c][1..] == [];
  }

  lemma {:induction false} EscapeConcat(a: string, b: string)
    ensures Escape(a + b) == Escape(a) + Escape(b)
  {
    if a == "" {
      assert a + b == b;
    } else {
      assert (a + b)[1..] == a[1..] + b;
      EscapeConcat(a[1..], b);
    }
  }

  // ----- What a reader of the file sees -----

  // The text up to the next newline, and what follows it; a last line without newline is taken whole.
  function Lines(text: string): seq<string>
    decreases |text|
  {
    if text == "" then []
    else
      var n := Position(text, '\n');
      if n == |text| then [text] else [text[..n]] + Lines(text[n + 1..])
  }

  function Position(s: string, c: char): (n: nat)
    ensures n <= |s| && (n < |s| ==> s[n] == c)
    ensures forall i :: 0 <= i < n ==> s[i] != c
  {
    if s == "" || s[0] == c then 0 else 1 + Position(s[1..], c)
  }

  datatype Line = Comment | Binding(entry: Entry) | Malformed

  // `KEY="value"` split at its first equals sign, or a comment.
  function ReadLine(line: string): Line {
    if line != "" && line[0] == '#' then Comment
    else
      var n := Position(line, '=');
      if n + 2 > |line| || line[n + 1] != '"' then Malformed
      else
        match Unquote(line[n + 2..])
        case Some((value, "")) => Binding(Entry(line[..n], value))
        case _ => Malformed
  }

  // The text of a double-quoted value after its opening quote: its meaning, and what follows the closing quote.
  // A bare `$` would start a substitution, so it has no literal reading.
  function Unquote(s: string): Option<(string, string)>
    decreases |s|
  {
    if s == "" || s[0] == '$' then None
    else if s[0] == '"' then Some(("", s[1..]))
    else if s[0] == '\\' then
      if |s| < 2 || s[1] !in "\\\"$nr" then None
      else
        var c := if s[1] == 'n' then '\n' else if s[1] == 'r' then '\r' else s[1];
        Prepend(c, Unquote(s[2..]))
    else Prepend(s[0], Unquote(s[1..]))
  }

  function Prepend(c: char, r: Option<(string, string)>): Option<(string, string)> {
    match r
    case None => None
    case Some((value, rest)) => Some(([c] + value, rest))
  }

  function ReadLines(lines: seq<string>): Option<seq<Entry>> {
    if lines == [] then Some([])
    else
      match (ReadLine(lines[0]), ReadLines(lines[1..]))
      case (Malformed, _) => None
      case (_, None) => None
      case (Comment, Some(rest)) => Some(rest)
      case (Binding(e), Some(rest)) => Some([e] + rest)
  }

  function Read(text: string): Option<seq<Entry>> { ReadLines(Lines(text)) }

  // ----- Escaping is undone exactly -----

  lemma UnquoteStep(c: char, tail: string)
    ensures Unquote(EscapeChar(c) + tail) == Prepend(c, Unquote(tail))
  {
    assert (EscapeChar(c) + tail)[|EscapeChar(c)|..] == tail;
  }

  lemma {:induction false} UnquoteUndoesEscape(value: string, rest: string)
    ensures Unquote(Escape(value) + "\"" + rest) == Some((value, rest))
  {
    if value == "" {
      assert Escape(value) + "\"" + rest == "\"" + rest;
    } else {
      var head, tail := EscapeChar(value[0]), Escape(value[1..]) + "\"" + rest;
      assert Escape(value) + "\"" + rest == head + tail;
      UnquoteUndoesEscape(value[1..], rest);
      UnquoteStep(value[0], tail);
      assert [value[0]] + value[1..] == value;
    }
  }

  lemma {:induction false} EscapedStaysOnItsLine(value: string)
    ensures '\n' !in Escape(value) && '\r' !in Escape(value)
  {
    if value != "" { EscapedStaysOnItsLine(value[1..]); }
  }

  // Exactly which keys a written line gives back, whatever the value.
  lemma LineReadsBackExactlyWhen(e: Entry)
    ensures ReadLine(EntryLine(e)) == Binding(e) <==> '=' !in e.key && (e.key == "" || e.key[0] != '#')
  {
    var line, k := EntryLine(e), e.key;
    assert line[..|k|] == k && line[|k|] == '=' && line[|k| + 1] == '"';
    if k != "" { assert line[0] == k[0]; }
    if '=' !in k {
      assert Position(line, '=') == |k|;
      assert line[|k| + 2..] == Escape(e.value) + "\"" + "";
      UnquoteUndoesEscape(e.value, "");
    } else {
      var n := Position(line, '=');
      var i :| 0 <= i < |k| && k[i] == '=';
      assert line[i] == '=';
      assert |line[..n]| < |k|;
    }
  }

  lemma ValidKeyReadsBack(e: Entry)
    requires ValidKey(e.key)
    ensures ReadLine(EntryLine(e)) == Binding(e)
    ensures '\n' !in EntryLine(e)
  {
    LineReadsBackExactlyWhen(e);
    EscapedStaysOnItsLine(e.value);
  }

  // ----- The whole file -----

  lemma FirstLine(text: string, line: string, rest: string)
    requires text == line + "\n" + rest && '\n' !in line
    ensures Lines(text) == [line] + Lines(rest)
  {
    assert text[|line|] == '\n' && forall i :: 0 <= i < |line| ==> text[i] == line[i] && line[i] in line;
    assert Position(text, '\n') == |line|;
    assert text[..|line|] == line && text[|line| + 1..] == rest;
  }

  lemma {:induction false} LinesOfUnlines(lines: seq<string>)
    requires forall i :: 0 <= i < |lines| ==> '\n' !in lines[i]
    ensures Lines(Unlines(lines)) == lines
  {
    if lines != [] {
      LinesOfUnlines(lines[1..]);
      FirstLine(Unlines(lines), lines[0], Unlines(lines[1..]));
    }
  }

  lemma {:induction false} EntryLinesReadBack(entries: seq<Entry>)
    requires forall i :: 0 <= i < |entries| ==> ValidKey(entries[i].key)
    ensures |EntryLines(entries)| == |entries|
    ensures forall i :: 0 <= i < |entries| ==> '\n' !in EntryLines(entries)[i]
    ensures ReadLines(EntryLines(entries)) == Some(entries)
  {
    if entries != [] {
      ValidKeyReadsBack(entries[0]);
      EntryLinesReadBack(entries[1..]);
      assert EntryLines(entries)[1..] == EntryLines(entries[1..]);
      assert [entries[0]] + entries[1..] == entries;
    }
  }

  /** The file under some header lines; the node writes two comments. */
  ghost function Rendered(header: seq<string>, entries: seq<Entry>): string { Unlines(header + EntryLines(entries)) }

  ghost predicate AreComments(header: seq<string>) {
    forall i :: 0 <= i < |header| ==> '\n' !in header[i] && ReadLine(header[i]) == Comment
  }

  lemma {:induction false} CommentsAreSkipped(header: seq<string>, lines: seq<string>)
    requires AreComments(header)
    ensures ReadLines(header + lines) == ReadLines(lines)
  {
    if header == [] {
      assert header + lines == lines;
    } else {
      assert (header + lines)[1..] == header[1..] + lines;
      CommentsAreSkipped(header[1..], lines);
    }
  }

  /** The file holds the header and then one line for each entry, and reads back as the entries. */
  lemma RenderedReadsBack(header: seq<string>, entries: seq<Entry>)
    requires AreComments(header) && forall i :: 0 <= i < |entries| ==> ValidKey(entries[i].key)
    ensures Read(Rendered(header, entries)) == Some(entries)
    ensures |Lines(Rendered(header, entries))| == |header| + |entries|
    ensures forall i :: 0 <= i < |entries| ==>
              && Lines(Rendered(header, entries))[|header| + i]
                 == entries[i].key + "=\"" + Escape(entries[i].value) + "\""
              && ReadLine(Lines(Rendered(header, entries))[|header| + i]) == Binding(entries[i])
  {
    var lines := header + EntryLines(entries);
    EntryLinesReadBack(entries);
    LinesOfUnlines(lines);
    CommentsAreSkipped(header, EntryLines(entries));
    forall i | 0 <= i < |entries|
      ensures lines[|header| + i] == EntryLine(entries[i]) && ReadLine(lines[|header| + i]) == Binding(entries[i])
    {
      EntryLineAt(entries, i);
      ValidKeyReadsBack(entries[i]);
    }
  }

  lemma {:induction false} EntryLineAt(entries: seq<Entry>, i: nat)
    requires i < |entries|
    ensures |EntryLines(entries)| == |entries| && EntryLines(entries)[i] == EntryLine(entries[i])
    decreases |entries|
  {
    if i > 0 { EntryLineAt(entries[1..], i - 1); }
    else if |entries| > 1 { EntryLineAt(entries[1..], 0); }
  }

  // Two environments never share a file.
  lemma RenderedIsInjective(header: seq<string>, a: seq<Entry>, b: seq<Entry>)
    requires AreComments(header) && Rendered(header, a) == Rendered(header, b)
    requires forall i :: 0 <= i < |a| ==> ValidKey(a[i].key)
    requires forall i :: 0 <= i < |b| ==> ValidKey(b[i].key)
    ensures a == b
  {
    RenderedReadsBack(header, a);
    RenderedReadsBack(header, b);
  }

  lemma {:induction false} UnlinesSnoc(lines: seq<string>, line: string)
    ensures Unlines(lines + [line]) == Unlines(lines) + line + "\n"
  {
    if lines == [] {
      assert [] + [line] == [line];
    } else {
      assert (lines + [line])[1..] == lines[1..] + [line];
      UnlinesSnoc(lines[1..], line);
    }
  }

  lemma {:induction false} EntryLinesSnoc(entries: seq<Entry>, e: Entry)
    ensures EntryLines(entries + [e]) == EntryLines(entries) + [EntryLine(e)]
  {
    if entries == [] {
      assert [] + [e] == [e];
    } else {
      assert (entries + [e])[1..] == entries[1..] + [e];
      EntryLinesSnoc(entries[1..], e);
    }
  }

  // The rendering loop: the header, then one append for each entry.
  method Render(header: seq<string>, entries: seq<Entry>) returns (contents: string)
    requires |header| == 2
    ensures contents == Rendered(header, entries)
    ensures AreComments(header) && (forall i :: 0 <= i < |entries| ==> ValidKey(entries[i].key))
            ==> Read(contents) == Some(entries)
  {
    contents := header[0] + "\n" + header[1] + "\n";
    assert header == [header[0]] + [header[1]];
    UnlinesSnoc([header[0]], header[1]);
    assert header + EntryLines([]) == header;
    for i := 0 to |entries|
      invariant contents == Rendered(header, entries[..i])
    {
      var e := entries[i];
      EntryLinesSnoc(entries[..i], e);
      assert entries[..i + 1] == entries[..i] + [e];
      assert header + EntryLines(entries[..i + 1]) == (header + EntryLines(entries[..i])) + [EntryLine(e)];
      UnlinesSnoc(header + EntryLines(entries[..i]), EntryLine(e));
      contents := contents + (e.key + "=\"" + Escape(e.value) + "\"\n");
    }
    assert entries[..|entries|] == entries;
    if AreComments(header) && forall i :: 0 <= i < |entries| ==> ValidKey(entries[i].key) {
      RenderedReadsBack(header, entries);
    }
  }
}
