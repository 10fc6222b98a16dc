/** Worked inputs: what the scanner and the filter do on a few concrete
    lines, including the quirks the cleaner has. */
module Scenarios {
  import opened Text
  import opened Lexer
  import opened BlankLines
  import opened Cleaner

  /** The call opens its template, where a `(` is text, and then a slot. */
  lemma TemplateSlotOpens(line: string)
    requires line == "console.log(`(${f()}`)"
    ensures AfterChars(Init, line, 16) == Init.(parenCount := 1, inTemplate := true, templateDepth := 1)
  {
    OpenerOpensOneParen(line);
    var t := Init.(parenCount := 1, inTemplate := true);
    assert line[12] == '`' && line[13] == '(' && line[14] == '$' && line[15] == '{';
    assert AfterChars(Init, line, 13) == t;
    assert AfterChars(Init, line, 15) == t;
  }

  /** A `(` in template text does not count, the parentheses inside a
      `${...}` slot do, and the closing backtick ends the template, so the
      call balances on its own line. */
  lemma TemplateSlotBalances(line: string)
    requires line == "console.log(`(${f()}`)"
    ensures LineScan(Init, line) == Init
  {
    TemplateSlotOpens(line);
    var t := Init.(parenCount := 1, inTemplate := true);
    assert line[16] == 'f' && line[17] == '(' && line[18] == ')' && line[19] == '}';
    assert AfterChars(Init, line, 18) == t.(templateDepth := 1, parenCount := 2);
    assert AfterChars(Init, line, 19) == t.(templateDepth := 1);
    assert AfterChars(Init, line, 20) == t;
    assert line[20] == '`' && line[21] == ')';
    assert AfterChars(Init, line, 21) == Init.(parenCount := 1);
  }

  /** The escape test looks only at the raw previous character, so in
      `"a\\"` the closing quote counts as escaped: the string stays open
      to the end of the line and the statement does not close. */
  lemma EscapedBackslashHidesQuote(line: string)
    requires line == "console.log(\"a\\\\\");"
    ensures LineScan(Init, line) == Init.(parenCount := 1, inString := true, stringChar := Some('"'))
  {
    OpenerOpensOneParen(line);
    var s := Init.(parenCount := 1, inString := true, stringChar := Some('"'));
    assert line[12] == '"' && line[13] == 'a' && line[14] == '\\' && line[15] == '\\';
    assert AfterChars(Init, line, 13) == s;
    assert AfterChars(Init, line, 14) == s;
    assert AfterChars(Init, line, 15) == s;
    assert AfterChars(Init, line, 16) == s;
    assert line[16] == '"' && line[17] == ')' && line[18] == ';';
    assert AfterChars(Init, line, 17) == s;
    assert AfterChars(Init, line, 19) == s;
  }

  /** Because of that, the statement runs on through the next line to the
      end of the input. */
  lemma EscapedBackslashSpansNextLine(lines: seq<string>)
    requires lines == ["console.log(\"a\\\\\");", "foo();"]
    ensures StatementEnd(lines, 0) == 2
  {
    EscapedBackslashHidesQuote(lines[0]);
    var s := Init.(parenCount := 1, inString := true, stringChar := Some('"'));
    assert forall m :: 0 <= m < 6 ==> Some(lines[1][m]) != s.stringChar;
    StringBodyIsOpaque(s, lines[1], 0, 6);
    assert LineScan(s, lines[1]) == s;
  }

  /** So the unrelated line after it is removed too, and nothing is kept. */
  lemma EscapedBackslashSwallowsNextLine(lines: seq<string>)
    requires lines == ["console.log(\"a\\\\\");", "foo();"]
    ensures Kept(lines) == []
  {
    EscapedBackslashSpansNextLine(lines);
    assert TrimStart(lines[0]) == lines[0] && TrimEnd(lines[0]) == lines[0];
    assert IsCandidate(lines[0]);
    assert Segment(lines, 0) == [Drop(0, 2)];
    assert [Drop(0, 2)][1..] == [];
    assert KeptLines(lines, [Drop(0, 2)]) == [] + KeptLines(lines, []);
  }

  /** A call whose parentheses close on the next line removes both lines,
      and scanning resumes with the line after them. */
  lemma MultiLineCallSpansTwoLines(lines: seq<string>)
    requires lines == ["console.log(", "  x);", "y();"]
    ensures StatementEnd(lines, 0) == 2
  {
    OpenerOpensOneParen(lines[0]);
    var open := Init.(parenCount := 1);
    assert LineScan(Init, lines[0]) == open;
    assert forall m :: 0 <= m < 3 ==> lines[1][m] !in "\"'`(){}";
    PlainTextIsInert(open, lines[1], 0, 3);
    assert lines[1][3] == ')' && lines[1][4] == ';';
    assert AfterChars(open, lines[1], 4) == Init;
    assert AfterChars(open, lines[1], 5) == Init;
    assert SpanEnd(lines, 2, Init) == 2;
  }

  /** Only the line after the call is kept. */
  lemma MultiLineCallKeepsRest(lines: seq<string>)
    requires lines == ["console.log(", "  x);", "y();"]
    ensures Kept(lines) == ["y();"]
  {
    MultiLineCallSpansTwoLines(lines);
    assert TrimStart(lines[0]) == lines[0] && TrimEnd(lines[0]) == lines[0];
    assert IsCandidate(lines[0]);
    assert TrimStart(lines[2]) == lines[2] && TrimEnd(lines[2]) == lines[2];
    assert !IsCandidate(lines[2]);
    assert Segment(lines, 3) == [];
    assert Segment(lines, 2) == [Keep(2)];
    assert Segment(lines, 0) == [Drop(0, 2), Keep(2)];
    assert [Drop(0, 2), Keep(2)][1..] == [Keep(2)];
    assert [Keep(2)][1..] == [];
    assert KeptLines(lines, [Keep(2)]) == [lines[2]] + KeptLines(lines, []);
  }

  /** A call that does not begin its line is not a candidate, so its line
      is kept. */
  lemma CallAfterCodeIsKept(line: string)
    requires line == "const x = console.log(1);"
    ensures !IsCandidate(line)
    ensures Kept([line]) == [line]
  {
    assert TrimStart(line) == line && TrimEnd(line) == line;
    assert line[4] != Opener[4];
    NoCandidateKeepsAll([line], 0);
    assert [line][0..] == [line];
  }

  /** A blank stretch with three newlines becomes exactly two newlines: the
      text from its first newline to its last is replaced, and the
      indentation after its last newline stays. */
  lemma BlankRunRewrites(w: string)
    requires w == "\n \n\n\t"
    ensures CollapseRun(w) == "\n\n\t"
  {
    assert w[4..] == "\t" && w[3..][1..] == w[4..] && w[2..][1..] == w[3..];
    assert w[1..][1..] == w[2..] && NewlineCount(w[4..]) == 0;
    assert NewlineCount(w[3..]) == 1 && NewlineCount(w[2..]) == 2;
    assert NewlineCount(w[1..]) == 2 && NewlineCount(w) == 3;
    assert FirstNewline(w) == 0;
    assert LastNewline(w) == 3;
  }

}
