/** The character-level scanner that finds where a `console.log(` statement
    ends: a parenthesis counter that skips string literals, template literal
    text and escaped characters, while counting inside `${...}` slots. */
module Lexer {
  import opened Text

  /** The five variables the scanner keeps while it reads one statement.
      `stringChar` is the delimiter of the open string (`None` stands for the
      empty string the source stores when no string is open). */
  datatype ScanState = ScanState(
    parenCount: int,
    inString: bool,
    stringChar: Option<char>,
    inTemplate: bool,
    templateDepth: int)

  /** The text that opens a statement the cleaner removes. */
  const Opener := "console.log("

  /** The state each candidate statement starts from. */
  const Init := ScanState(0, false, None, false, 0)

  /** What every state reachable from `Init` satisfies: a string and a
      template are never open together, the delimiter is a quote exactly
      while a string is open, and the slot depth is never negative and is 0
      outside a template. */
  predicate Wf(st: ScanState)
  {
    st.templateDepth >= 0 &&
    (st.inString <==> st.stringChar.Some?) &&
    (st.stringChar == None || st.stringChar == Some('"') || st.stringChar == Some('\'')) &&
    !(st.inString && st.inTemplate) &&
    (!st.inTemplate ==> st.templateDepth == 0)
  }

  /** One character of the scan: the if/else-if chain of the source, with
      `prev` the raw previous character of the same line (`None` at column 0). */
  function Step(st: ScanState, prev: Option<char>, c: char): (r: ScanState)
    ensures Wf(st) ==> Wf(r)
  {
    if prev == Some('\\') && (st.inString || st.inTemplate) then st
    else if !st.inString && !st.inTemplate && (c == '"' || c == '\'') then
      st.(inString := true, stringChar := Some(c))
    else if st.inString && Some(c) == st.stringChar then
      st.(inString := false, stringChar := None)
    else if !st.inString && c == '`' then
      if st.inTemplate then st.(inTemplate := false, templateDepth := 0)
      else st.(inTemplate := true)
    else if st.inTemplate && prev == Some('$') && c == '{' then
      st.(templateDepth := st.templateDepth + 1)
    else if st.inTemplate && c == '}' && st.templateDepth > 0 then
      st.(templateDepth := st.templateDepth - 1)
    else if !st.inString && (!st.inTemplate || st.templateDepth > 0) then
      if c == '(' then st.(parenCount := st.parenCount + 1)
      else if c == ')' then st.(parenCount := st.parenCount - 1)
      else st
    else st
  }

  /** The character before column `k` of `line`, or `None` at column 0. */
  function PrevChar(line: string, k: nat): Option<char>
    requires k <= |line|
  {
    if k > 0 then Some(line[k - 1]) else None
  }

  /** The state after the first `k` characters of `line`, starting from `st`. */
  function AfterChars(st: ScanState, line: string, k: nat): ScanState
    requires k <= |line|
  {
    if k == 0 then st
    else Step(AfterChars(st, line, k - 1), PrevChar(line, k - 1), line[k - 1])
  }

  /** The state after a whole line. */
  function LineScan(st: ScanState, line: string): ScanState
  {
    AfterChars(st, line, |line|)
  }

  /** The state after a sequence of lines, each scanned from column 0: the
      state carries over from line to line, the previous character does not. */
  function AfterLines(st: ScanState, ls: seq<string>): ScanState
    decreases |ls|
  {
    if ls == [] then st else LineScan(AfterLines(st, ls[..|ls| - 1]), ls[|ls| - 1])
  }

  /** The character loop of the source, run over one line. */
  method ScanLine(st: ScanState, line: string) returns (r: ScanState)
    ensures r == LineScan(st, line)
  {
    r := st;
    for k := 0 to |line|
      invariant r == AfterChars(st, line, k)
    {
      r := Step(r, PrevChar(line, k), line[k]);
    }
  }

  // ----- The invariant is kept over whole lines and statements -----

  lemma {:induction false} AfterCharsKeepsWf(st: ScanState, line: string, k: nat)
    requires k <= |line| && Wf(st)
    ensures Wf(AfterChars(st, line, k))
  {
    if k > 0 {
      AfterCharsKeepsWf(st, line, k - 1);
    }
  }

  lemma {:induction false} AfterLinesKeepsWf(st: ScanState, ls: seq<string>)
    requires Wf(st)
    ensures Wf(AfterLines(st, ls))
    ensures AfterLines(st, ls).templateDepth >= 0
    decreases |ls|
  {
    if ls != [] {
      AfterLinesKeepsWf(st, ls[..|ls| - 1]);
      AfterCharsKeepsWf(AfterLines(st, ls[..|ls| - 1]), ls[|ls| - 1], |ls[|ls| - 1]|);
    }
  }

  // ----- What one step does -----

  /** Whether a parenthesis read now is code rather than text: not in a
      string, and either outside a template or inside one of its `${...}`
      slots without a backslash just before it. */
  predicate ParenIsLive(st: ScanState, prev: Option<char>)
  {
    !st.inString && (!st.inTemplate || (st.templateDepth > 0 && prev != Some('\\')))
  }

  /** The paren count moves by exactly one on a live `(` or `)`, and on
      nothing else: parentheses in strings and in template text are opaque. */
  lemma ParenCountMovesOnlyOnLiveParens(st: ScanState, prev: Option<char>, c: char)
    requires Wf(st)
    ensures Step(st, prev, c).parenCount ==
      st.parenCount +
      (if ParenIsLive(st, prev) && c == '(' then 1
       else if ParenIsLive(st, prev) && c == ')' then -1
       else 0)
  {
  }

  /** Inside a string the only thing any character can do is close the
      string with the delimiter that opened it; a backtick or brace there is
      plain text. */
  lemma StringIsOpaque(st: ScanState, prev: Option<char>, c: char)
    requires Wf(st) && st.inString
    ensures Step(st, prev, c) == st ||
      (Some(c) == st.stringChar && prev != Some('\\') &&
       Step(st, prev, c) == st.(inString := false, stringChar := None))
  {
  }

  /** A character right after a backslash inside a string or template does
      nothing at all, whatever it is. */
  lemma EscapedCharIsInert(st: ScanState, c: char)
    requires st.inString || st.inTemplate
    ensures Step(st, Some('\\'), c) == st
  {
  }

  /** A quote never opens a string inside a template, not even inside a
      `${...}` slot. */
  lemma QuoteInTemplateIsText(st: ScanState, prev: Option<char>, c: char)
    requires Wf(st) && st.inTemplate
    ensures !Step(st, prev, c).inString
  {
  }

  /** In code, a quote opens a string delimited by that same quote. */
  lemma CodeQuoteOpensString(st: ScanState, prev: Option<char>, c: char)
    requires !st.inString && !st.inTemplate && (c == '"' || c == '\'')
    ensures Step(st, prev, c) == st.(inString := true, stringChar := Some(c))
  {
  }

  /** Outside strings and templates, a backtick opens a template. */
  lemma BacktickOpensTemplate(st: ScanState, prev: Option<char>)
    requires !st.inString && !st.inTemplate
    ensures Step(st, prev, '`') == st.(inTemplate := true)
  {
  }

  /** The scan of every candidate starts from a well-formed state with
      nothing open and a count of 0. */
  lemma InitIsWf()
    ensures Wf(Init)
    ensures Init.parenCount == 0 && !Init.inString && !Init.inTemplate
  {
  }

  /** An unescaped backtick closes the template even from inside a slot, and
      the slot depth drops back to 0. */
  lemma BacktickClosesTemplate(st: ScanState, prev: Option<char>)
    requires Wf(st) && st.inTemplate && prev != Some('\\')
    ensures Step(st, prev, '`') == st.(inTemplate := false, templateDepth := 0)
  {
  }

  /** `${` opens a slot; any unescaped `}` in a template leaves one while the
      depth is positive, and otherwise the depth stays put. */
  lemma SlotDepthTracksBraces(st: ScanState, prev: Option<char>, c: char)
    requires Wf(st) && st.inTemplate && prev != Some('\\')
    ensures c == '{' && prev == Some('$') ==>
      Step(st, prev, c) == st.(templateDepth := st.templateDepth + 1)
    ensures c == '}' && st.templateDepth > 0 ==>
      Step(st, prev, c) == st.(templateDepth := st.templateDepth - 1)
    ensures c == '}' && st.templateDepth == 0 ==> Step(st, prev, c) == st
  {
  }

  // ----- What a run of characters does -----

  /** Once a string is open, characters other than its delimiter leave the
      whole state unchanged, however many of them there are. */
  lemma {:induction false} StringBodyIsOpaque(st: ScanState, line: string, a: nat, b: nat)
    requires a <= b <= |line|
    requires Wf(AfterChars(st, line, a)) && AfterChars(st, line, a).inString
    requires forall m :: a <= m < b ==> Some(line[m]) != AfterChars(st, line, a).stringChar
    ensures AfterChars(st, line, b) == AfterChars(st, line, a)
    decreases b
  {
    if b > a {
      StringBodyIsOpaque(st, line, a, b - 1);
    }
  }

  /** Outside strings and templates, characters other than quotes, backticks
      and parentheses leave the state unchanged. */
  lemma {:induction false} CodeTextIsInert(st: ScanState, line: string, a: nat, b: nat)
    requires a <= b <= |line|
    requires var s := AfterChars(st, line, a); !s.inString && !s.inTemplate
    requires forall m :: a <= m < b ==> line[m] !in "\"'`()"
    ensures AfterChars(st, line, b) == AfterChars(st, line, a)
    decreases b
  {
    if b > a {
      CodeTextIsInert(st, line, a, b - 1);
    }
  }

  /** Characters other than quotes, backticks, parentheses and braces leave
      the state unchanged in every mode, escaped or not. */
  lemma {:induction false} PlainTextIsInert(st: ScanState, line: string, a: nat, b: nat)
    requires a <= b <= |line| && Wf(AfterChars(st, line, a))
    requires forall m :: a <= m < b ==> line[m] !in "\"'`(){}"
    ensures AfterChars(st, line, b) == AfterChars(st, line, a)
    decreases b
  {
    if b > a {
      PlainTextIsInert(st, line, a, b - 1);
    }
  }

  /** The scan of a prefix of a line does not depend on what follows it. */
  lemma {:induction false} AfterCharsOfPrefix(st: ScanState, x: string, y: string, k: nat)
    requires k <= |x|
    ensures AfterChars(st, x + y, k) == AfterChars(st, x, k)
  {
    if k > 0 {
      AfterCharsOfPrefix(st, x, y, k - 1);
    }
  }

  /** A backslash at the end of a line escapes nothing on the next line: the
      delimiter that the backslash would hide on the same line closes the
      string when it starts the next line. */
  lemma BackslashEscapesOnlyWithinLine(st: ScanState, l1: string, q: char)
    requires |l1| > 0 && l1[|l1| - 1] == '\\'
    requires LineScan(st, l1).inString && LineScan(st, l1).stringChar == Some(q)
    ensures LineScan(st, l1 + [q]).inString
    ensures !AfterLines(st, [l1, [q]]).inString
  {
    AfterCharsOfPrefix(st, l1, [q], |l1|);
    var s1 := LineScan(st, l1);
    assert [l1, [q]][..1] == [l1];
    assert AfterLines(st, [l1]) == s1 by {
      assert [l1][..0] == [];
    }
    assert AfterChars(s1, [q], 1) == Step(s1, None, q);
    assert AfterLines(st, [l1, [q]]) == LineScan(s1, [q]);
  }

  // ----- Worked lines -----

  /** Scanning the opener `console.log(` itself, from column 0, leaves one
      parenthesis open and nothing else. */
  lemma {:induction false} OpenerOpensOneParen(line: string)
    requires StartsWith(line, Opener)
    ensures AfterChars(Init, line, |Opener|) == Init.(parenCount := 1)
  {
    assert forall m :: 0 <= m < 11 ==> line[m] == Opener[m];
    CodeTextIsInert(Init, line, 0, 11);
    assert line[11] == '(';
  }

  /** A `)` inside a double-quoted string is not counted, so the statement
      balances on its own line. */
  lemma ParenInStringIsIgnored(line: string)
    requires line == "console.log(\"value)\")"
    ensures LineScan(Init, line).parenCount == 0
  {
    OpenerOpensOneParen(line);
    var open := Init.(parenCount := 1, inString := true, stringChar := Some('"'));
    assert line[12] == '"';
    assert AfterChars(Init, line, 13) == open;
    assert forall m :: 13 <= m < 19 ==> line[m] != '"';
    StringBodyIsOpaque(Init, line, 13, 19);
    assert line[19] == '"' && line[18] == ')';
    assert AfterChars(Init, line, 20) == Init.(parenCount := 1);
    assert line[20] == ')';
  }



}
