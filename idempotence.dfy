/** Running the cleaner on its own output changes nothing: the lines it keeps
    are never candidates, and the blank-line collapse only rewrites
    whitespace, so it cannot create a line that starts with `console.log(`. */
module Idempotence {
  import opened Text
  import opened Lexer
  import opened BlankLines
  import opened Cleaner

  /** Whether the text read so far on the current line is whitespace only,
      after reading `c`. */
  function NextIndent(atIndent: bool, c: char): bool
  {
    c == '\n' || (atIndent && IsWs(c))
  }

  /** No line of `s` has `console.log(` right after its leading whitespace;
      `atIndent` says whether the text before `s` on its first line is
      whitespace only. */
  predicate NoStatementStart(s: string, atIndent: bool)
    decreases |s|
  {
    s == [] ||
    (!(atIndent && StartsWith(s, Opener)) && NoStatementStart(s[1..], NextIndent(atIndent, s[0])))
  }

  /** A line is a candidate exactly when `console.log(` follows its leading
      whitespace: trimming the end cannot matter, as the opener ends in `(`. */
  lemma CandidateByLeadingWs(l: string)
    ensures IsCandidate(l) <==> StartsWith(TrimStart(l), Opener)
  {
    TrimEndKeepsPrefix(TrimStart(l), Opener);
  }

  /** The opener holds no newline, so whether it starts a line is decided
      within that line. */
  lemma OpenerWithinLine(l: string, rest: string)
    requires '\n' !in l
    requires rest == [] || rest[0] == '\n'
    ensures StartsWith(l + rest, Opener) <==> StartsWith(l, Opener)
  {
    if |l| < |Opener| && rest != [] {
      assert (l + rest)[|l|] == '\n' != Opener[|l|];
    }
    if StartsWith(l, Opener) {
      assert (l + rest)[..|Opener|] == l[..|Opener|];
    }
  }

  /** Reading one line of text followed by a newline or by nothing. */
  lemma {:induction false} NoStartInLine(l: string, rest: string, b: bool)
    requires '\n' !in l
    requires rest == [] || rest[0] == '\n'
    ensures NoStatementStart(l + rest, b) <==>
      (b ==> !StartsWith(TrimStart(l), Opener)) && NoStatementStart(rest, b && AllWs(l))
    decreases |l|
  {
    if l == [] {
      assert l + rest == rest;
    } else {
      assert (l + rest)[1..] == l[1..] + rest;
      NoStartInLine(l[1..], rest, NextIndent(b, l[0]));
      if IsWs(l[0]) {
        assert (l + rest)[0] != Opener[0];
        assert AllWs(l) == AllWs(l[1..]);
      } else {
        OpenerWithinLine(l, rest);
      }
    }
  }

  /** Whitespace never starts a statement; it only moves to a new line. */
  lemma {:induction false} NoStartOverWs(w: string, t: string, b: bool)
    requires AllWs(w)
    ensures NoStatementStart(w + t, b) <==> NoStatementStart(t, b || '\n' in w)
    decreases |w|
  {
    if w == [] {
      assert w + t == t;
    } else {
      assert (w + t)[1..] == w[1..] + t;
      assert (w + t)[0] != Opener[0];
      assert w == [w[0]] + w[1..];
      NoStartOverWs(w[1..], t, NextIndent(b, w[0]));
    }
  }

  /** Joined lines hold no statement start exactly when none of the lines is
      a candidate. */
  lemma {:induction false} NoStartInJoin(ls: seq<string>)
    requires forall l <- ls :: '\n' !in l
    ensures NoStatementStart(Join(ls), true) <==> forall l <- ls :: !IsCandidate(l)
    decreases |ls|
  {
    if |ls| == 1 {
      CandidateByLeadingWs(ls[0]);
      NoStartInLine(ls[0], [], true);
      assert ls[0] + [] == ls[0];
    } else if |ls| > 1 {
      var rest := "\n" + Join(ls[1..]);
      assert Join(ls) == ls[0] + rest;
      CandidateByLeadingWs(ls[0]);
      NoStartInLine(ls[0], rest, true);
      assert rest[1..] == Join(ls[1..]);
      NoStartInJoin(ls[1..]);
      assert forall l <- ls :: l == ls[0] || l in ls[1..];
    }
  }

  /** The collapse never creates a statement start. */
  lemma {:induction false} CollapseKeepsNoStart(s: string, b: bool)
    requires NoStatementStart(s, b)
    ensures NoStatementStart(Collapse(s), b)
    decreases |s|
  {
    if s != [] {
      if !IsWs(s[0]) {
        var c := Collapse(s);
        assert c[1..] == Collapse(s[1..]);
        if b && StartsWith(c, Opener) {
          CollapseKeepsTextPrefix(s, Opener);
        }
        CollapseKeepsNoStart(s[1..], NextIndent(b, s[0]));
      } else {
        var n := WsRunLength(s);
        var w := s[..n];
        assert s == w + s[n..];
        NoStartOverWs(w, s[n..], b);
        CollapseKeepsNoStart(s[n..], b || '\n' in w);
        NoStartOverWs(CollapseRun(w), Collapse(s[n..]), b);
      }
    }
  }

  /** A second run of the cleaner returns its input unchanged. */
  lemma CleanedIsIdempotent(content: string)
    ensures Cleaned(Cleaned(content)) == Cleaned(content)
  {
    var lines := Split(content);
    var kept := Kept(lines);
    KeptLinesAreInputLines(lines);
    NoStartInJoin(kept);
    var out := Collapse(Join(kept));
    CollapseKeepsNoStart(Join(kept), true);
    NoStartInJoin(Split(out));
    CleanedWithoutCandidates(out);
    CollapseIsIdempotent(Join(kept));
  }
}
