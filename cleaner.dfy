/** `cleanConsoleLog`: drop every statement that starts a line with
    `console.log(` together with the lines it spans, keep every other line
    verbatim, re-join, and collapse runs of blank lines. */
module Cleaner {
  import opened Text
  import opened Lexer
  import opened BlankLines

  /** A line whose trimmed text starts with `console.log(`. */
  predicate IsCandidate(line: string)
  {
    StartsWith(Trim(line), Opener)
  }

  // ----- Where a statement ends -----

  /** The inner `while` over `j`: line `j` is the next one to read and `st`
      the state so far; reading stops at the end of the input or once the
      paren count is no longer positive. The result is one past the last
      line of the statement. */
  function SpanEnd(lines: seq<string>, j: nat, st: ScanState): (e: nat)
    requires j <= |lines|
    ensures j <= e <= |lines|
    decreases |lines| - j
  {
    if j == |lines| || st.parenCount <= 0 then j
    else SpanEnd(lines, j + 1, LineScan(st, lines[j]))
  }

  /** One past the last line of the statement that starts at line `s`. */
  function StatementEnd(lines: seq<string>, s: nat): nat
    requires s < |lines|
  {
    SpanEnd(lines, s + 1, LineScan(Init, lines[s]))
  }

  /** The statement starting at line `s` closes just before line `e`: every
      shorter span leaves a parenthesis open, and the span up to `e` closes
      them all, unless it had to stop at the end of the input. */
  predicate ClosesAt(lines: seq<string>, s: nat, e: nat)
  {
    s < e <= |lines| &&
    (forall m :: s < m < e ==> AfterLines(Init, lines[s..m]).parenCount > 0) &&
    (e == |lines| || AfterLines(Init, lines[s..e]).parenCount <= 0)
  }

  lemma AfterLinesExtend(lines: seq<string>, s: nat, j: nat)
    requires s <= j < |lines|
    ensures AfterLines(Init, lines[s..j + 1]) == LineScan(AfterLines(Init, lines[s..j]), lines[j])
  {
    assert lines[s..j + 1][..j - s] == lines[s..j];
  }

  lemma {:induction false} SpanEndClosesAt(lines: seq<string>, s: nat, j: nat, st: ScanState)
    requires s < j <= |lines|
    requires st == AfterLines(Init, lines[s..j])
    requires forall m :: s < m < j ==> AfterLines(Init, lines[s..m]).parenCount > 0
    ensures ClosesAt(lines, s, SpanEnd(lines, j, st))
    decreases |lines| - j
  {
    if j < |lines| && st.parenCount > 0 {
      AfterLinesExtend(lines, s, j);
      SpanEndClosesAt(lines, s, j + 1, LineScan(st, lines[j]));
    }
  }

  /** The span the source removes is the shortest one that closes. */
  lemma StatementEndClosesAt(lines: seq<string>, s: nat)
    requires s < |lines|
    ensures ClosesAt(lines, s, StatementEnd(lines, s))
  {
    AfterLinesExtend(lines, s, s);
    assert lines[s..s] == [];
    SpanEndClosesAt(lines, s, s + 1, LineScan(Init, lines[s]));
  }

  /** At most one line closes a statement. */
  lemma ClosesAtIsUnique(lines: seq<string>, s: nat, e1: nat, e2: nat)
    requires ClosesAt(lines, s, e1) && ClosesAt(lines, s, e2)
    ensures e1 == e2
  {
  }

  /** A statement is one line long exactly when its first line leaves no
      parenthesis open, or it is the last line. */
  lemma SingleLineStatement(lines: seq<string>, s: nat)
    requires s < |lines|
    ensures StatementEnd(lines, s) == s + 1 <==>
      (LineScan(Init, lines[s]).parenCount <= 0 || s + 1 == |lines|)
  {
  }

  // ----- Which lines are kept -----

  /** A stretch of the input: one line that is kept, or the lines
      `start .. end - 1` of a removed statement. */
  datatype Block = Keep(line: nat) | Drop(start: nat, end: nat)
  {
    function Start(): nat
    {
      match this
      case Keep(k) => k
      case Drop(a, _) => a
    }

    function End(): nat
    {
      match this
      case Keep(k) => k + 1
      case Drop(_, e) => e
    }
  }

  /** The outer `while` over `i`, as the blocks it walks through from line
      `i` on. */
  function Segment(lines: seq<string>, i: nat): (bs: seq<Block>)
    requires i <= |lines|
    ensures forall b <- bs :: i <= b.Start() < b.End() <= |lines|
    decreases |lines| - i
  {
    if i == |lines| then []
    else if IsCandidate(lines[i]) then
      var e := StatementEnd(lines, i);
      [Drop(i, e)] + Segment(lines, e)
    else [Keep(i)] + Segment(lines, i + 1)
  }

  predicate BlockFits(lines: seq<string>, b: Block)
  {
    match b
    case Keep(k) => k < |lines| && !IsCandidate(lines[k])
    case Drop(a, e) => a < |lines| && IsCandidate(lines[a]) && ClosesAt(lines, a, e)
  }

  /** `bs` cuts lines `i ..` of the input into consecutive blocks: kept lines
      that are not candidates, and removed statements that start at a
      candidate and end where their parentheses close. */
  predicate TilesFrom(lines: seq<string>, i: nat, bs: seq<Block>)
  {
    (forall b <- bs :: BlockFits(lines, b)) &&
    (forall k :: 0 < k < |bs| ==> bs[k - 1].End() == bs[k].Start()) &&
    (if bs == [] then i == |lines| else bs[0].Start() == i && bs[|bs| - 1].End() == |lines|)
  }

  lemma TilesCons(lines: seq<string>, i: nat, b: Block, bs: seq<Block>)
    requires BlockFits(lines, b) && b.Start() == i && TilesFrom(lines, b.End(), bs)
    ensures TilesFrom(lines, i, [b] + bs)
  {
    var r := [b] + bs;
    assert forall x <- r :: x == b || x in bs;
    forall k | 0 < k < |r|
      ensures r[k - 1].End() == r[k].Start()
    {
      if k > 1 {
        assert r[k - 1] == bs[k - 2] && r[k] == bs[k - 1];
      }
    }
    assert r[|r| - 1].End() == |lines| by {
      if bs != [] {
        assert r[|r| - 1] == bs[|bs| - 1];
      }
    }
  }

  lemma TilesTail(lines: seq<string>, i: nat, bs: seq<Block>)
    requires TilesFrom(lines, i, bs) && bs != []
    ensures TilesFrom(lines, bs[0].End(), bs[1..])
  {
    var t := bs[1..];
    assert forall x <- t :: x in bs;
    forall k | 0 < k < |t|
      ensures t[k - 1].End() == t[k].Start()
    {
      assert t[k - 1] == bs[k] && t[k] == bs[k + 1];
    }
    if t != [] {
      assert bs[1 - 1].End() == bs[1].Start();
    }
  }

  /** The blocks the source walks through tile the whole input. */
  lemma {:induction false} SegmentTiles(lines: seq<string>, i: nat)
    requires i <= |lines|
    ensures TilesFrom(lines, i, Segment(lines, i))
    decreases |lines| - i
  {
    if i < |lines| {
      if IsCandidate(lines[i]) {
        var e := StatementEnd(lines, i);
        StatementEndClosesAt(lines, i);
        SegmentTiles(lines, e);
        TilesCons(lines, i, Drop(i, e), Segment(lines, e));
      } else {
        SegmentTiles(lines, i + 1);
        TilesCons(lines, i, Keep(i), Segment(lines, i + 1));
      }
    }
  }

  /** A tiling is empty exactly when it starts at the end of the input. */
  lemma TilesEmpty(lines: seq<string>, i: nat, bs: seq<Block>)
    requires TilesFrom(lines, i, bs)
    ensures bs == [] <==> i == |lines|
  {
    if bs != [] {
      assert BlockFits(lines, bs[0]);
    }
  }

  /** There is only one such tiling, so the one the source follows is
      determined by the candidates and the closing lines alone. */
  lemma {:induction false} TilingIsUnique(lines: seq<string>, i: nat, b1: seq<Block>, b2: seq<Block>)
    requires TilesFrom(lines, i, b1) && TilesFrom(lines, i, b2)
    ensures b1 == b2
    decreases |b1|
  {
    TilesEmpty(lines, i, b1);
    TilesEmpty(lines, i, b2);
    if b1 != [] {
      assert BlockFits(lines, b1[0]) && BlockFits(lines, b2[0]);
      if b1[0].Drop? && b2[0].Drop? {
        ClosesAtIsUnique(lines, i, b1[0].end, b2[0].end);
      }
      assert b1[0] == b2[0];
      TilesTail(lines, i, b1);
      TilesTail(lines, i, b2);
      TilingIsUnique(lines, b1[0].End(), b1[1..], b2[1..]);
      assert b1 == [b1[0]] + b1[1..] && b2 == [b2[0]] + b2[1..];
    }
  }

  /** Indices of the kept lines, in block order. */
  function KeptIndices(bs: seq<Block>): seq<nat>
  {
    if bs == [] then []
    else (if bs[0].Keep? then [bs[0].line] else []) + KeptIndices(bs[1..])
  }

  /** The kept lines themselves. */
  function KeptLines(lines: seq<string>, bs: seq<Block>): seq<string>
    requires forall b <- bs :: b.Keep? ==> b.line < |lines|
  {
    if bs == [] then []
    else (if bs[0].Keep? then [lines[bs[0].line]] else []) + KeptLines(lines, bs[1..])
  }

  /** The kept line numbers of a tiling from `i` increase strictly, lie in
      `i .. |lines| - 1`, and name lines that are not candidates. */
  lemma {:induction false} KeptIndicesIncrease(lines: seq<string>, i: nat, bs: seq<Block>)
    requires TilesFrom(lines, i, bs)
    ensures forall m :: 0 <= m < |KeptIndices(bs)| ==>
      i <= KeptIndices(bs)[m] < |lines| && !IsCandidate(lines[KeptIndices(bs)[m]])
    ensures forall m, n :: 0 <= m < n < |KeptIndices(bs)| ==> KeptIndices(bs)[m] < KeptIndices(bs)[n]
    decreases |bs|
  {
    if bs != [] {
      var b := bs[0];
      assert BlockFits(lines, b);
      TilesTail(lines, i, bs);
      KeptIndicesIncrease(lines, b.End(), bs[1..]);
      var t := KeptIndices(bs[1..]);
      if b.Keep? {
        var ks := KeptIndices(bs);
        assert ks == [b.line] + t;
        forall m | 0 <= m < |ks|
          ensures i <= ks[m] < |lines| && !IsCandidate(lines[ks[m]])
        {
          if m > 0 {
            assert ks[m] == t[m - 1];
          }
        }
        forall m, n | 0 <= m < n < |ks|
          ensures ks[m] < ks[n]
        {
          assert ks[n] == t[n - 1];
          if m > 0 {
            assert ks[m] == t[m - 1];
          }
        }
      } else {
        assert KeptIndices(bs) == [] + t;
      }
    }
  }

  /** The kept lines are the lines at the kept line numbers. */
  lemma {:induction false} KeptLinesAtIndices(lines: seq<string>, bs: seq<Block>)
    requires forall b <- bs :: b.Keep? ==> b.line < |lines|
    ensures |KeptLines(lines, bs)| == |KeptIndices(bs)|
    ensures forall m :: 0 <= m < |KeptIndices(bs)| ==>
      KeptIndices(bs)[m] < |lines| && KeptLines(lines, bs)[m] == lines[KeptIndices(bs)[m]]
    decreases |bs|
  {
    if bs != [] {
      assert forall b <- bs[1..] :: b in bs;
      KeptLinesAtIndices(lines, bs[1..]);
      var ks, ls := KeptIndices(bs), KeptLines(lines, bs);
      var t, u := KeptIndices(bs[1..]), KeptLines(lines, bs[1..]);
      if bs[0].Keep? {
        assert ks == [bs[0].line] + t && ls == [lines[bs[0].line]] + u;
        forall m | 0 <= m < |ks|
          ensures ks[m] < |lines| && ls[m] == lines[ks[m]]
        {
          if m > 0 {
            assert ks[m] == t[m - 1] && ls[m] == u[m - 1];
          }
        }
      } else {
        assert ks == [] + t && ls == [] + u;
      }
    }
  }

  /** Kept lines are input lines, verbatim and in their original order, none
      of them a candidate. */
  lemma KeptLinesInOrder(lines: seq<string>, i: nat, bs: seq<Block>)
    requires TilesFrom(lines, i, bs)
    ensures forall b <- bs :: b.Keep? ==> b.line < |lines|
    ensures |KeptLines(lines, bs)| == |KeptIndices(bs)|
    ensures forall m :: 0 <= m < |KeptIndices(bs)| ==>
      i <= KeptIndices(bs)[m] < |lines| &&
      KeptLines(lines, bs)[m] == lines[KeptIndices(bs)[m]] &&
      !IsCandidate(lines[KeptIndices(bs)[m]])
    ensures forall m, n :: 0 <= m < n < |KeptIndices(bs)| ==> KeptIndices(bs)[m] < KeptIndices(bs)[n]
  {
    assert forall b <- bs :: BlockFits(lines, b);
    KeptIndicesIncrease(lines, i, bs);
    KeptLinesAtIndices(lines, bs);
  }

  /** Every line the filter keeps is a line of the input, and none of them
      is a candidate. */
  lemma KeptLinesAreInputLines(lines: seq<string>)
    ensures forall l <- Kept(lines) :: l in lines && !IsCandidate(l)
  {
    SegmentTiles(lines, 0);
    KeptLinesInOrder(lines, 0, Segment(lines, 0));
    forall l | l in Kept(lines)
      ensures l in lines && !IsCandidate(l)
    {
      var m :| 0 <= m < |Kept(lines)| && Kept(lines)[m] == l;
    }
  }

  /** When no line from `i` on is a candidate, every one of them is kept. */
  lemma {:induction false} NoCandidateKeepsAll(lines: seq<string>, i: nat)
    requires i <= |lines|
    requires forall k :: i <= k < |lines| ==> !IsCandidate(lines[k])
    ensures KeptLines(lines, Segment(lines, i)) == lines[i..]
    decreases |lines| - i
  {
    if i < |lines| {
      NoCandidateKeepsAll(lines, i + 1);
      assert lines[i..] == [lines[i]] + lines[i + 1..];
    }
  }

  // ----- The whole filter -----

  /** The lines kept from `lines`. */
  function Kept(lines: seq<string>): seq<string>
  {
    KeptLines(lines, Segment(lines, 0))
  }

  /** What `cleanConsoleLog(content)` returns. */
  function Cleaned(content: string): string
  {
    Collapse(Join(Kept(Split(content))))
  }

  /** One turn of the outer loop, on the specification side: a candidate
      line skips its whole statement, any other line is kept. */
  lemma KeptFromStep(lines: seq<string>, i: nat)
    requires i < |lines|
    ensures IsCandidate(lines[i]) ==>
      KeptLines(lines, Segment(lines, i)) == KeptLines(lines, Segment(lines, StatementEnd(lines, i)))
    ensures !IsCandidate(lines[i]) ==>
      KeptLines(lines, Segment(lines, i)) == [lines[i]] + KeptLines(lines, Segment(lines, i + 1))
  {
  }

  /** The scan of a candidate statement starting at line `i`: its first line
      alone, then, while a parenthesis is open, the lines after it. Returns
      the line where the outer loop resumes. */
  method SkipStatement(lines: seq<string>, i: nat) returns (j: nat)
    requires i < |lines|
    ensures j == StatementEnd(lines, i)
  {
    var st := ScanLine(Init, lines[i]);
    if st.parenCount == 0 {
      return i + 1;
    }
    j := i + 1;
    while j < |lines| && st.parenCount > 0
      invariant i + 1 <= j <= |lines|
      invariant SpanEnd(lines, j, st) == StatementEnd(lines, i)
      decreases |lines| - j
    {
      st := ScanLine(st, lines[j]);
      j := j + 1;
    }
  }

  /** `cleanConsoleLog`, loop for loop. */
  method CleanConsoleLog(content: string) returns (cleaned: string)
    ensures cleaned == Cleaned(content)
  {
    var lines := Split(content);
    var result: seq<string> := [];
    var i := 0;
    while i < |lines|
      invariant i <= |lines|
      invariant result + KeptLines(lines, Segment(lines, i)) == Kept(lines)
      decreases |lines| - i
    {
      var line := lines[i];
      KeptFromStep(lines, i);
      if IsCandidate(line) {
        i := SkipStatement(lines, i);
        continue;
      }
      result := result + [line];
      i := i + 1;
    }
    assert result == Kept(lines);
    cleaned := Collapse(Join(result));
  }

  /** Without a candidate line the text comes back with only its blank-line
      runs collapsed. */
  lemma CleanedWithoutCandidates(content: string)
    requires forall l <- Split(content) :: !IsCandidate(l)
    ensures Cleaned(content) == Collapse(content)
  {
    var lines := Split(content);
    NoCandidateKeepsAll(lines, 0);
    assert lines[0..] == lines;
  }
}
