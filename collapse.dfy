/** The post-pass `text.replace(/\n\s*\n\s*\n+/g, "\n\n")`.

    Every character the pattern can consume is whitespace, so a match lies
    inside one maximal run of whitespace. Scanning left to right, the first
    newline of a run starts a match exactly when the run holds three or more
    newlines, and the greedy `\s*` parts, after backtracking, make the match
    end at the run's last newline. So each maximal whitespace run with three
    or more newlines has the stretch from its first to its last newline
    replaced by two newlines; the whitespace before its first newline and
    after its last one stays, and every other character stays. */
module BlankLines {
  import opened Text

  function NewlineCount(s: string): nat
    decreases |s|
  {
    if s == [] then 0 else (if s[0] == '\n' then 1 else 0) + NewlineCount(s[1..])
  }

  function FirstNewline(s: string): (i: nat)
    requires '\n' in s
    ensures i < |s| && s[i] == '\n' && '\n' !in s[..i]
  {
    if s[0] == '\n' then 0
    else
      var i := 1 + FirstNewline(s[1..]);
      assert s[..i] == [s[0]] + s[1..][..i - 1];
      i
  }

  function LastNewline(s: string): (i: nat)
    requires '\n' in s
    ensures i < |s| && s[i] == '\n' && '\n' !in s[i + 1..]
  {
    if s[|s| - 1] == '\n' then |s| - 1
    else
      var i := LastNewline(s[..|s| - 1]);
      assert s[i + 1..] == s[..|s| - 1][i + 1..] + [s[|s| - 1]];
      i
  }

  /** A newline with none before it is the first newline. */
  lemma FirstNewlineAt(s: string, i: nat)
    requires i < |s| && s[i] == '\n' && '\n' !in s[..i]
    ensures FirstNewline(s) == i
  {
    var f := FirstNewline(s);
    assert forall k :: 0 <= k < i ==> s[k] != '\n' by {
      forall k | 0 <= k < i ensures s[k] != '\n' { assert s[..i][k] == s[k]; }
    }
    assert forall k :: 0 <= k < f ==> s[k] != '\n' by {
      forall k | 0 <= k < f ensures s[k] != '\n' { assert s[..f][k] == s[k]; }
    }
  }

  /** A newline with none after it is the last newline. */
  lemma LastNewlineAt(s: string, i: nat)
    requires i < |s| && s[i] == '\n' && '\n' !in s[i + 1..]
    ensures LastNewline(s) == i
  {
    var l := LastNewline(s);
    assert forall k :: i < k < |s| ==> s[k] != '\n' by {
      forall k | i < k < |s| ensures s[k] != '\n' { assert s[i + 1..][k - i - 1] == s[k]; }
    }
    assert forall k :: l < k < |s| ==> s[k] != '\n' by {
      forall k | l < k < |s| ensures s[k] != '\n' { assert s[l + 1..][k - l - 1] == s[k]; }
    }
  }

  /** Length of the whitespace run at the front of `s`. */
  function WsRunLength(s: string): (n: nat)
    ensures n <= |s| && AllWs(s[..n])
    ensures n < |s| ==> !IsWs(s[n])
    decreases |s|
  {
    if s != [] && IsWs(s[0]) then
      var n := 1 + WsRunLength(s[1..]);
      assert s[..n] == [s[0]] + s[1..][..n - 1];
      n
    else 0
  }

  /** The rewrite of one maximal whitespace run: with three or more newlines,
      it is squeezed by `SqueezeRun`, otherwise it stays. */
  function CollapseRun(w: string): (r: string)
    requires AllWs(w)
    ensures AllWs(r)
    ensures NewlineCount(r) == if NewlineCount(w) >= 3 then 2 else NewlineCount(w)
    ensures NewlineCount(w) < 3 ==> r == w
    ensures NewlineCount(w) >= 3 ==> '\n' in w && r == SqueezeRun(w) && |r| < |w|
    ensures ('\n' in r) == ('\n' in w)
    ensures w != [] ==> r != []
  {
    if NewlineCount(w) >= 3 then
      ThreeNewlinesSpread(w);
      var f, l := FirstNewline(w), LastNewline(w);
      var r := SqueezeRun(w);
      assert r == w[..f] + "\n\n" + w[l + 1..];
      NewlinePairCount(w[..f], w[l + 1..]);
      assert AllWs("\n\n");
      r
    else w
  }

  /** Two newlines between newline-free texts make a count of two. */
  lemma NewlinePairCount(a: string, b: string)
    requires '\n' !in a && '\n' !in b
    ensures NewlineCount(a + "\n\n" + b) == 2
  {
    NoNewlineCount(a);
    NoNewlineCount(b);
    NewlineCountAppend(a + "\n\n", b);
    NewlineCountAppend(a, "\n\n");
  }

  /** The replacement inside one run: everything from its first newline to
      its last becomes two newlines. */
  function SqueezeRun(w: string): string
    requires '\n' in w
  {
    w[..FirstNewline(w)] + "\n\n" + w[LastNewline(w) + 1..]
  }

  /** In `r == a + "\n\n" + b`, with no newline in `a` or `b`, the first
      newline ends `a` and the last one starts `b`. */
  lemma NewlinePairShape(a: string, b: string, r: string)
    requires '\n' !in a && '\n' !in b && r == a + "\n\n" + b
    ensures '\n' in r && FirstNewline(r) == |a| && LastNewline(r) == |a| + 1
    ensures r[..FirstNewline(r)] == a && r[LastNewline(r) + 1..] == b
  {
    assert r[..|a|] == a && r[|a|] == '\n' && r[|a| + 1] == '\n';
    assert r[|a| + 2..] == b;
    FirstNewlineAt(r, |a|);
    LastNewlineAt(r, |a| + 1);
  }

  /** What a squeezed run looks like: its two newlines are adjacent, the
      text before the run's first newline stays in front of them and the
      text after its last newline stays behind them. */
  lemma SqueezeRunShape(w: string)
    requires '\n' in w
    ensures '\n' in SqueezeRun(w)
    ensures LastNewline(SqueezeRun(w)) == FirstNewline(SqueezeRun(w)) + 1
    ensures SqueezeRun(w)[..FirstNewline(SqueezeRun(w))] == w[..FirstNewline(w)]
    ensures SqueezeRun(w)[LastNewline(SqueezeRun(w)) + 1..] == w[LastNewline(w) + 1..]
  {
    NewlinePairShape(w[..FirstNewline(w)], w[LastNewline(w) + 1..], SqueezeRun(w));
  }

  /** The regex finds a match in `s` at newlines `i < j < k` with only
      whitespace from `i` through `k`. */
  predicate MatchAt(s: string, i: nat, j: nat, k: nat)
  {
    i < j < k < |s| && s[i] == '\n' && s[j] == '\n' && s[k] == '\n' && AllWs(s[i..k + 1])
  }

  predicate HasMatch(s: string)
  {
    exists i: nat, j: nat, k: nat | i < j < k < |s| :: MatchAt(s, i, j, k)
  }

  /** `cleaned.replace(/\n\s*\n\s*\n+/g, "\n\n")`, one maximal whitespace run
      at a time. */
  function Collapse(s: string): string
    decreases |s|
  {
    if s == [] then []
    else if !IsWs(s[0]) then [s[0]] + Collapse(s[1..])
    else
      var n := WsRunLength(s);
      CollapseRun(s[..n]) + Collapse(s[n..])
  }

  /** The characters of `s` that are not whitespace, in order. */
  function NonWs(s: string): string
    decreases |s|
  {
    if s == [] then [] else (if IsWs(s[0]) then [] else [s[0]]) + NonWs(s[1..])
  }

  // ----- Counting newlines -----

  lemma {:induction false} NewlineCountAppend(a: string, b: string)
    ensures NewlineCount(a + b) == NewlineCount(a) + NewlineCount(b)
    decreases |a|
  {
    if a == [] {
      assert a + b == b;
    } else {
      assert (a + b)[1..] == a[1..] + b;
      NewlineCountAppend(a[1..], b);
    }
  }

  /** Newlines are counted exactly when there are some. */
  lemma {:induction false} NewlineCountPositive(a: string)
    ensures NewlineCount(a) > 0 <==> '\n' in a
    decreases |a|
  {
    if a != [] {
      NewlineCountPositive(a[1..]);
      assert a == [a[0]] + a[1..];
    }
  }

  lemma NoNewlineCount(a: string)
    requires '\n' !in a
    ensures NewlineCount(a) == 0
  {
    NewlineCountPositive(a);
  }

  lemma {:induction false} NewlineCountSplit(s: string, m: nat)
    requires m <= |s|
    ensures NewlineCount(s) == NewlineCount(s[..m]) + NewlineCount(s[m..])
    decreases m
  {
    if m == 0 {
      assert s[..0] == [] && s[0..] == s;
    } else {
      NewlineCountSplit(s[1..], m - 1);
      assert s[1..][..m - 1] == s[..m][1..];
      assert s[1..][m - 1..] == s[m..];
    }
  }

  /** Three newlines at distinct places mean at least three newlines. */
  lemma ThreeNewlinesCount(s: string, i: nat, j: nat, k: nat)
    requires i < j < k < |s| && s[i] == '\n' && s[j] == '\n' && s[k] == '\n'
    ensures NewlineCount(s) >= 3
  {
    NewlineCountSplit(s, j);
    assert s[..j][i] == '\n';
    NewlineCountPositive(s[..j]);
    var t := s[j..];
    assert t[0] == '\n' && t[1..][k - j - 1] == '\n';
    NewlineCountPositive(t[1..]);
  }

  lemma CountAroundSlice(s: string, a: nat, b: nat)
    requires a <= b <= |s|
    ensures NewlineCount(s) == NewlineCount(s[..a]) + NewlineCount(s[a..b]) + NewlineCount(s[b..])
  {
    NewlineCountSplit(s, b);
    NewlineCountSplit(s[..b], a);
    assert s[..b][..a] == s[..a];
    assert s[..b][a..] == s[a..b];
  }

  lemma CountBetweenNewlines(s: string, f: nat, l: nat)
    requires f < l < |s| && s[f] == '\n' && s[l] == '\n'
    ensures NewlineCount(s[f..l + 1]) == 2 + NewlineCount(s[f + 1..l])
  {
    var mid := s[f + 1..l];
    assert s[f..l + 1] == [s[f]] + mid + [s[l]];
    NewlineCountAppend([s[f]] + mid, [s[l]]);
    NewlineCountAppend([s[f]], mid);
  }

  lemma FirstNewlineIsFirst(s: string)
    requires '\n' in s
    ensures forall x :: 0 <= x < FirstNewline(s) ==> s[x] != '\n'
  {
    var f := FirstNewline(s);
    forall x | 0 <= x < f
      ensures s[x] != '\n'
    {
      assert s[x] == s[..f][x];
    }
  }

  /** Counting around the first and the last newline. */
  lemma NewlinesBetween(s: string)
    requires '\n' in s
    ensures FirstNewline(s) <= LastNewline(s)
    ensures FirstNewline(s) == LastNewline(s) ==> NewlineCount(s) == 1
    ensures FirstNewline(s) < LastNewline(s) ==>
      NewlineCount(s) == 2 + NewlineCount(s[FirstNewline(s) + 1..LastNewline(s)])
  {
    var f, l := FirstNewline(s), LastNewline(s);
    FirstNewlineIsFirst(s);
    NoNewlineCount(s[..f]);
    NoNewlineCount(s[l + 1..]);
    CountAroundSlice(s, f, l + 1);
    if f < l {
      CountBetweenNewlines(s, f, l);
    } else {
      assert s[f..l + 1] == [s[f]];
    }
  }

  /** With three or more newlines, the first and the last are two apart or
      more, with a newline between them. */
  lemma ThreeNewlinesSpread(s: string)
    requires NewlineCount(s) >= 3
    ensures '\n' in s
    ensures FirstNewline(s) + 2 <= LastNewline(s)
    ensures '\n' in s[FirstNewline(s) + 1..LastNewline(s)]
  {
    NewlineCountPositive(s);
    NewlinesBetween(s);
    NewlineCountPositive(s[FirstNewline(s) + 1..LastNewline(s)]);
  }

  // ----- Where the regex can match -----

  /** A match in a suffix is a match in the whole. */
  lemma MatchInSuffix(u: string, t: string)
    ensures HasMatch(t) ==> HasMatch(u + t)
  {
    if HasMatch(t) {
      var i: nat, j: nat, k: nat :| i < j < k < |t| && MatchAt(t, i, j, k);
      assert (u + t)[|u| + i..|u| + k + 1] == t[i..k + 1];
      assert MatchAt(u + t, |u| + i, |u| + j, |u| + k);
    }
  }

  /** Nothing can match at a character that is not whitespace, so a match
      after one lies wholly after it. */
  lemma MatchAfterTextLiesInTail(c: char, t: string)
    requires !IsWs(c)
    ensures HasMatch([c] + t) ==> HasMatch(t)
  {
    if HasMatch([c] + t) {
      var i: nat, j: nat, k: nat :| i < j < k < |[c] + t| && MatchAt([c] + t, i, j, k);
      assert i > 0;
      assert t[i - 1..k] == ([c] + t)[i..k + 1];
      assert MatchAt(t, i - 1, j - 1, k - 1);
    }
  }

  lemma WsInsideMatch(s: string, i: nat, k: nat, m: nat)
    requires i <= m <= k < |s| && AllWs(s[i..k + 1])
    ensures IsWs(s[m])
  {
    assert s[i..k + 1][m - i] == s[m];
  }

  /** A whitespace run with fewer than three newlines, followed by text that
      does not start with whitespace, adds no match: any match lies in the
      text. */
  lemma ShortRunMatchLiesInText(v: string, y: string)
    requires AllWs(v) && NewlineCount(v) < 3
    requires y == [] || !IsWs(y[0])
    ensures HasMatch(v + y) ==> HasMatch(y)
  {
    if HasMatch(v + y) {
      var s := v + y;
      var i: nat, j: nat, k: nat :| i < j < k < |s| && MatchAt(s, i, j, k);
      if i >= |v| {
        assert y[i - |v|..k + 1 - |v|] == s[i..k + 1];
        assert MatchAt(y, i - |v|, j - |v|, k - |v|);
      } else if k >= |v| {
        WsInsideMatch(s, i, k, |v|);
        assert false;
      } else {
        assert v[i] == s[i] && v[j] == s[j] && v[k] == s[k];
        ThreeNewlinesCount(v, i, j, k);
        assert false;
      }
    }
  }

  lemma AllWsSlice(w: string, a: nat, b: nat)
    requires AllWs(w) && a <= b <= |w|
    ensures AllWs(w[a..b])
  {
    forall k | 0 <= k < b - a
      ensures IsWs(w[a..b][k])
    {
      assert w[a..b][k] == w[a + k];
    }
  }

  /** A whitespace run with three or more newlines is itself a match. */
  lemma RunWithThreeNewlinesMatches(w: string)
    requires AllWs(w) && NewlineCount(w) >= 3
    ensures HasMatch(w)
  {
    ThreeNewlinesSpread(w);
    var f, l := FirstNewline(w), LastNewline(w);
    var mid := w[f + 1..l];
    var m :| 0 <= m < |mid| && mid[m] == '\n';
    assert w[f + 1 + m] == mid[m];
    AllWsSlice(w, f, l + 1);
    assert MatchAt(w, f, f + 1 + m, l);
  }

  /** A match in a prefix is a match in the whole. */
  lemma MatchInPrefix(u: string, t: string)
    ensures HasMatch(u) ==> HasMatch(u + t)
  {
    if HasMatch(u) {
      var i: nat, j: nat, k: nat :| i < j < k < |u| && MatchAt(u, i, j, k);
      assert (u + t)[i..k + 1] == u[i..k + 1];
      assert MatchAt(u + t, i, j, k);
    }
  }

  /** A whitespace run at the front of `s` with three or more newlines is a
      match. */
  lemma LongRunMatches(s: string, n: nat)
    requires n <= |s| && AllWs(s[..n])
    ensures NewlineCount(s[..n]) >= 3 ==> HasMatch(s)
  {
    if NewlineCount(s[..n]) >= 3 {
      RunWithThreeNewlinesMatches(s[..n]);
      MatchInPrefix(s[..n], s[n..]);
      assert s[..n] + s[n..] == s;
    }
  }

  // ----- What the collapse guarantees -----

  /** The result holds no further match: one pass is enough. */
  lemma {:induction false} CollapseLeavesNoMatch(s: string)
    ensures !HasMatch(Collapse(s))
    decreases |s|
  {
    if s == [] {
      assert !MatchAt([], 0, 0, 0);
    } else if !IsWs(s[0]) {
      CollapseLeavesNoMatch(s[1..]);
      MatchAfterTextLiesInTail(s[0], Collapse(s[1..]));
    } else {
      var n := WsRunLength(s);
      var rest := s[n..];
      CollapseLeavesNoMatch(rest);
      ShortRunMatchLiesInText(CollapseRun(s[..n]), Collapse(rest));
    }
  }

  /** Text with no match is returned unchanged. */
  lemma {:induction false} CollapseKeepsMatchFreeText(s: string)
    requires !HasMatch(s)
    ensures Collapse(s) == s
    decreases |s|
  {
    if s == [] {
    } else if !IsWs(s[0]) {
      assert [s[0]] + s[1..] == s;
      MatchInSuffix([s[0]], s[1..]);
      CollapseKeepsMatchFreeText(s[1..]);
    } else {
      var n := WsRunLength(s);
      assert s == s[..n] + s[n..];
      LongRunMatches(s, n);
      MatchInSuffix(s[..n], s[n..]);
      CollapseKeepsMatchFreeText(s[n..]);
    }
  }

  /** The collapse changes `s` exactly when the regex matches in it. */
  lemma CollapseChangesIffMatch(s: string)
    ensures Collapse(s) == s <==> !HasMatch(s)
  {
    CollapseLeavesNoMatch(s);
    if !HasMatch(s) {
      CollapseKeepsMatchFreeText(s);
    }
  }

  /** A second collapse changes nothing. */
  lemma CollapseIsIdempotent(s: string)
    ensures Collapse(Collapse(s)) == Collapse(s)
  {
    CollapseLeavesNoMatch(s);
    CollapseKeepsMatchFreeText(Collapse(s));
  }

  lemma {:induction false} NonWsAppend(a: string, b: string)
    ensures NonWs(a + b) == NonWs(a) + NonWs(b)
    decreases |a|
  {
    if a == [] {
      assert a + b == b;
    } else {
      assert (a + b)[1..] == a[1..] + b;
      NonWsAppend(a[1..], b);
    }
  }

  lemma {:induction false} NonWsOfWs(w: string)
    requires AllWs(w)
    ensures NonWs(w) == []
    decreases |w|
  {
    if w != [] {
      NonWsOfWs(w[1..]);
    }
  }

  lemma NonWsAfterWs(w: string, t: string)
    requires AllWs(w)
    ensures NonWs(w + t) == NonWs(t)
  {
    NonWsAppend(w, t);
    NonWsOfWs(w);
  }

  lemma NonWsAfterText(c: char, t: string)
    requires !IsWs(c)
    ensures NonWs([c] + t) == [c] + NonWs(t)
  {
    assert ([c] + t)[1..] == t;
  }

  /** The step of the collapse at a character that is not whitespace. */
  lemma KeepsNonWsAtText(s: string)
    requires s != [] && !IsWs(s[0])
    requires NonWs(Collapse(s[1..])) == NonWs(s[1..])
    ensures NonWs(Collapse(s)) == NonWs(s)
  {
    assert Collapse(s) == [s[0]] + Collapse(s[1..]);
    NonWsAfterText(s[0], Collapse(s[1..]));
  }

  lemma {:induction false} NonWsSplit(s: string, n: nat)
    requires n <= |s|
    ensures NonWs(s) == NonWs(s[..n]) + NonWs(s[n..])
    decreases n
  {
    if n == 0 {
      assert s[..0] == [] && s[0..] == s;
    } else {
      NonWsSplit(s[1..], n - 1);
      assert s[1..][..n - 1] == s[..n][1..];
      assert s[1..][n - 1..] == s[n..];
    }
  }

  /** The step of the collapse at the whitespace run `s[..n]`. */
  lemma KeepsNonWsAtRun(s: string, n: nat, c: string)
    requires n <= |s| && AllWs(s[..n])
    requires c == CollapseRun(s[..n]) + Collapse(s[n..])
    requires NonWs(Collapse(s[n..])) == NonWs(s[n..])
    ensures NonWs(c) == NonWs(s)
  {
    NonWsAfterWs(CollapseRun(s[..n]), Collapse(s[n..]));
    NonWsSplit(s, n);
    NonWsOfWs(s[..n]);
  }

  /** Only whitespace is removed or added: the other characters come out
      exactly as they went in, in the same order. */
  lemma {:induction false} CollapseKeepsNonWs(s: string)
    ensures NonWs(Collapse(s)) == NonWs(s)
    decreases |s|
  {
    if s != [] {
      if !IsWs(s[0]) {
        CollapseKeepsNonWs(s[1..]);
        KeepsNonWsAtText(s);
      } else {
        var n := WsRunLength(s);
        CollapseKeepsNonWs(s[n..]);
        KeepsNonWsAtRun(s, n, Collapse(s));
      }
    }
  }

  /** The collapse of a non-empty text is non-empty and starts with
      whitespace exactly when the text does. */
  lemma CollapseKeepsHeadKind(t: string)
    ensures t != [] ==> Collapse(t) != [] && (IsWs(Collapse(t)[0]) <==> IsWs(t[0]))
  {
  }

  /** A prefix made only of non-whitespace characters survives the
      collapse, and the collapse never creates one. */
  lemma {:induction false} CollapseKeepsTextPrefix(t: string, q: string)
    requires forall c <- q :: !IsWs(c)
    ensures StartsWith(Collapse(t), q) <==> StartsWith(t, q)
    decreases |t|
  {
    if q != [] {
      CollapseKeepsHeadKind(t);
      if t != [] && !IsWs(t[0]) {
        var c := Collapse(t[1..]);
        assert Collapse(t) == [t[0]] + c;
        assert forall x <- q[1..] :: x in q;
        CollapseKeepsTextPrefix(t[1..], q[1..]);
        StartsWithCons(t[0], c, q);
        StartsWithCons(t[0], t[1..], q);
        assert t == [t[0]] + t[1..];
      } else if t != [] {
        assert q[0] in q;
        if |q| <= |t| {
          assert t[..|q|][0] == t[0];
        }
        if |q| <= |Collapse(t)| {
          assert Collapse(t)[..|q|][0] == Collapse(t)[0];
        }
      }
    }
  }
}
