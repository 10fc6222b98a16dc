/** Text primitives the cleaner borrows from JavaScript's string library:
    the whitespace class shared by `String.prototype.trim` and the regex
    escape `\s`, `trim`, `startsWith`, `split("\n")` and `join("\n")`.
    Characters are Unicode scalar values; every character the cleaner
    compares against, whitespace included, lies in the Basic Multilingual
    Plane, so UTF-16 code units and scalar values give the same answers. */
module Text {

  datatype Option<T> = None | Some(value: T)

  /** ECMAScript WhiteSpace and LineTerminator code points: the set that both
      `trim()` removes and `\s` matches. */
  predicate IsWs(c: char)
  {
    var n := c as int;
    (9 <= n <= 13) || n == 32 || n == 0xA0 || n == 0x1680 ||
    (0x2000 <= n <= 0x200A) || n == 0x2028 || n == 0x2029 ||
    n == 0x202F || n == 0x205F || n == 0x3000 || n == 0xFEFF
  }

  predicate AllWs(s: string)
  {
    forall k :: 0 <= k < |s| ==> IsWs(s[k])
  }

  predicate StartsWith(s: string, prefix: string)
  {
    |prefix| <= |s| && s[..|prefix|] == prefix
  }

  /** `s.trimStart()`: drops the leading whitespace and nothing else. */
  function TrimStart(s: string): (r: string)
    decreases |s|
  {
    if s != [] && IsWs(s[0]) then TrimStart(s[1..]) else s
  }

  /** `s.trimEnd()`: drops the trailing whitespace and nothing else. */
  function TrimEnd(s: string): (r: string)
    decreases |s|
  {
    if s != [] && IsWs(s[|s| - 1]) then TrimEnd(s[..|s| - 1]) else s
  }

  /** Whether a text with `c` in front starts with a non-empty prefix is
      decided by its first character and the rest. */
  lemma StartsWithCons(c: char, t: string, q: string)
    requires q != []
    ensures StartsWith([c] + t, q) <==> c == q[0] && StartsWith(t, q[1..])
  {
    if |q| <= 1 + |t| {
      assert ([c] + t)[..|q|] == [c] + t[..|q| - 1];
      assert q == [q[0]] + q[1..];
    }
  }

  /** `s.trim()`. */
  function Trim(s: string): string
  {
    TrimEnd(TrimStart(s))
  }

  /** `trimStart` removes exactly the leading whitespace: what it returns is
      a suffix of `s`, everything before it is whitespace, and it starts with
      a non-whitespace character unless it is empty. */
  lemma {:induction false} TrimStartSpec(s: string)
    ensures |TrimStart(s)| <= |s| && TrimStart(s) == s[|s| - |TrimStart(s)|..]
    ensures AllWs(s[..|s| - |TrimStart(s)|])
    ensures TrimStart(s) == [] || !IsWs(TrimStart(s)[0])
    decreases |s|
  {
    if s != [] && IsWs(s[0]) {
      TrimStartSpec(s[1..]);
      var n := |s| - |TrimStart(s)|;
      assert s[..n] == [s[0]] + s[1..][..n - 1];
    }
  }

  /** `trimEnd` removes exactly the trailing whitespace. */
  lemma {:induction false} TrimEndSpec(s: string)
    ensures |TrimEnd(s)| <= |s| && TrimEnd(s) == s[..|TrimEnd(s)|]
    ensures AllWs(s[|TrimEnd(s)|..])
    ensures TrimEnd(s) == [] || !IsWs(TrimEnd(s)[|TrimEnd(s)| - 1])
    decreases |s|
  {
    if s != [] && IsWs(s[|s| - 1]) {
      TrimEndSpec(s[..|s| - 1]);
      var n := |TrimEnd(s)|;
      assert s[n..] == s[..|s| - 1][n..] + [s[|s| - 1]];
    }
  }

  /** Trimming the end never disturbs a prefix that ends in a non-whitespace
      character, so `s.trim().startsWith(p)` is decided by the leading
      whitespace alone. */
  lemma TrimEndKeepsPrefix(s: string, p: string)
    requires p != [] && !IsWs(p[|p| - 1])
    ensures StartsWith(TrimEnd(s), p) <==> StartsWith(s, p)
  {
  }

  /** `ls.join("\n")`; an empty array joins to the empty string. */
  function Join(ls: seq<string>): string
    decreases |ls|
  {
    if |ls| == 0 then "" else if |ls| == 1 then ls[0] else ls[0] + "\n" + Join(ls[1..])
  }

  /** `s.split("\n")`: the pieces between newlines, in order. The result is
      never empty (`"".split("\n")` is `[""]`), no piece holds a newline, and
      joining the pieces gives back `s`. */
  function Split(s: string): (r: seq<string>)
    ensures |r| >= 1
    ensures forall l <- r :: '\n' !in l
    ensures Join(r) == s
    decreases |s|
  {
    if s == [] then [""]
    else
      var rest := Split(s[1..]);
      if s[0] == '\n' then
        assert Join([""] + rest) == "\n" + Join(rest);
        [""] + rest
      else
        var r := [[s[0]] + rest[0]] + rest[1..];
        assert s == [s[0]] + s[1..];
        assert |rest| > 1 ==> Join(r) == [s[0]] + rest[0] + "\n" + Join(rest[1..]);
        r
  }

  /** A line without newlines splits to itself. */
  lemma {:induction false} SplitOfLine(x: string)
    requires '\n' !in x
    ensures Split(x) == [x]
    decreases |x|
  {
    if x != [] {
      SplitOfLine(x[1..]);
      assert x == [x[0]] + x[1..];
    }
  }

  /** A character other than a newline joins the first piece. */
  lemma SplitCons(c: char, t: string)
    requires c != '\n'
    ensures Split([c] + t) == [[c] + Split(t)[0]] + Split(t)[1..]
  {
    assert ([c] + t)[0] == c && ([c] + t)[1..] == t;
  }

  /** Splitting a line, a newline and more text gives the line, then the
      pieces of the rest. */
  lemma {:induction false} SplitAfterLine(x: string, rest: string)
    requires '\n' !in x
    ensures Split(x + "\n" + rest) == [x] + Split(rest)
    decreases |x|
  {
    if x == [] {
      assert x + "\n" + rest == "\n" + rest;
      assert ("\n" + rest)[1..] == rest;
    } else {
      SplitAfterLine(x[1..], rest);
      assert x + "\n" + rest == [x[0]] + (x[1..] + "\n" + rest);
      SplitCons(x[0], x[1..] + "\n" + rest);
      assert x == [x[0]] + x[1..];
    }
  }

  /** `join("\n")` is undone by `split("\n")` on lines without newlines:
      the two are inverse. */
  lemma {:induction false} SplitOfJoin(ls: seq<string>)
    requires |ls| >= 1 && forall l <- ls :: '\n' !in l
    ensures Split(Join(ls)) == ls
    decreases |ls|
  {
    if |ls| == 1 {
      SplitOfLine(ls[0]);
    } else {
      assert forall l <- ls[1..] :: l in ls;
      SplitOfJoin(ls[1..]);
      SplitAfterLine(ls[0], Join(ls[1..]));
      assert ls == [ls[0]] + ls[1..];
    }
  }
}
