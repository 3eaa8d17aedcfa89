/**
 * The few pieces of Python's `str` that the sender's core relies on:
 * `str.isspace`, `str.strip()`, `str.splitlines()` and `"\n".join(...)`.
 * Strings are sequences of Unicode code points.
 */
module PyText {

  /** The characters for which Python's `str.isspace()` holds (and which `str.strip()` removes). */
  predicate IsSpace(c: char)
  {
    var n := c as int;
    (0x09 <= n <= 0x0D) || (0x1C <= n <= 0x20) || n == 0x85 || n == 0xA0 || n == 0x1680
    || (0x2000 <= n <= 0x200A) || n == 0x2028 || n == 0x2029 || n == 0x202F || n == 0x205F
    || n == 0x3000
  }

  /** The line boundaries of `str.splitlines()` ("\r\n" counts as one boundary, see SplitLines). */
  predicate IsLineBreak(c: char)
  {
    var n := c as int;
    (0x0A <= n <= 0x0D) || (0x1C <= n <= 0x1E) || n == 0x85 || n == 0x2028 || n == 0x2029
  }

  predicate AllSpace(s: string)
  {
    forall i :: 0 <= i < |s| ==> IsSpace(s[i])
  }

  predicate NoLineBreak(s: string)
  {
    forall i :: 0 <= i < |s| ==> !IsLineBreak(s[i])
  }

  /** A string that `strip()` leaves alone: it neither starts nor ends with whitespace. */
  predicate IsStripped(s: string)
  {
    s == [] || (!IsSpace(s[0]) && !IsSpace(s[|s| - 1]))
  }

  /** `r` is `s` without the whitespace prefix `s[..i]` and the whitespace suffix `s[j..]`. */
  predicate TrimmedAt(s: string, r: string, i: nat, j: nat)
  {
    i <= j <= |s| && r == s[i..j] && AllSpace(s[..i]) && AllSpace(s[j..])
  }

  /**
   * `s.strip()`: drop whitespace from the front, then from the back. The
   * result neither starts nor ends with whitespace and is empty exactly when
   * `s` is whitespace only; `StripTrims` says what is left.
   */
  function Strip(s: string): (r: string)
    ensures IsStripped(r)
    ensures r == [] ==> AllSpace(s)
    ensures AllSpace(s) ==> r == []
    ensures |r| <= |s|
  {
    if s != [] && IsSpace(s[0]) then Strip(s[1..])
    else if s != [] && IsSpace(s[|s| - 1]) then Strip(s[..|s| - 1])
    else s
  }

  /** What `strip()` leaves is `s` with a whitespace prefix and a whitespace suffix removed. */
  lemma {:induction false} StripTrims(s: string)
    ensures exists i, j :: TrimmedAt(s, Strip(s), i, j)
  {
    if s != [] && IsSpace(s[0]) {
      assert Strip(s) == Strip(s[1..]);
      StripTrims(s[1..]);
      TrimmedFront(s, Strip(s[1..]));
    } else if s != [] && IsSpace(s[|s| - 1]) {
      var init := s[..|s| - 1];
      assert Strip(s) == Strip(init);
      StripTrims(init);
      TrimmedBack(s, init, Strip(init));
    } else {
      assert Strip(s) == s;
      assert TrimmedAt(s, s, 0, |s|);
    }
  }

  /** A whitespace character in front widens the prefix that was trimmed. */
  lemma {:induction false} TrimmedFront(s: string, r: string)
    requires s != [] && IsSpace(s[0])
    requires exists i, j :: TrimmedAt(s[1..], r, i, j)
    ensures exists i, j :: TrimmedAt(s, r, i, j)
  {
    var i: nat, j: nat :| TrimmedAt(s[1..], r, i, j);
    assert s[..i + 1] == [s[0]] + s[1..][..i];
    assert s[j + 1..] == s[1..][j..];
    assert TrimmedAt(s, r, i + 1, j + 1);
  }

  /** A whitespace character at the back widens the suffix that was trimmed. */
  lemma {:induction false} TrimmedBack(s: string, init: string, r: string)
    requires s != [] && IsSpace(s[|s| - 1]) && init == s[..|s| - 1]
    requires exists i, j :: TrimmedAt(init, r, i, j)
    ensures exists i, j :: TrimmedAt(s, r, i, j)
  {
    var i: nat, j: nat :| TrimmedAt(init, r, i, j);
    assert s[..i] == init[..i];
    assert s[j..] == init[j..] + [s[|s| - 1]];
    assert TrimmedAt(s, r, i, j);
  }

  /** Stripping removes characters only, so a line without boundaries stays without them. */
  lemma {:induction false} StripKeepsNoLineBreak(s: string)
    requires NoLineBreak(s)
    ensures NoLineBreak(Strip(s))
  {
    if s != [] && IsSpace(s[0]) {
      NoLineBreakSlice(s, 1, |s|);
      StripKeepsNoLineBreak(s[1..]);
    } else if s != [] && IsSpace(s[|s| - 1]) {
      NoLineBreakSlice(s, 0, |s| - 1);
      StripKeepsNoLineBreak(s[..|s| - 1]);
    }
  }

  lemma {:induction false} NoLineBreakSlice(s: string, a: nat, b: nat)
    requires NoLineBreak(s) && a <= b <= |s|
    ensures NoLineBreak(s[a..b])
  {
    assert forall i :: 0 <= i < b - a ==> s[a..b][i] == s[a + i];
  }

  /** Strip is the identity on stripped strings. */
  lemma {:induction false} StripStripped(s: string)
    requires IsStripped(s)
    ensures Strip(s) == s
  {
  }

  /** Index of the first line boundary in `s`, or |s| when there is none. */
  function FirstBreak(s: string): (i: nat)
    ensures i <= |s|
    ensures forall k :: 0 <= k < i ==> !IsLineBreak(s[k])
    ensures i < |s| ==> IsLineBreak(s[i])
  {
    if s == [] || IsLineBreak(s[0]) then 0 else 1 + FirstBreak(s[1..])
  }

  /**
   * `s.splitlines()`: the lines of `s` without their boundaries; a final
   * boundary does not start an empty last line, and "\r\n" is one boundary.
   */
  function SplitLines(s: string): (lines: seq<string>)
    ensures forall k :: 0 <= k < |lines| ==> NoLineBreak(lines[k])
    ensures |lines| <= |s|
    decreases |s|
  {
    if s == [] then []
    else
      var i := FirstBreak(s);
      if i == |s| then [s]
      else
        var width := if s[i] == '\r' && i + 1 < |s| && s[i + 1] == '\n' then 2 else 1;
        [s[..i]] + SplitLines(s[i + width..])
  }

  /** A boundary `splitlines()` cuts at: "\r\n", or one line-break character. */
  predicate IsBoundary(b: string)
  {
    b == "\r\n" || (|b| == 1 && IsLineBreak(b[0]))
  }

  /** Each line followed by the boundary that ended it. */
  function Rebuild(lines: seq<string>, ends: seq<string>): string
    requires |lines| == |ends|
  {
    if lines == [] then "" else lines[0] + ends[0] + Rebuild(lines[1..], ends[1..])
  }

  /**
   * `lines` cut `s` the way `splitlines()` does, `ends` holding the boundary
   * after each line: the lines followed by their boundaries give back `s`; no
   * line holds a line-break character; only the last line may lack a
   * boundary, and then it is not empty; and a "\r" is never a boundary of its
   * own when a "\n" follows it.
   */
  predicate LinesOf(s: string, lines: seq<string>, ends: seq<string>)
  {
    && |lines| == |ends|
    && Rebuild(lines, ends) == s
    && (forall k :: 0 <= k < |lines| ==> NoLineBreak(lines[k]))
    && (forall k :: 0 <= k < |ends| - 1 ==> IsBoundary(ends[k]))
    && (ends != [] ==> IsBoundary(ends[|ends| - 1]) || (ends[|ends| - 1] == [] && lines[|lines| - 1] != []))
    && (forall k :: 0 <= k < |ends| - 1 && ends[k] == "\r" ==> !(lines[k + 1] == [] && ends[k + 1] == "\n"))
  }

  /** The lines `splitlines()` returns, each followed by its boundary, rebuild the text. */
  lemma {:induction false} SplitLinesRebuild(s: string)
    ensures exists ends :: LinesOf(s, SplitLines(s), ends)
    decreases |s|
  {
    if s == [] {
      assert SplitLines(s) == [];
      assert LinesOf(s, [], []);
    } else if FirstBreak(s) == |s| {
      assert SplitLines(s) == [s];
      assert Rebuild([s], [""]) == s;
      assert LinesOf(s, [s], [""]);
    } else {
      var line, b, t := FirstCut(s);
      SplitLinesRebuild(t);
      var restEnds :| LinesOf(t, SplitLines(t), restEnds);
      LinesCons(s, line, b, t, SplitLines(t), restEnds);
    }
  }

  /** Where `splitlines()` makes its first cut: the first line, its boundary and the rest. */
  lemma {:induction false} FirstCut(s: string) returns (line: string, b: string, t: string)
    requires FirstBreak(s) < |s|
    ensures s == line + b + t && NoLineBreak(line) && IsBoundary(b) && |t| < |s|
    ensures b == "\r" ==> t == [] || t[0] != '\n'
    ensures SplitLines(s) == [line] + SplitLines(t)
  {
    var i := FirstBreak(s);
    var width := if s[i] == '\r' && i + 1 < |s| && s[i + 1] == '\n' then 2 else 1;
    line, b, t := s[..i], s[i..i + width], s[i + width..];
    assert s == line + b + t;
    if width == 2 {
      assert b == "\r\n";
    } else {
      assert b == [s[i]];
      assert t != [] ==> t[0] == s[i + 1];
    }
    SplitAtLine(s, line, b, t);
  }

  /** One more line and its boundary in front of a cut of the rest of the text. */
  lemma {:induction false} LinesCons(s: string, line: string, b: string, t: string, rest: seq<string>, restEnds: seq<string>)
    requires LinesOf(t, rest, restEnds)
    requires s == line + b + t && NoLineBreak(line) && IsBoundary(b)
    requires b == "\r" ==> t == [] || t[0] != '\n'
    ensures LinesOf(s, [line] + rest, [b] + restEnds)
  {
    var lines, ends := [line] + rest, [b] + restEnds;
    assert lines[1..] == rest && ends[1..] == restEnds;
    assert Rebuild(lines, ends) == s;
    forall k | 0 <= k < |lines|
      ensures NoLineBreak(lines[k])
    {
      if k > 0 {
        assert lines[k] == rest[k - 1];
      }
    }
    forall k | 0 <= k < |ends| - 1
      ensures IsBoundary(ends[k])
    {
      if k > 0 {
        assert ends[k] == restEnds[k - 1];
      }
    }
    if rest != [] {
      assert t == rest[0] + restEnds[0] + Rebuild(rest[1..], restEnds[1..]);
      if rest[0] == [] && restEnds[0] == "\n" {
        assert t[0] == '\n';
      }
    }
  }

  /** There is no other cut: any lines that cut `s` as `splitlines()` does are `SplitLines(s)`. */
  lemma {:induction false} LinesOfUnique(s: string, lines: seq<string>, ends: seq<string>)
    requires LinesOf(s, lines, ends)
    ensures lines == SplitLines(s)
    decreases |lines|
  {
    if lines == [] {
      assert s == [];
    } else if !IsBoundary(ends[0]) {
      LinesOfLast(s, lines, ends);
    } else {
      LinesOfTail(s, lines, ends);
      LinesOfUnique(Rebuild(lines[1..], ends[1..]), lines[1..], ends[1..]);
      LinesOfCons(s, lines, ends);
    }
  }

  /** If the lines after the first are the ones `splitlines()` finds in the rest, all of them are. */
  lemma {:induction false} LinesOfCons(s: string, lines: seq<string>, ends: seq<string>)
    requires LinesOf(s, lines, ends) && lines != [] && IsBoundary(ends[0])
    requires lines[1..] == SplitLines(Rebuild(lines[1..], ends[1..]))
    ensures lines == SplitLines(s)
  {
    var t := Rebuild(lines[1..], ends[1..]);
    LinesOfFirst(s, lines, ends);
    FirstLineThenRest(s, lines[0], ends[0], t, lines);
  }

  /** Lines that start with the first cut and go on with the cut of the rest are the whole cut. */
  lemma {:induction false} FirstLineThenRest(s: string, line: string, b: string, t: string, lines: seq<string>)
    requires s == line + b + t && NoLineBreak(line) && IsBoundary(b)
    requires b == "\r" ==> t == [] || t[0] != '\n'
    requires lines != [] && lines[0] == line && lines[1..] == SplitLines(t)
    ensures lines == SplitLines(s)
  {
    SplitAtLine(s, line, b, t);
    assert lines == [line] + lines[1..];
  }

  /** A line without a boundary is the last one, and it is the whole of what is left. */
  lemma {:induction false} LinesOfLast(s: string, lines: seq<string>, ends: seq<string>)
    requires LinesOf(s, lines, ends) && lines != [] && !IsBoundary(ends[0])
    ensures lines == SplitLines(s)
  {
    assert |lines| == 1 && ends[0] == [] && lines[0] != [];
    assert s == lines[0] + ends[0] + Rebuild(lines[1..], ends[1..]);
    assert s == lines[0];
    assert FirstBreak(s) == |s|;
  }

  /** The first line, then its boundary, then the rest; a lone "\r" is not followed by "\n". */
  lemma {:induction false} LinesOfFirst(s: string, lines: seq<string>, ends: seq<string>)
    requires LinesOf(s, lines, ends) && lines != [] && IsBoundary(ends[0])
    ensures var t := Rebuild(lines[1..], ends[1..]);
      && s == lines[0] + ends[0] + t && NoLineBreak(lines[0])
      && (ends[0] == "\r" ==> t == [] || t[0] != '\n')
  {
    var t := Rebuild(lines[1..], ends[1..]);
    if ends[0] == "\r" && t != [] {
      LinesOfTail(s, lines, ends);
      LinesOfHead(t, lines[1..], ends[1..]);
      assert ends[1] == ends[1..][0] && lines[1] == lines[1..][0];
    }
  }

  /** A boundary-free line, then a boundary, then the rest: `splitlines()` cuts there first. */
  lemma {:induction false} SplitAtLine(s: string, line: string, b: string, t: string)
    requires s == line + b + t && NoLineBreak(line) && IsBoundary(b)
    requires b == "\r" ==> t == [] || t[0] != '\n'
    ensures SplitLines(s) == [line] + SplitLines(t)
  {
    var i := |line|;
    assert forall k :: 0 <= k < i ==> s[k] == line[k];
    assert s[i] == b[0];
    assert FirstBreak(s) == i;
    var width := if s[i] == '\r' && i + 1 < |s| && s[i + 1] == '\n' then 2 else 1;
    if b == "\r\n" {
      assert s[i + 1] == '\n';
    } else if t != [] {
      assert s[i + 1] == t[0];
    }
    assert width == |b|;
    assert s[..i] == line;
    assert s[i + width..] == t;
  }

  /** Dropping the first line and its boundary leaves a cut of the rest of the text. */
  lemma {:induction false} LinesOfTail(s: string, lines: seq<string>, ends: seq<string>)
    requires LinesOf(s, lines, ends) && lines != [] && IsBoundary(ends[0])
    ensures LinesOf(Rebuild(lines[1..], ends[1..]), lines[1..], ends[1..])
  {
    var rest, restEnds := lines[1..], ends[1..];
    forall k | 0 <= k < |rest|
      ensures NoLineBreak(rest[k])
    {
      assert rest[k] == lines[k + 1];
    }
    forall k | 0 <= k < |restEnds| - 1
      ensures IsBoundary(restEnds[k])
    {
      assert restEnds[k] == ends[k + 1];
    }
    forall k | 0 <= k < |restEnds| - 1 && restEnds[k] == "\r"
      ensures !(rest[k + 1] == [] && restEnds[k + 1] == "\n")
    {
      assert restEnds[k] == ends[k + 1] && rest[k + 1] == lines[k + 2] && restEnds[k + 1] == ends[k + 2];
    }
  }

  /** A non-empty cut text starts with a line-break character only if its first line is empty, and never with a "\n" after a lone "\r". */
  lemma {:induction false} LinesOfHead(t: string, lines: seq<string>, ends: seq<string>)
    requires LinesOf(t, lines, ends) && t != []
    ensures lines != []
    ensures lines[0] != [] ==> !IsLineBreak(t[0])
    ensures t[0] == '\n' ==> lines[0] == [] && ends[0] == "\n"
  {
    assert t == lines[0] + ends[0] + Rebuild(lines[1..], ends[1..]);
    if lines[0] != [] {
      assert t[0] == lines[0][0];
    } else if |lines| == 1 {
      assert IsBoundary(ends[0]);
    }
  }

  /** `"\n".join(xs)`. */
  function JoinLines(xs: seq<string>): string
  {
    if xs == [] then ""
    else if |xs| == 1 then xs[0]
    else xs[0] + "\n" + JoinLines(xs[1..])
  }

  /** Splitting a newline-joined list of non-empty, break-free lines gives the list back. */
  lemma {:induction false} SplitJoinLines(xs: seq<string>)
    requires forall k :: 0 <= k < |xs| ==> xs[k] != [] && NoLineBreak(xs[k])
    ensures SplitLines(JoinLines(xs)) == xs
  {
    if |xs| == 1 {
      assert FirstBreak(xs[0]) == |xs[0]|;
    } else if |xs| > 1 {
      var s := JoinLines(xs);
      var x := xs[0];
      assert s == x + "\n" + JoinLines(xs[1..]);
      assert s[|x|] == '\n';
      assert forall k :: 0 <= k < |x| ==> s[k] == x[k];
      assert FirstBreak(s) == |x|;
      assert s[..|x|] == x;
      assert s[|x| + 1..] == JoinLines(xs[1..]);
      SplitJoinLines(xs[1..]);
    }
  }
}
