/**
 * The three Python `str` operations the core relies on: `strip()` with no
 * argument, `lower()` and `splitlines()`.
 */
module Text {

  /** Python's `str.isspace()`: exactly the characters `strip()` removes. */
  predicate IsSpace(c: char) {
    var n := c as int;
    || 0x09 <= n <= 0x0D
    || 0x1C <= n <= 0x20
    || n == 0x85 || n == 0xA0 || n == 0x1680
    || 0x2000 <= n <= 0x200A
    || n == 0x2028 || n == 0x2029 || n == 0x202F || n == 0x205F || n == 0x3000
  }

  /** `str.lower()` restricted to ASCII: A-Z become a-z, every other character is kept. */
  function LowerChar(c: char): char {
    if 'A' <= c <= 'Z' then (c as int + 32) as char else c
  }

  function Lower(s: string): (r: string)
    ensures |r| == |s|
  {
    seq(|s|, i requires 0 <= i < |s| => LowerChar(s[i]))
  }

  /** Drops leading whitespace (`str.lstrip()`). */
  function TrimStart(s: string): string {
    if s != [] && IsSpace(s[0]) then TrimStart(s[1..]) else s
  }

  /** Drops trailing whitespace (`str.rstrip()`). */
  function TrimEnd(s: string): string {
    if s != [] && IsSpace(s[|s| - 1]) then TrimEnd(s[..|s| - 1]) else s
  }

  /** `str.strip()`. */
  function Strip(s: string): string {
    TrimEnd(TrimStart(s))
  }

  /** `lstrip` keeps a suffix, drops only whitespace, and stops at the first other character. */
  lemma {:induction false} TrimStartSpec(s: string)
    ensures var r := TrimStart(s);
      && |r| <= |s| && r == s[|s| - |r|..]
      && (forall k :: 0 <= k < |s| - |r| ==> IsSpace(s[k]))
      && (r != [] ==> !IsSpace(r[0]))
    decreases |s|
  {
    if s != [] && IsSpace(s[0]) {
      TrimStartSpec(s[1..]);
    }
  }

  /** `rstrip` keeps a prefix, drops only whitespace, and stops at the last other character. */
  lemma {:induction false} TrimEndSpec(s: string)
    ensures var r := TrimEnd(s);
      && |r| <= |s| && r == s[..|r|]
      && (forall k :: |r| <= k < |s| ==> IsSpace(s[k]))
      && (r != [] ==> !IsSpace(r[|r| - 1]))
    decreases |s|
  {
    if s != [] && IsSpace(s[|s| - 1]) {
      TrimEndSpec(s[..|s| - 1]);
    }
  }

  /** Lower-casing neither creates nor removes whitespace. */
  lemma LowerCharKeepsSpace(c: char)
    ensures IsSpace(LowerChar(c)) <==> IsSpace(c)
  {
  }

  lemma {:induction false} TrimStartLower(s: string)
    ensures TrimStart(Lower(s)) == Lower(TrimStart(s))
    decreases |s|
  {
    if s != [] {
      LowerCharKeepsSpace(s[0]);
      if IsSpace(s[0]) {
        assert Lower(s)[1..] == Lower(s[1..]);
        TrimStartLower(s[1..]);
      }
    }
  }

  lemma {:induction false} TrimEndLower(s: string)
    ensures TrimEnd(Lower(s)) == Lower(TrimEnd(s))
    decreases |s|
  {
    if s != [] {
      LowerCharKeepsSpace(s[|s| - 1]);
      if IsSpace(s[|s| - 1]) {
        assert Lower(s)[..|s| - 1] == Lower(s[..|s| - 1]);
        TrimEndLower(s[..|s| - 1]);
      }
    }
  }

  /**
   * `x.lower().strip()` and `x.strip().lower()` agree, so the index keys built
   * one way are found by queries normalised the other way.
   */
  lemma {:induction false} StripLowerCommute(s: string)
    ensures Strip(Lower(s)) == Lower(Strip(s))
  {
    TrimStartLower(s);
    TrimEndLower(TrimStart(s));
  }

  /* ---------------- splitlines ---------------- */

  /** The line boundaries of Python's `str.splitlines()`. */
  predicate IsLineBreak(c: char) {
    var n := c as int;
    || 0x0A <= n <= 0x0D
    || 0x1C <= n <= 0x1E
    || n == 0x85 || n == 0x2028 || n == 0x2029
  }

  /** One line of a text: its content and the boundary that ended it ("" for an unterminated last line). */
  datatype Line = Line(text: string, ending: string)

  /** Index of the first line boundary at or after `from`, or `|s|` when there is none. */
  function NextBreak(s: string, from: nat): (i: nat)
    requires from <= |s|
    ensures from <= i <= |s|
    ensures i < |s| ==> IsLineBreak(s[i])
    decreases |s| - from
  {
    if from == |s| || IsLineBreak(s[from]) then from else NextBreak(s, from + 1)
  }

  /** No boundary comes before the next one. */
  lemma {:induction false} NextBreakIsFirst(s: string, from: nat)
    requires from <= |s|
    ensures forall k :: from <= k < NextBreak(s, from) ==> !IsLineBreak(s[k])
    decreases |s| - from
  {
    if from < |s| && !IsLineBreak(s[from]) {
      NextBreakIsFirst(s, from + 1);
    }
  }

  /** Length of the boundary at `s[i]`: "\r\n" counts as one boundary of two characters. */
  function BreakWidth(s: string, i: nat): (w: nat)
    requires i < |s|
    ensures 1 <= w <= 2 && i + w <= |s|
  {
    if s[i] == '\r' && i + 1 < |s| && s[i + 1] == '\n' then 2 else 1
  }

  /** The lines of `s[from..]`, each split into content and boundary. */
  function LinesFrom(s: string, from: nat): seq<Line>
    requires from <= |s|
    decreases |s| - from
  {
    if from == |s| then []
    else
      var i := NextBreak(s, from);
      if i == |s| then [Line(s[from..], "")]
      else
        var w := BreakWidth(s, i);
        [Line(s[from..i], s[i..i + w])] + LinesFrom(s, i + w)
  }

  /** `s.splitlines(keepends=True)`, each piece split into content and boundary. */
  function Lines(s: string): seq<Line> {
    LinesFrom(s, 0)
  }

  /** `len(s.splitlines())`. */
  function LineCount(s: string): nat {
    |Lines(s)|
  }

  /** Concatenation of the lines with their boundaries kept. */
  function Join(ls: seq<Line>): string {
    if ls == [] then [] else ls[0].text + ls[0].ending + Join(ls[1..])
  }

  predicate NoBreak(t: string) {
    forall k :: 0 <= k < |t| ==> !IsLineBreak(t[k])
  }

  predicate ValidEnding(e: string) {
    e == "\r\n" || (|e| == 1 && IsLineBreak(e[0]))
  }

  /** Line `j` of `ls` is well formed: its content holds no boundary and only the last line may be unterminated. */
  predicate WellFormedLine(ls: seq<Line>, j: int)
    requires 0 <= j < |ls|
  {
    && NoBreak(ls[j].text)
    && (ValidEnding(ls[j].ending) || (j == |ls| - 1 && ls[j].ending == "" && ls[j].text != ""))
  }

  /**
   * What it means to be the line split of a text: every line is well formed
   * and a lone "\r" is never followed by an empty "\n"-terminated line (that
   * pair would have been the single boundary "\r\n").
   */
  predicate WellSplit(ls: seq<Line>) {
    && (forall j :: 0 <= j < |ls| ==> WellFormedLine(ls, j))
    && (forall j :: 0 <= j < |ls| - 1 ==> CrLfKept(ls, j))
  }

  /** Line `j` does not end on a lone "\r" that the next line's "\n" should have joined. */
  predicate CrLfKept(ls: seq<Line>, j: int)
    requires 0 <= j < |ls| - 1
  {
    ls[j].ending == "\r" ==> ls[j + 1] != Line("", "\n")
  }

  lemma JoinCons(l: Line, rest: seq<Line>)
    ensures Join([l] + rest) == l.text + l.ending + Join(rest)
  {
    assert ([l] + rest)[1..] == rest;
  }

  lemma SliceJoin(s: string, a: nat, b: nat, c: nat)
    requires a <= b <= c <= |s|
    ensures s[a..b] + s[b..c] == s[a..c]
  {
  }

  lemma SuffixJoin(s: string, a: nat, b: nat)
    requires a <= b <= |s|
    ensures s[a..b] + s[b..] == s[a..]
  {
  }

  lemma JoinSingle(t: string)
    ensures Join([Line(t, "")]) == t
  {
    JoinCons(Line(t, ""), []);
    assert [Line(t, "")] + [] == [Line(t, "")];
  }

  /** One step of the round trip: a line cut at `[from, i)` with boundary `[i, j)`, then text that joins back to `s[j..]`. */
  lemma JoinStep(s: string, from: nat, i: nat, j: nat, rest: seq<Line>)
    requires from <= i <= j <= |s|
    requires Join(rest) == s[j..]
    ensures Join([Line(s[from..i], s[i..j])] + rest) == s[from..]
  {
    JoinCons(Line(s[from..i], s[i..j]), rest);
    SliceJoin(s, from, i, j);
    SuffixJoin(s, from, j);
  }

  lemma {:induction false} JoinLinesFrom(s: string, from: nat)
    requires from <= |s|
    ensures Join(LinesFrom(s, from)) == s[from..]
    decreases |s| - from
  {
    if from == |s| {
      assert s[from..] == [];
    } else {
      var i := NextBreak(s, from);
      if i < |s| {
        var j := i + BreakWidth(s, i);
        assert LinesFrom(s, from) == [Line(s[from..i], s[i..j])] + LinesFrom(s, j);
        JoinLinesFrom(s, j);
        JoinStep(s, from, i, j, LinesFrom(s, j));
      } else {
        assert LinesFrom(s, from) == [Line(s[from..], "")];
        JoinSingle(s[from..]);
      }
    }
  }

  /** The split loses nothing: joining the lines with their boundaries gives the text back. */
  lemma LinesRoundTrip(s: string)
    ensures Join(Lines(s)) == s
  {
    JoinLinesFrom(s, 0);
  }

  lemma {:induction false} LinesFromWellFormed(s: string, from: nat)
    requires from <= |s|
    ensures forall j :: 0 <= j < |LinesFrom(s, from)| ==> WellFormedLine(LinesFrom(s, from), j)
    decreases |s| - from
  {
    if from < |s| {
      var i := NextBreak(s, from);
      NextBreakIsFirst(s, from);
      var ls := LinesFrom(s, from);
      assert NoBreak(ls[0].text);
      if i < |s| {
        var w := BreakWidth(s, i);
        var rest := LinesFrom(s, i + w);
        assert ls[1..] == rest;
        LinesFromWellFormed(s, i + w);
        assert ValidEnding(ls[0].ending);
        forall j | 0 <= j < |ls|
          ensures WellFormedLine(ls, j)
        {
          if j > 0 {
            assert ls[j] == rest[j - 1];
            assert WellFormedLine(rest, j - 1);
          }
        }
      }
    }
  }

  /** The first line of a non-empty `s[from..]` starts at `s[from]`. */
  lemma LinesFromHead(s: string, from: nat)
    requires from < |s| && s[from] != '\n'
    ensures LinesFrom(s, from) != [] && LinesFrom(s, from)[0] != Line("", "\n")
  {
    var i := NextBreak(s, from);
    if i == from && i < |s| {
      var w := BreakWidth(s, i);
      assert LinesFrom(s, from)[0].ending == s[i..i + w];
      assert s[i..i + w][0] == s[from];
    }
  }

  lemma {:induction false} LinesFromKeepCrLf(s: string, from: nat)
    requires from <= |s|
    ensures forall j :: 0 <= j < |LinesFrom(s, from)| - 1 ==> CrLfKept(LinesFrom(s, from), j)
    decreases |s| - from
  {
    if from < |s| {
      var i := NextBreak(s, from);
      if i < |s| {
        var w := BreakWidth(s, i);
        var ls := LinesFrom(s, from);
        var rest := LinesFrom(s, i + w);
        assert ls[1..] == rest;
        LinesFromKeepCrLf(s, i + w);
        forall j | 0 <= j < |ls| - 1
          ensures CrLfKept(ls, j)
        {
          if j == 0 {
            if ls[0].ending == "\r" {
              assert s[i..i + w] == "\r";
              assert w == 1 && s[i + 1] != '\n';
              LinesFromHead(s, i + w);
            }
          } else {
            assert CrLfKept(rest, j - 1);
            assert ls[j] == rest[j - 1];
            assert ls[j + 1] == rest[j];
          }
        }
      }
    }
  }

  /** The split has the shape `splitlines` promises. */
  lemma LinesWellSplit(s: string)
    ensures WellSplit(Lines(s))
  {
    LinesFromWellFormed(s, 0);
    LinesFromKeepCrLf(s, 0);
  }

  /** The empty text has no lines, and a text with no boundary is a single line. */
  lemma LineCountNoBreak(s: string)
    requires NoBreak(s)
    ensures LineCount(s) == (if s == [] then 0 else 1)
  {
  }
}
