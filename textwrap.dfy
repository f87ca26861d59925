/** Python's `textwrap.dedent`, which the chat loop applies to its reply
    template. The text is taken line by line (lines end at "\n"):
    - every line made only of spaces and tabs is emptied;
    - the margin is the longest run of leading spaces and tabs that all
      lines with text share;
    - that margin is removed from the front of every line that starts with it. */
module TextWrap {
  import opened PyStr

  predicate IsIndentChar(c: char)
  {
    c == ' ' || c == '\t'
  }

  predicate AllIndent(s: string)
  {
    forall i :: 0 <= i < |s| ==> IsIndentChar(s[i])
  }

  /** The run of spaces and tabs at the front of a line. */
  function Indent(line: string): (r: string)
    ensures r <= line && AllIndent(r)
    ensures |r| < |line| ==> !IsIndentChar(line[|r|])
    decreases |line|
  {
    if |line| > 0 && IsIndentChar(line[0]) then [line[0]] + Indent(line[1..]) else []
  }

  /** A line has text when something other than a space or tab follows its indent. */
  predicate HasText(line: string)
  {
    |Indent(line)| < |line|
  }

  /** A line made only of spaces and tabs becomes empty; others are kept. */
  function Blank(line: string): string
  {
    if HasText(line) then line else ""
  }

  /** The longest common prefix of two strings. */
  function CommonPrefix(a: string, b: string): (r: string)
    ensures r <= a && r <= b
    ensures |r| < |a| && |r| < |b| ==> a[|r|] != b[|r|]
    decreases |a|
  {
    if |a| > 0 && |b| > 0 && a[0] == b[0] then [a[0]] + CommonPrefix(a[1..], b[1..]) else []
  }

  /** The margin of `lines`, folded from the left: `acc` is the margin of the
      lines already seen, `None` while none of them had text. */
  function MarginFrom(acc: Option<string>, lines: seq<string>): Option<string>
    decreases |lines|
  {
    if |lines| == 0 then acc
    else if !HasText(lines[0]) then MarginFrom(acc, lines[1..])
    else
      var indent := Indent(lines[0]);
      MarginFrom(Some(if acc.None? then indent else CommonPrefix(acc.value, indent)), lines[1..])
  }

  /** The margin of a block of lines; empty when no line has text. */
  function Margin(lines: seq<string>): string
  {
    match MarginFrom(None, lines)
    case None => ""
    case Some(m) => m
  }

  /** A line without the margin, if it starts with it. */
  function Strip(line: string, margin: string): string
  {
    if margin != [] && margin <= line then line[|margin|..] else line
  }

  /** `dedent` on the lines of a text. */
  function DedentLines(lines: seq<string>): (r: seq<string>)
    ensures |r| == |lines|
  {
    var blanked := seq(|lines|, i requires 0 <= i < |lines| => Blank(lines[i]));
    var margin := Margin(blanked);
    seq(|blanked|, i requires 0 <= i < |blanked| => Strip(blanked[i], margin))
  }

  /** Python's `textwrap.dedent(text)`. It keeps the line structure of its
      text: the lines of the result are the input's lines, one for one, each
      blanked or with the margin removed. */
  function Dedent(text: string): (r: string)
    ensures Split(r, "\n") == DedentLines(Split(text, "\n"))
  {
    RejoinDedentedLines(text);
    Join(DedentLines(Split(text, "\n")), "\n")
  }

  /** Dedenting only blanks lines or removes their front, so lines without a
      line break stay without one. */
  lemma DedentLinesSingle(lines: seq<string>)
    requires forall i :: 0 <= i < |lines| ==> SingleLine(lines[i])
    ensures forall i :: 0 <= i < |lines| ==> SingleLine(DedentLines(lines)[i])
  {
    var blanked := seq(|lines|, i requires 0 <= i < |lines| => Blank(lines[i]));
    var margin := Margin(blanked);
    forall i | 0 <= i < |lines| ensures SingleLine(DedentLines(lines)[i]) {
      assert DedentLines(lines)[i] == Strip(blanked[i], margin);
      assert SingleLine(blanked[i]);
    }
  }

  /** Joining the dedented lines of a text and splitting the result again
      gives those lines back. */
  lemma RejoinDedentedLines(text: string)
    ensures Split(Join(DedentLines(Split(text, "\n")), "\n"), "\n") == DedentLines(Split(text, "\n"))
  {
    var lines := Split(text, "\n");
    SplitPiecesFree(text, "\n");
    forall i | 0 <= i < |lines| ensures SingleLine(lines[i]) {
      SingleLineNoBreak(lines[i]);
    }
    DedentLinesSingle(lines);
    var out := DedentLines(lines);
    forall i | 0 <= i < |out| ensures !Contains(out[i], "\n") {
      SingleLineNoBreak(out[i]);
    }
    JoinSplit(out, "\n");
  }

  /** A prefix of only spaces and tabs that a line starts with is part of its indent. */
  lemma {:induction false} PrefixOfIndent(p: string, line: string)
    requires AllIndent(p) && p <= line
    ensures p <= Indent(line)
    decreases |p|
  {
    if |p| > 0 {
      assert IsIndentChar(line[0]);
      PrefixOfIndent(p[1..], line[1..]);
    }
  }

  /** Spaces and tabs put in front of a line join its indent. */
  lemma {:induction false} IndentPrefix(p: string, line: string)
    requires AllIndent(p)
    ensures Indent(p + line) == p + Indent(line)
    ensures HasText(p + line) <==> HasText(line)
    decreases |p|
  {
    if |p| == 0 {
      assert p + line == line;
    } else {
      assert (p + line)[1..] == p[1..] + line;
      IndentPrefix(p[1..], line);
      assert [p[0]] + (p[1..] + Indent(line)) == p + Indent(line);
    }
  }

  /** The common prefix of a string and a longer string it starts is the shorter one. */
  lemma {:induction false} CommonPrefixOfPrefix(p: string, q: string)
    requires p <= q
    ensures CommonPrefix(p, q) == p
    decreases |p|
  {
    if |p| > 0 {
      CommonPrefixOfPrefix(p[1..], q[1..]);
    }
  }

  /** Lines that all start with the margin found so far keep it. */
  lemma {:induction false} MarginKept(p: string, lines: seq<string>)
    requires AllIndent(p)
    requires forall i :: 0 <= i < |lines| && HasText(lines[i]) ==> p <= lines[i]
    ensures MarginFrom(Some(p), lines) == Some(p)
    decreases |lines|
  {
    if |lines| > 0 {
      if HasText(lines[0]) {
        PrefixOfIndent(p, lines[0]);
        CommonPrefixOfPrefix(p, Indent(lines[0]));
      }
      MarginKept(p, lines[1..]);
    }
  }

  /** The margin never grows, and every line with text starts with it. */
  lemma {:induction false} MarginBound(p: string, lines: seq<string>)
    ensures MarginFrom(Some(p), lines).Some?
    ensures MarginFrom(Some(p), lines).value <= p
    ensures forall i :: 0 <= i < |lines| && HasText(lines[i]) ==>
      MarginFrom(Some(p), lines).value <= lines[i]
    decreases |lines|
  {
    if |lines| > 0 {
      var next := if HasText(lines[0]) then CommonPrefix(p, Indent(lines[0])) else p;
      MarginBound(next, lines[1..]);
      assert forall i :: 1 <= i < |lines| ==> lines[i] == lines[1..][i - 1];
    }
  }

  /** Blanking keeps a line with text and empties the others. */
  lemma BlankKeepsText(line: string)
    ensures HasText(Blank(line)) <==> HasText(line)
    ensures HasText(line) ==> Blank(line) == line
    ensures !HasText(line) ==> Blank(line) == ""
  {
  }

  /** When the first line with text has indent `p` and every line with text
      starts with `p`, dedenting removes exactly `p` from each line with text
      and empties every other line. */
  lemma DedentWithMargin(lines: seq<string>, p: string)
    requires |lines| >= 1 && HasText(lines[0]) && Indent(lines[0]) == p
    requires forall i :: 0 <= i < |lines| && HasText(lines[i]) ==> p <= lines[i]
    ensures forall i :: 0 <= i < |lines| ==>
      DedentLines(lines)[i] == if HasText(lines[i]) then lines[i][|p|..] else ""
  {
    var blanked := seq(|lines|, i requires 0 <= i < |lines| => Blank(lines[i]));
    forall i | 0 <= i < |lines| ensures HasText(blanked[i]) <==> HasText(lines[i]) {
      BlankKeepsText(lines[i]);
    }
    assert blanked[0] == lines[0];
    MarginKept(p, blanked[1..]);
    assert Margin(blanked) == p;
  }

  /** When some line with text does not start with the first line's indent
      `p` (and `p` is not empty), the margin is shorter than `p`: the first
      line loses less than `p` and keeps at least the last character of it. */
  lemma DedentWithoutMargin(lines: seq<string>, p: string, j: nat)
    requires |lines| >= 1 && HasText(lines[0]) && Indent(lines[0]) == p && |p| > 0
    requires j < |lines| && HasText(lines[j]) && !(p <= lines[j])
    ensures |lines[0]| - |p| < |DedentLines(lines)[0]| <= |lines[0]|
    ensures DedentLines(lines)[0] == lines[0][|lines[0]| - |DedentLines(lines)[0]|..]
  {
    var blanked := seq(|lines|, i requires 0 <= i < |lines| => Blank(lines[i]));
    BlankKeepsText(lines[0]);
    BlankKeepsText(lines[j]);
    assert blanked[0] == lines[0] && blanked[j] == lines[j];
    MarginBound(p, blanked[1..]);
    var m := Margin(blanked);
    assert m <= p;
    if j > 0 {
      assert blanked[1..][j - 1] == lines[j];
    }
    assert m <= lines[j];
    assert |m| < |p|;
    assert DedentLines(lines)[0] == lines[0][|m|..];
  }
}
