/** Echo's message handling: the chat turn record, extracting a Python code
    block from an assistant reply, formatting the result of running the code
    as the next user turn, and the rule that decides whether the code runs. */
module Echo {
  import opened PyStr
  import opened TextWrap

  /** The speaker of a chat turn. The program only ever uses these three. */
  datatype Role = System | User | Assistant

  /** A chat turn; a turn built without a role is the user's. */
  datatype Message = Message(content: string, role: Role := User)

  /** The system prompt that opens every conversation. */
  const PythonCodeBlock: string := "```python"
  const CodeBlock: string := "```"

  /** The line that opens a code block, and the line that closes one. */
  const Opener: string := PythonCodeBlock + "\n"
  const Closer: string := CodeBlock + "\n"

  /** The system prompt that opens every conversation: an introduction, an
      example block between an opening and a closing fence, and the rules. */
  const Prompt: string := PromptIntro + Opener + PromptExample + Closer + PromptRules

  const PromptIntro: string :=
    "Your Name is Echo.\n\n"
    + "To better answer questions you are equipped with the ability to generate\n"
    + "and execute python code. The user will decide whether to execute the code.\n\n"
    + "The code has to be given in markdown code blocks of the form:\n\n"
  const PromptExample: string := "# code goes here\n"
  const PromptRules: string :=
    "\n"
    + "Only write python code if you want to execute it.\n"
    + "Make your answer as brief as possible.\n"
    + "Unless absolutely necessary say nothing else than the code.\n"

  /** A turn built from its text alone is the user's and keeps the text. */
  lemma MessageDefaultRole(content: string)
    ensures Message(content).role == User && Message(content).content == content
    ensures Message(content) != Message(content, Assistant) && Message(content) != Message(content, System)
  {
  }

  /** The prompt opens with the assistant's name and shows the model the
      block form that the reply parser looks for: an opening fence line and a
      closing fence line. */
  lemma PromptShowsFences()
    ensures Contains(Prompt, Opener) && Contains(Prompt, Closer)
  {
    Regroup5(PromptIntro, Opener, PromptExample, Closer, PromptRules);
    OccursAtSeam(PromptIntro, Opener, PromptExample + Closer + PromptRules);
    OccursAtSeam(PromptIntro + Opener + PromptExample, Closer, PromptRules);
  }

  // ---------------------------------------------------------------------------
  // Extracting the code block

  /** The code of the first Python block in a reply, or `None` when the reply
      has no opening fence. A newline is added to the reply first, so that a
      closing fence on the last line is recognised; a block that is never
      closed runs to the end of the reply (or to the next opening fence). */
  function ParseCode(message: Message): (code: Option<string>)
    ensures code.None? <==> !Contains(message.content + "\n", Opener)
    ensures code.Some? ==> !Contains(code.value, Opener) && !Contains(code.value, Closer)
  {
    var content := message.content + "\n";
    var pieces := Split(content, Opener);
    SplitFirst(content, Opener);
    if |pieces| < 2 then None
    else
      var block := pieces[1];
      SplitPiecesFree(content, Opener);
      assert !Contains(block, Opener);
      SplitFirst(block, Closer);
      var code := Split(block, Closer)[0];
      NoOccurrenceInPrefix(code, block, Opener);
      Some(code)
  }

  /** After the first opening fence, the code is that text cut at the next
      opening fence and then at the first closing fence. */
  lemma ParseCodeAfter(message: Message, pre: string, after: string)
    requires message.content + "\n" == pre + Opener + after && !Contains(pre, Opener)
    ensures ParseCode(message) == Some(Cut(Cut(after, Opener), Closer))
  {
    var content := message.content + "\n";
    FirstOccurrenceAfter(pre, Opener, after);
    SplitSecond(content, Opener, |pre|);
    assert content[|pre| + |Opener|..] == after;
    SplitFirst(Cut(after, Opener), Closer);
  }

  /** Whatever follows the first opening fence, the code is the longest part
      of it that holds no fence: it stops at the first closing or opening
      fence, or at the end of the reply. */
  lemma ParseCodeBlock(message: Message, pre: string, after: string)
    requires message.content + "\n" == pre + Opener + after && !Contains(pre, Opener)
    ensures ParseCode(message).Some?
    ensures ParseCode(message).value <= after
    ensures var code := ParseCode(message).value;
      code == after || OccursAt(after, Opener, |code|) || OccursAt(after, Closer, |code|)
  {
    ParseCodeAfter(message, pre, after);
    var block := Cut(after, Opener);
    var code := Cut(block, Closer);
    if Contains(block, Closer) {
      assert OccursAt(block, Closer, |code|);
      assert after[|code|..|code| + |Closer|] == block[|code|..|code| + |Closer|];
    }
  }

  /** No opening fence starts before the end of a closing fence that follows
      fence-free text: the two fences cannot overlap. */
  lemma OpenerNotBefore(body: string, post: string)
    requires !Contains(body, Opener)
    ensures forall j: nat :: j < |body| + |Closer| ==> !OccursAt(body + Closer + post, Opener, j)
  {
    var s := body + Closer + post;
    forall j: nat | j < |body| + |Closer| ensures !OccursAt(s, Opener, j) {
      if j + |Opener| <= |s| {
        if j + |Opener| <= |body| {
          assert s[j..j + |Opener|] == body[j..j + |Opener|];
          assert !OccursAt(body, Opener, j);
        } else if j + 9 < |body| + 3 {
          assert s[j + 9] == '`';
          assert s[j..j + |Opener|][9] != Opener[9];
        } else if j + 9 == |body| + 3 {
          assert s[j + 6] == '`';
          assert s[j..j + |Opener|][6] != Opener[6];
        } else {
          var t := |body| + 3 - j;
          assert s[|body| + 3] == '\n';
          assert s[j..j + |Opener|][t] != Opener[t];
        }
      }
    }
  }

  /** A well-formed block: the code is exactly the text between the first
      opening fence and the closing fence after it. */
  lemma ParseCodeWellFormed(message: Message, pre: string, body: string, post: string)
    requires message.content + "\n" == pre + Opener + body + Closer + post
    requires !Contains(pre, Opener) && !Contains(body, Opener) && !Contains(body, Closer)
    ensures ParseCode(message) == Some(body)
  {
    var after := body + Closer + post;
    assert message.content + "\n" == pre + Opener + after;
    ParseCodeAfter(message, pre, after);
    BlockKeepsBody(body, post);
  }

  /** Cutting `body + Closer + post` at the next opening fence keeps the body
      and its closing fence, so the closing fence then cuts out the body. */
  lemma BlockKeepsBody(body: string, post: string)
    requires !Contains(body, Opener) && !Contains(body, Closer)
    ensures Cut(Cut(body + Closer + post, Opener), Closer) == body
  {
    var after := body + Closer + post;
    var block := Cut(after, Opener);
    OpenerNotBefore(body, post);
    assert |block| >= |body| + |Closer|;
    var rest := block[|body| + |Closer|..];
    assert block == body + Closer + rest;
    CutAt(body, Closer, rest);
  }

  /** A closing fence on the last line of the reply, with no newline after it,
      still closes the block. */
  lemma ParseCodeFenceAtEnd(message: Message, pre: string, body: string)
    requires message.content == pre + Opener + body + CodeBlock
    requires !Contains(pre, Opener) && !Contains(body, Opener) && !Contains(body, Closer)
    ensures ParseCode(message) == Some(body)
  {
    assert message.content + "\n" == pre + Opener + body + Closer + "";
    ParseCodeWellFormed(message, pre, body, "");
  }

  /** A block that is never closed runs to the next opening fence, or to the
      end of the reply including the added newline: it is not rejected. */
  lemma ParseCodeUnclosed(message: Message, pre: string, rest: string)
    requires message.content + "\n" == pre + Opener + rest
    requires !Contains(pre, Opener) && !Contains(rest, Closer)
    ensures ParseCode(message) == Some(Cut(rest, Opener))
    ensures !Contains(rest, Opener) ==> ParseCode(message) == Some(rest)
  {
    ParseCodeAfter(message, pre, rest);
    NoOccurrenceInPrefix(Cut(rest, Opener), rest, Closer);
  }

  /** Text without a backtick holds no fence. */
  lemma NoFence(s: string)
    requires forall i :: 0 <= i < |s| ==> s[i] != '`'
    ensures !Contains(s, Opener) && !Contains(s, Closer)
  {
    MissingChar(s, Opener);
    MissingChar(s, Closer);
  }

  /** The example reply below, in its three parts. */
  lemma ExampleReplyParts()
    ensures "Sure:\n```python\nprint(2+2)\n```" == "Sure:\n" + Opener + "print(2+2)\n" + CodeBlock
    ensures !Contains("Sure:\n", Opener)
    ensures !Contains("print(2+2)\n", Opener) && !Contains("print(2+2)\n", Closer)
  {
    NoFence("Sure:\n");
    NoFence("print(2+2)\n");
  }

  /** A reply with a block in the form the system prompt asks for. */
  lemma ParseCodeExample()
    ensures ParseCode(Message("Sure:\n```python\nprint(2+2)\n```", Assistant)) == Some("print(2+2)\n")
  {
    ExampleReplyParts();
    ParseCodeFenceAtEnd(Message("Sure:\n```python\nprint(2+2)\n```", Assistant), "Sure:\n", "print(2+2)\n");
  }

  /** The fences are found anywhere, not only on lines of their own: an
      opening fence after text on its line still opens the block. */
  lemma ParseCodeOpenerMidLine()
    ensures ParseCode(Message("Here: ```python\nx = 1\n```", Assistant)) == Some("x = 1\n")
  {
    NoFence("Here: ");
    NoFence("x = 1\n");
    assert "Here: ```python\nx = 1\n```" == "Here: " + Opener + "x = 1\n" + CodeBlock;
    ParseCodeFenceAtEnd(Message("Here: ```python\nx = 1\n```", Assistant), "Here: ", "x = 1\n");
  }

  /** A closing fence right after the code, on the code's own line, still
      ends the block. */
  lemma ParseCodeCloserMidLine()
    ensures ParseCode(Message("```python\nx = 1```\nmore", Assistant)) == Some("x = 1")
  {
    NoFence("");
    NoFence("x = 1");
    assert "```python\nx = 1```\nmore" + "\n" == "" + Opener + "x = 1" + Closer + "more\n";
    ParseCodeWellFormed(Message("```python\nx = 1```\nmore", Assistant), "", "x = 1", "more\n");
  }

  /** A reply without a block has no code. */
  lemma ParseCodeNoBlock()
    ensures ParseCode(Message("Hello!", Assistant)) == None
  {
    NoFence("Hello!\n");
  }

  // ---------------------------------------------------------------------------
  // Formatting the result of running the code

  /** The four spaces that the reply template carries in front of each line. */
  const Margin4: string := "    "

  const Intro: string := "the code returned:"
  const Question: string := "what does this mean " + "with respect to the question?"

  /** One line of the reply template: the margin, the text, a line break. */
  function TemplateLine(text: string): string
  {
    Margin4 + text + "\n"
  }

  /** The reply template with the result filled in, before dedenting: five
      lines (the middle one the result), then the margin alone. */
  function ExecTemplate(result: string): string
  {
    TemplateLine(Intro) + (TemplateLine(CodeBlock) + (TemplateLine(result)
      + (TemplateLine(CodeBlock) + (TemplateLine(Question) + Margin4))))
  }

  /** The user turn that carries the result of running code back to the model. */
  function FormatExecResponse(result: string): (m: Message)
    ensures m.role == User
  {
    Message(Dedent(ExecTemplate(result)), User)
  }

  /** What the turn shows around the result once the margin is gone. */
  const Header: string := Intro + "\n" + CodeBlock + "\n"
  const Footer: string := "\n" + CodeBlock + "\n" + Question + "\n"

  /** How one line of the result appears in the turn: a line with no text
      shows as empty, the first line as it is, and a later line without four
      of its leading spaces. */
  function ShownLine(line: string, first: bool): string
  {
    if !HasText(line) then "" else if first then line else Strip(line, Margin4)
  }

  /** The lines of the result as the turn shows them. */
  function ShownLines(result: string): (shown: seq<string>)
    ensures |shown| == |Split(result, "\n")|
  {
    var lines := Split(result, "\n");
    seq(|lines|, i requires 0 <= i < |lines| => ShownLine(lines[i], i == 0))
  }

  /** The result as the turn shows it. */
  function ShownResult(result: string): string
  {
    Join(ShownLines(result), "\n")
  }

  /** Every later line of the result that has text starts with four spaces. */
  predicate ContinuationIndented(result: string)
  {
    var lines := Split(result, "\n");
    forall i :: 1 <= i < |lines| && HasText(lines[i]) ==> Margin4 <= lines[i]
  }

  lemma TemplateTextsSingleLine()
    ensures SingleLine(Margin4) && SingleLine(Intro) && SingleLine(CodeBlock) && SingleLine(Question)
  {
    assert SingleLine("what does this mean ");
    assert SingleLine("with respect to the question?");
  }

  /** The first line of a template followed by more text is split off whole. */
  lemma TemplateLineSplit(text: string, rest: string)
    requires SingleLine(text)
    ensures Split(TemplateLine(text) + rest, "\n") == [Margin4 + text] + Split(rest, "\n")
  {
    TemplateTextsSingleLine();
    SingleLineNoBreak(Margin4 + text);
    SplitAfterPiece(Margin4 + text, rest, "\n");
  }

  /** The margin in front of a text joins its first line. */
  lemma MarginedSplit(result: string)
    ensures var lines := Split(result, "\n");
      Split(Margin4 + result, "\n") == [Margin4 + lines[0]] + lines[1..]
  {
    var lines := Split(result, "\n");
    var shifted := [Margin4 + lines[0]] + lines[1..];
    SplitJoin(result, "\n");
    JoinPrefixFirst(Margin4, lines, "\n");
    SplitPiecesFree(result, "\n");
    TemplateTextsSingleLine();
    SingleLineNoBreak(lines[0]);
    SingleLineNoBreak(Margin4 + lines[0]);
    assert forall i :: 0 <= i < |shifted| ==> !Contains(shifted[i], "\n") by {
      forall i | 0 <= i < |shifted| ensures !Contains(shifted[i], "\n") {
        if i > 0 {
          assert shifted[i] == lines[i];
        }
      }
    }
    JoinSplit(shifted, "\n");
  }

  /** The lines of the filled-in template: the result's first line carries the
      margin, its later lines do not. */
  lemma TemplateLines(result: string)
    ensures var lines := Split(result, "\n");
      Split(ExecTemplate(result), "\n")
        == [Margin4 + Intro] + ([Margin4 + CodeBlock] + (([Margin4 + lines[0]] + lines[1..])
           + ([Margin4 + CodeBlock] + ([Margin4 + Question] + [Margin4]))))
  {
    TemplateTextsSingleLine();
    SingleLineNoBreak(Margin4);
    SplitAfterPiece(Margin4, "", "\n");
    TemplateLineSplit(Question, Margin4);
    var tail := TemplateLine(CodeBlock) + (TemplateLine(Question) + Margin4);
    TemplateLineSplit(CodeBlock, TemplateLine(Question) + Margin4);
    SplitConcat(Margin4 + result, tail, "\n");
    MarginedSplit(result);
    TemplateLineSplit(CodeBlock, TemplateLine(result) + tail);
    TemplateLineSplit(Intro, TemplateLine(CodeBlock) + (TemplateLine(result) + tail));
  }

  /** Positions in a list of two items, a middle part and three items. */
  lemma FramedAt<T>(a: T, b: T, middle: seq<T>, e: T, f: T, g: T)
    ensures var x := [a] + ([b] + (middle + ([e] + ([f] + [g]))));
      |x| == |middle| + 5 && x[0] == a && x[1] == b
      && x[|middle| + 2] == e && x[|middle| + 3] == f && x[|middle| + 4] == g
      && forall i :: 0 <= i < |middle| ==> x[i + 2] == middle[i]
  {
  }

  /** The lines of the filled-in template, position by position. */
  lemma TemplateLineAt(result: string)
    ensures var parts, lines := Split(result, "\n"), Split(ExecTemplate(result), "\n");
      var n := |parts|;
      |lines| == n + 5
      && lines[0] == Margin4 + Intro && lines[1] == Margin4 + CodeBlock
      && lines[2] == Margin4 + parts[0]
      && (forall i :: 1 <= i < n ==> lines[i + 2] == parts[i])
      && lines[n + 2] == Margin4 + CodeBlock && lines[n + 3] == Margin4 + Question
      && lines[n + 4] == Margin4
  {
    TemplateLines(result);
    FramedLines(Split(ExecTemplate(result), "\n"), Split(result, "\n"),
      Margin4 + Intro, Margin4 + CodeBlock, Margin4 + CodeBlock, Margin4 + Question, Margin4, Margin4);
  }

  /** Positions in a list of lines framing a block whose first line carries a margin. */
  lemma FramedLines(lines: seq<string>, parts: seq<string>, a: string, b: string, e: string, f: string, g: string, m: string)
    requires |parts| >= 1
    requires lines == [a] + ([b] + (([m + parts[0]] + parts[1..]) + ([e] + ([f] + [g]))))
    ensures var n := |parts|;
      |lines| == n + 5 && lines[0] == a && lines[1] == b && lines[2] == m + parts[0]
      && (forall i :: 1 <= i < n ==> lines[i + 2] == parts[i])
      && lines[n + 2] == e && lines[n + 3] == f && lines[n + 4] == g
  {
    var middle := [m + parts[0]] + parts[1..];
    FramedAt(a, b, middle, e, f, g);
    assert forall i :: 1 <= i < |parts| ==> middle[i] == parts[i];
  }

  /** The texts of the template lines start with something other than a space. */
  lemma TemplateTextsHaveText()
    ensures Indent(Intro) == [] && HasText(Intro) && HasText(CodeBlock) && HasText(Question)
    ensures AllIndent(Margin4) && !HasText(Margin4)
  {
    IndentPrefix(Margin4, "");
    assert Margin4 + "" == Margin4;
  }

  /** Each line of the filled-in template that has text starts with the
      margin, when the result keeps it. */
  lemma TemplateMarginAt(result: string, i: nat)
    requires ContinuationIndented(result)
    requires i < |Split(ExecTemplate(result), "\n")| && HasText(Split(ExecTemplate(result), "\n")[i])
    ensures Margin4 <= Split(ExecTemplate(result), "\n")[i]
  {
    if 2 <= i < |Split(result, "\n")| + 2 {
      ResultLineAt(result, i - 2);
    } else {
      TemplateTextAt(result, i);
    }
  }

  /** The first line of the filled-in template has the margin as its indent,
      and every line with text starts with the margin, when the result keeps it. */
  lemma TemplateMargin(result: string)
    requires ContinuationIndented(result)
    ensures var lines := Split(ExecTemplate(result), "\n");
      |lines| >= 1 && HasText(lines[0]) && Indent(lines[0]) == Margin4
      && forall i :: 0 <= i < |lines| && HasText(lines[i]) ==> Margin4 <= lines[i]
  {
    var lines := Split(ExecTemplate(result), "\n");
    TemplateLineAt(result);
    TemplateTextsHaveText();
    IndentPrefix(Margin4, Intro);
    forall i | 0 <= i < |lines| && HasText(lines[i]) ensures Margin4 <= lines[i] {
      TemplateMarginAt(result, i);
    }
  }

  /** The lines of the turn: the template texts around the shown result,
      and an empty last line. */
  function TurnLines(result: string): seq<string>
  {
    [Intro] + ([CodeBlock] + (ShownLines(result) + ([CodeBlock] + ([Question] + [""]))))
  }

  /** Each line of the turn is the matching template line without its margin,
      or empty when that line has no text. */
  lemma TurnLineAt(result: string, i: nat)
    requires ContinuationIndented(result)
    requires i < |Split(ExecTemplate(result), "\n")|
    ensures var line := Split(ExecTemplate(result), "\n")[i];
      i < |TurnLines(result)|
      && (HasText(line) ==> Margin4 <= line && TurnLines(result)[i] == line[|Margin4|..])
      && (!HasText(line) ==> TurnLines(result)[i] == "")
  {
    if 2 <= i < |Split(result, "\n")| + 2 {
      ResultLineAt(result, i - 2);
      ShownLineAt(result, i - 2);
    } else {
      TemplateTurnLineAt(result, i);
    }
  }

  /** Where line `k` of the result lands in the filled-in template and in the turn. */
  lemma ResultLineAt(result: string, k: nat)
    requires k < |Split(result, "\n")|
    ensures var parts, lines := Split(result, "\n"), Split(ExecTemplate(result), "\n");
      k + 2 < |lines| && k + 2 < |TurnLines(result)|
      && lines[k + 2] == (if k == 0 then Margin4 + parts[0] else parts[k])
      && TurnLines(result)[k + 2] == ShownLines(result)[k]
  {
    TemplateLineAt(result);
    FramedAt(Intro, CodeBlock, ShownLines(result), CodeBlock, Question, "");
  }

  /** `TurnLineAt` for the lines of the template itself. */
  lemma TemplateTurnLineAt(result: string, i: nat)
    requires i < |Split(ExecTemplate(result), "\n")|
    requires i < 2 || |Split(result, "\n")| + 2 <= i
    ensures var line := Split(ExecTemplate(result), "\n")[i];
      i < |TurnLines(result)|
      && (HasText(line) ==> Margin4 <= line && TurnLines(result)[i] == line[|Margin4|..])
      && (!HasText(line) ==> TurnLines(result)[i] == "")
  {
    var text := TemplateText(|Split(result, "\n")|, i);
    TemplateTextAt(result, i);
    TemplateTextsHaveText();
    MarginedTurnLine(Split(ExecTemplate(result), "\n")[i], text);
  }

  /** The text of line `i` of the template around a result of `n` lines,
      outside the result. */
  function TemplateText(n: nat, i: nat): string
  {
    if i == 0 then Intro else if i == 1 || i == n + 2 then CodeBlock
    else if i == n + 3 then Question else ""
  }

  /** A line of the filled-in template outside the result is its text behind
      the margin, and the turn shows the text. */
  lemma TemplateTextAt(result: string, i: nat)
    requires i < |Split(ExecTemplate(result), "\n")|
    requires i < 2 || |Split(result, "\n")| + 2 <= i
    ensures var text := TemplateText(|Split(result, "\n")|, i);
      Split(ExecTemplate(result), "\n")[i] == Margin4 + text
      && i < |TurnLines(result)| && TurnLines(result)[i] == text
  {
    TemplateLineAt(result);
    FramedAt(Intro, CodeBlock, ShownLines(result), CodeBlock, Question, "");
    assert Margin4 + "" == Margin4;
  }

  /** A template line is its text behind the margin; the turn shows the text. */
  lemma MarginedTurnLine(line: string, text: string)
    requires line == Margin4 + text
    requires HasText(text) || text == ""
    ensures HasText(line) ==> Margin4 <= line && text == line[|Margin4|..]
    ensures !HasText(line) ==> text == ""
  {
    MarginedText(text);
  }

  /** How the line of the filled-in template that holds line `k` of the result
      shows in the turn. */
  lemma ShownLineAt(result: string, k: nat)
    requires ContinuationIndented(result)
    requires k < |Split(result, "\n")|
    ensures var parts := Split(result, "\n");
      var line := if k == 0 then Margin4 + parts[0] else parts[k];
      (HasText(line) ==> Margin4 <= line && ShownLines(result)[k] == line[|Margin4|..])
      && (!HasText(line) ==> ShownLines(result)[k] == "")
  {
    var parts := Split(result, "\n");
    assert ShownLines(result)[k] == ShownLine(parts[k], k == 0);
    if k == 0 {
      MarginedText(parts[0]);
    }
  }

  /** A text behind the margin: it has text as the text does, and removing the
      margin gives the text back. */
  lemma MarginedText(text: string)
    ensures HasText(Margin4 + text) <==> HasText(text)
    ensures Margin4 <= Margin4 + text && (Margin4 + text)[|Margin4|..] == text
  {
    TemplateTextsHaveText();
    IndentPrefix(Margin4, text);
  }

  lemma TurnLinesLength(result: string)
    ensures |TurnLines(result)| == |Split(ExecTemplate(result), "\n")|
  {
    TemplateLineAt(result);
    FramedAt(Intro, CodeBlock, ShownLines(result), CodeBlock, Question, "");
  }

  /** Dedenting the filled-in template, when the result keeps the margin,
      gives the lines of the turn. */
  lemma DedentedTemplate(result: string)
    requires ContinuationIndented(result)
    ensures DedentLines(Split(ExecTemplate(result), "\n")) == TurnLines(result)
  {
    var lines := Split(ExecTemplate(result), "\n");
    var turn := TurnLines(result);
    TurnLinesLength(result);
    TemplateMargin(result);
    DedentWithMargin(lines, Margin4);
    forall i | 0 <= i < |lines| ensures DedentLines(lines)[i] == turn[i] {
      TurnLineAt(result, i);
    }
  }

  /** Re-grouping the dedented lines into the header, the result and the footer. */
  lemma AroundResult(intro: string, fence: string, middle: string, question: string)
    ensures intro + "\n" + (fence + "\n" + (middle + "\n" + (fence + "\n" + (question + "\n" + ""))))
      == (intro + "\n" + fence + "\n") + middle + ("\n" + fence + "\n" + question + "\n")
  {
  }

  /** Joining the dedented lines gives the header, the shown result and the footer. */
  lemma JoinDedented(middle: seq<string>)
    requires |middle| >= 1
    ensures Join([Intro] + ([CodeBlock] + (middle + ([CodeBlock] + ([Question] + [""])))), "\n")
      == Header + Join(middle, "\n") + Footer
  {
    var last := [CodeBlock] + ([Question] + [""]);
    JoinCons(Question, [""], "\n");
    JoinCons(CodeBlock, [Question] + [""], "\n");
    JoinAppend(middle, last, "\n");
    JoinCons(CodeBlock, middle + last, "\n");
    JoinCons(Intro, [CodeBlock] + (middle + last), "\n");
    AroundResult(Intro, CodeBlock, Join(middle, "\n"), Question);
  }

  /** When every later line of the result that has text keeps the four-space
      margin, the turn is the header, the result as `ShownResult` shows it,
      and the footer. */
  lemma FormatExecResponseShown(result: string)
    requires ContinuationIndented(result)
    ensures FormatExecResponse(result).content == Header + ShownResult(result) + Footer
  {
    DedentedTemplate(result);
    JoinDedented(ShownLines(result));
  }

  /** A one-line result with text appears verbatim between the header and the footer. */
  lemma FormatSingleLine(result: string)
    requires SingleLine(result) && HasText(result)
    ensures FormatExecResponse(result).content == Header + result + Footer
  {
    SingleLineNoBreak(result);
    SplitFirst(result, "\n");
    assert Split(result, "\n") == [result];
    assert ShownLines(result) == [result];
    FormatExecResponseShown(result);
  }

  /** A one-line result with no text (such as the empty output of code that
      prints nothing) leaves an empty line between the fences. */
  lemma FormatBlankLine(result: string)
    requires SingleLine(result) && !HasText(result)
    ensures FormatExecResponse(result).content == Header + Footer
  {
    SingleLineNoBreak(result);
    SplitFirst(result, "\n");
    assert Split(result, "\n") == [result];
    assert ShownLines(result) == [""];
    FormatExecResponseShown(result);
    assert Header + "" + Footer == Header + Footer;
  }

  /** The output of a single `print`, one line ending in a newline, appears
      verbatim between the header and the footer. */
  lemma FormatPrintedLine(line: string)
    requires SingleLine(line) && HasText(line)
    ensures FormatExecResponse(line + "\n").content == Header + line + "\n" + Footer
  {
    PrintedLineShown(line);
    var shown := ShownResult(line + "\n");
    assert shown == line + "\n" by {
      JoinCons(line, [""], "\n");
      assert [line, ""] == [line] + [""];
      assert Join([""], "\n") == "";
      assert line + "\n" + "" == line + "\n";
    }
    FormatExecResponseShown(line + "\n");
    assert Header + line + "\n" == Header + (line + "\n");
  }

  /** A line ending in a newline splits into the line and an empty line. */
  lemma PrintedLineShown(line: string)
    requires SingleLine(line) && HasText(line)
    ensures Split(line + "\n", "\n") == [line, ""]
    ensures ContinuationIndented(line + "\n") && ShownLines(line + "\n") == [line, ""]
  {
    SingleLineNoBreak(line);
    MissingChar("", "\n");
    SplitAfterPiece(line, "", "\n");
    SplitAfterPiece("", "", "\n");
    assert line + "\n" == line + "\n" + "";
  }

  /** When a later line of the result has text but not four leading spaces,
      the margin shrinks below four spaces and the turn keeps some of the
      template's indentation: it starts with a space instead of "the code
      returned:". */
  lemma FormatUnindentedContinuation(result: string, j: nat)
    requires 1 <= j < |Split(result, "\n")|
    requires HasText(Split(result, "\n")[j]) && !(Margin4 <= Split(result, "\n")[j])
    ensures |FormatExecResponse(result).content| > 0
    ensures FormatExecResponse(result).content[0] == ' '
  {
    var lines := Split(ExecTemplate(result), "\n");
    UnindentedFirstLine(result, j);
    JoinStartsWithFirst(DedentLines(lines), "\n");
  }

  /** Under the conditions of `FormatUnindentedContinuation`, the first line
      after dedenting still starts with a space. */
  lemma UnindentedFirstLine(result: string, j: nat)
    requires 1 <= j < |Split(result, "\n")|
    requires HasText(Split(result, "\n")[j]) && !(Margin4 <= Split(result, "\n")[j])
    ensures var first := DedentLines(Split(ExecTemplate(result), "\n"))[0];
      |first| > 0 && first[0] == ' '
  {
    TemplateLineOf(result, j);
    MarginShrinks(Split(ExecTemplate(result), "\n"), j + 2);
  }

  /** The first line of the filled-in template, and where a later line of the
      result lands in it. */
  lemma TemplateLineOf(result: string, j: nat)
    requires 1 <= j < |Split(result, "\n")|
    ensures var lines := Split(ExecTemplate(result), "\n");
      j + 2 < |lines| && lines[0] == Margin4 + Intro && lines[j + 2] == Split(result, "\n")[j]
  {
    TemplateLineAt(result);
  }

  /** Lines whose first line is the template's first line, and of which some
      line with text lacks the margin: the first line keeps part of the margin. */
  lemma MarginShrinks(lines: seq<string>, j: nat)
    requires |lines| >= 1 && lines[0] == Margin4 + Intro
    requires j < |lines| && HasText(lines[j]) && !(Margin4 <= lines[j])
    ensures var first := DedentLines(lines)[0];
      |first| > 0 && first[0] == ' '
  {
    FirstTemplateLine();
    DedentWithoutMargin(lines, Margin4, j);
    SpaceInMargin(lines[0], Intro, DedentLines(lines)[0]);
  }

  /** The template's first line has text and the margin as its indent. */
  lemma FirstTemplateLine()
    ensures HasText(Margin4 + Intro) && Indent(Margin4 + Intro) == Margin4 && |Margin4| > 0
  {
    TemplateTextsHaveText();
    IndentPrefix(Margin4, Intro);
    assert Margin4 + [] == Margin4;
  }

  /** A tail of a margined line that is longer than the text behind the
      margin starts inside the margin, with a space. */
  lemma SpaceInMargin(line: string, text: string, tail: string)
    requires line == Margin4 + text
    requires |text| < |tail| <= |line| && tail == line[|line| - |tail|..]
    ensures tail[0] == ' '
  {
    assert tail[0] == line[|line| - |tail|];
  }

  // ---------------------------------------------------------------------------
  // Deciding whether the code runs

  /** What the turn reports when the user declines; it is the message of the
      error that stands in for the result. */
  const DeclinedText: string := "User chose not " + "to execute code."

  /** The answers that let the code run: exactly "y" or "Y". */
  function Approves(answer: string): (ok: bool)
    ensures ok <==> |answer| == 1 && (answer[0] == 'y' || answer[0] == 'Y')
  {
    answer == "y" || answer == "Y"
  }

  /** Asking whether to run the extracted code. `answer` is the line the user
      typed and `execute` stands for running the code and capturing what it
      prints. Gives the turn to add to the chat and whether the user declined. */
  function HandleCode(code: string, answer: string, execute: string -> string): (r: (Message, bool))
    ensures r.0.role == User
    ensures r.1 <==> !Approves(answer)
  {
    if Approves(answer) then (FormatExecResponse(execute(code)), false)
    else (FormatExecResponse(DeclinedText), true)
  }

  /** Declining never runs the code: the outcome is the same whatever running
      it would have done, and the turn reports the refusal. */
  lemma HandleCodeDeclined(code: string, answer: string, execute: string -> string, other: string -> string)
    requires !Approves(answer)
    ensures HandleCode(code, answer, execute) == HandleCode(code, answer, other)
    ensures HandleCode(code, answer, execute).1
    ensures HandleCode(code, answer, execute).0.content == Header + DeclinedText + Footer
  {
    DeclinedTextShown();
  }

  /** Approving runs the code once and reports what it printed: the outcome
      depends on the code only through its output. */
  lemma HandleCodeApproved(code: string, answer: string, execute: string -> string, other: string -> string)
    requires Approves(answer)
    ensures !HandleCode(code, answer, execute).1
    ensures HandleCode(code, answer, execute).0 == FormatExecResponse(execute(code))
    ensures execute(code) == other(code) ==> HandleCode(code, answer, execute) == HandleCode(code, answer, other)
  {
  }

  /** Answers that look like consent but are not exactly "y" or "Y" decline. */
  lemma NearMissesDecline()
    ensures !Approves("yes") && !Approves("") && !Approves("n") && !Approves("y ") && !Approves("YES")
  {
  }

  /** The refusal fits on one line, so it appears verbatim. */
  lemma DeclinedTextShown()
    ensures FormatExecResponse(DeclinedText).content == Header + DeclinedText + Footer
  {
    assert SingleLine(DeclinedText) by {
      assert SingleLine("User chose not ") && SingleLine("to execute code.");
      SingleLineConcat("User chose not ", "to execute code.");
    }
    assert HasText(DeclinedText) by {
      assert Indent(DeclinedText) == [];
    }
    FormatSingleLine(DeclinedText);
  }

  // ---------------------------------------------------------------------------
  // The conversation's first turn and the request sent to the model

  /** A new conversation: the system prompt alone. */
  function InitializeChat(): (chat: seq<Message>)
    ensures |chat| == 1 && chat[0].role == System && chat[0].content == Prompt
  {
    [Message(Prompt, System)]
  }

  /** A turn as sent to the model: content and the role's name. */
  datatype WireMessage = WireMessage(content: string, role: string)

  /** The name a role goes by in a request. */
  function RoleName(role: Role): string
  {
    match role
    case System => "system"
    case User => "user"
    case Assistant => "assistant"
  }

  /** Each role has a name of its own, and the name leads back to the role. */
  lemma RoleNamesDistinct(role: Role, other: Role)
    ensures RoleNamed(RoleName(role)) == Some(role)
    ensures RoleName(role) == RoleName(other) <==> role == other
  {
  }

  /** The role with a given name, if any. */
  function RoleNamed(name: string): (role: Option<Role>)
    ensures role.Some? ==> RoleName(role.value) == name
  {
    if name == "system" then Some(System)
    else if name == "user" then Some(User)
    else if name == "assistant" then Some(Assistant)
    else None
  }

  /** The request's message list, one entry per turn, in order. */
  function Payload(chat: seq<Message>): (wire: seq<WireMessage>)
    ensures |wire| == |chat|
  {
    seq(|chat|, i requires 0 <= i < |chat| => WireMessage(chat[i].content, RoleName(chat[i].role)))
  }

  /** Reading a request's message list back into turns. */
  function FromPayload(wire: seq<WireMessage>): Option<seq<Message>>
    decreases |wire|
  {
    if |wire| == 0 then Some([])
    else match (RoleNamed(wire[0].role), FromPayload(wire[1..]))
      case (Some(role), Some(rest)) => Some([Message(wire[0].content, role)] + rest)
      case _ => None
  }

  /** The request loses nothing: every turn's content, role and position can
      be read back from it. */
  lemma {:induction false} PayloadRoundTrip(chat: seq<Message>)
    ensures FromPayload(Payload(chat)) == Some(chat)
    decreases |chat|
  {
    if |chat| > 0 {
      PayloadRoundTrip(chat[1..]);
      assert Payload(chat)[1..] == Payload(chat[1..]);
      assert RoleNamed(RoleName(chat[0].role)) == Some(chat[0].role);
      assert chat == [Message(chat[0].content, chat[0].role)] + chat[1..];
    }
  }
}
