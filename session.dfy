/** The chat loop: the conversation list that `main` and `reply` grow in
    place, the streamed reply glued together fragment by fragment, and the
    whole session as the list of turns it leaves behind. */
module Session {
  import opened PyStr
  import opened TextWrap
  import opened Echo

  /** The streamed fragments of a reply glued together in arrival order. */
  function Concat(fragments: seq<string>): (text: string)
    ensures forall i :: 0 <= i < |fragments| ==> |fragments[i]| <= |text|
    decreases |fragments|
  {
    if |fragments| == 0 then "" else Concat(fragments[..|fragments| - 1]) + fragments[|fragments| - 1]
  }

  /** Gluing two runs of fragments one after the other. */
  lemma {:induction false} ConcatAppend(a: seq<string>, b: seq<string>)
    ensures Concat(a + b) == Concat(a) + Concat(b)
    decreases |b|
  {
    if |b| == 0 {
      assert a + b == a;
    } else {
      var b' := b[..|b| - 1];
      assert (a + b)[..|a + b| - 1] == a + b' && (a + b)[|a + b| - 1] == b[|b| - 1];
      ConcatAppend(a, b');
      assert Concat(a + b) == Concat(a) + Concat(b') + b[|b| - 1];
    }
  }

  /** The fragments received so far glue into a prefix of the reply. */
  lemma {:induction false} ConcatPrefix(fragments: seq<string>, k: nat)
    requires k <= |fragments|
    ensures Concat(fragments[..k]) <= Concat(fragments)
    decreases |fragments|
  {
    if k < |fragments| {
      var init := fragments[..|fragments| - 1];
      assert init[..k] == fragments[..k];
      ConcatPrefix(init, k);
    } else {
      assert fragments[..k] == fragments;
    }
  }

  /** Every fragment appears in the reply, whole, right after the fragments
      that came before it. */
  lemma FragmentInPlace(fragments: seq<string>, i: nat)
    requires i < |fragments|
    ensures Concat(fragments[..i]) + fragments[i] <= Concat(fragments)
  {
    ConcatPrefix(fragments, i + 1);
    var upto := fragments[..i + 1];
    assert upto[..i] == fragments[..i] && upto[i] == fragments[i];
    assert Concat(upto) == Concat(fragments[..i]) + fragments[i];
  }

  /** The reply streamed back, glued one fragment at a time as it arrives. */
  method Aggregate(fragments: seq<string>) returns (agg: string)
    ensures agg == Concat(fragments)
  {
    agg := "";
    for i := 0 to |fragments|
      invariant agg == Concat(fragments[..i])
    {
      assert fragments[..i + 1][..i] == fragments[..i];
      agg := agg + fragments[i];
    }
    assert fragments[..|fragments|] == fragments;
  }

  /** The turns one reply adds to the chat: the assistant's answer, then the
      result of its code block if it has one. */
  function ReplyTurns(fragments: seq<string>, answer: string, execute: string -> string): (turns: seq<Message>)
    ensures 1 <= |turns| <= 2
    ensures turns[0] == Message(Concat(fragments), Assistant)
    ensures |turns| == 2 <==> ParseCode(turns[0]).Some?
    ensures |turns| == 2 ==> turns[1].role == User
  {
    var message := Message(Concat(fragments), Assistant);
    match ParseCode(message)
    case None => [message]
    case Some(code) => [message, HandleCode(code, answer, execute).0]
  }

  /** One pass of the main loop: the line the user typed, the fragments the
      model streamed back, and the answer to the question whether to run the
      code (read only when the reply holds a code block). */
  datatype Exchange = Exchange(input: string, fragments: seq<string>, answer: string)

  /** The chat after a run of exchanges. */
  function Transcript(exchanges: seq<Exchange>, execute: string -> string): (chat: seq<Message>)
    ensures |chat| >= 1
    decreases |exchanges|
  {
    if |exchanges| == 0 then InitializeChat()
    else
      var last := exchanges[|exchanges| - 1];
      Transcript(exchanges[..|exchanges| - 1], execute)
        + [Message(last.input, User)] + ReplyTurns(last.fragments, last.answer, execute)
  }

  /** Turns once added are never changed: the chat after the first `k`
      exchanges starts the chat after all of them. */
  lemma {:induction false} TranscriptGrows(exchanges: seq<Exchange>, execute: string -> string, k: nat)
    requires k <= |exchanges|
    ensures Transcript(exchanges[..k], execute) <= Transcript(exchanges, execute)
    decreases |exchanges|
  {
    if k < |exchanges| {
      var init := exchanges[..|exchanges| - 1];
      assert init[..k] == exchanges[..k];
      TranscriptGrows(init, execute, k);
    } else {
      assert exchanges[..k] == exchanges;
    }
  }

  /** Each exchange adds two or three turns. */
  lemma {:induction false} TranscriptLength(exchanges: seq<Exchange>, execute: string -> string)
    ensures 1 + 2 * |exchanges| <= |Transcript(exchanges, execute)| <= 1 + 3 * |exchanges|
    decreases |exchanges|
  {
    if |exchanges| > 0 {
      TranscriptLength(exchanges[..|exchanges| - 1], execute);
    }
  }

  /** The system prompt is the first turn and the only system turn. */
  predicate PromptFirst(chat: seq<Message>)
  {
    |chat| >= 1 && chat[0] == Message(Prompt, System)
    && forall i :: 1 <= i < |chat| ==> chat[i].role != System
  }

  /** Adding turns none of which is a system turn keeps the prompt first. */
  lemma PromptFirstExtended(chat: seq<Message>, added: seq<Message>)
    requires PromptFirst(chat)
    requires forall i :: 0 <= i < |added| ==> added[i].role != System
    ensures PromptFirst(chat + added)
  {
    var all := chat + added;
    assert all[0] == chat[0];
    forall i | 1 <= i < |all| ensures all[i].role != System {
      if i >= |chat| {
        assert all[i] == added[i - |chat|];
      }
    }
  }

  lemma {:induction false} TranscriptPromptFirst(exchanges: seq<Exchange>, execute: string -> string)
    ensures PromptFirst(Transcript(exchanges, execute))
    decreases |exchanges|
  {
    if |exchanges| == 0 {
      assert Transcript(exchanges, execute) == [Message(Prompt, System)];
    } else {
      var init := exchanges[..|exchanges| - 1];
      var last := exchanges[|exchanges| - 1];
      TranscriptPromptFirst(init, execute);
      var turns := ReplyTurns(last.fragments, last.answer, execute);
      var added := [Message(last.input, User)] + turns;
      assert Transcript(exchanges, execute) == Transcript(init, execute) + added;
      forall i | 0 <= i < |added| ensures added[i].role != System {
        if i > 0 {
          assert added[i] == turns[i - 1];
        }
      }
      PromptFirstExtended(Transcript(init, execute), added);
    }
  }

  /** The conversation list, grown in place by the chat loop. */
  class Conversation {
    var messages: seq<Message>

    ghost predicate Valid()
      reads this
    {
      PromptFirst(messages)
    }

    /** A new conversation holding the system prompt. */
    constructor ()
      ensures messages == InitializeChat()
      ensures Valid()
    {
      messages := InitializeChat();
    }

    /** Add the line the user typed as a user turn. */
    method AddUserTurn(input: string)
      modifies this
      ensures messages == old(messages) + [Message(input, User)]
      ensures old(Valid()) ==> Valid()
    {
      ghost var before := messages;
      messages := messages + [Message(input, User)];
      if PromptFirst(before) {
        PromptFirstExtended(before, [Message(input, User)]);
      }
    }

    /** Let the model answer: send the chat, glue the streamed fragments into
        the assistant's turn, and, if that turn holds a code block, ask
        whether to run it and add the result as a user turn. Returns the
        request's message list. */
    method Reply(fragments: seq<string>, answer: string, execute: string -> string)
      returns (request: seq<WireMessage>)
      modifies this
      ensures request == Payload(old(messages))
      ensures messages == old(messages) + ReplyTurns(fragments, answer, execute)
      ensures old(Valid()) ==> Valid()
    {
      request := Payload(messages);
      var agg := Aggregate(fragments);
      var message := Message(agg, Assistant);
      ghost var before := messages;
      ghost var added := ReplyTurns(fragments, answer, execute);
      messages := messages + [message];
      var code := ParseCode(message);
      if code.Some? {
        var (result, _) := HandleCode(code.value, answer, execute);
        messages := messages + [result];
        assert added == [message, result];
        assert messages == before + [message, result];
      } else {
        assert added == [message];
      }
      if PromptFirst(before) {
        assert forall i :: 0 <= i < |added| ==> added[i].role != System;
        PromptFirstExtended(before, added);
      }
    }
  }

  /** The chat loop over the exchanges of a session, which the user ends with
      an interrupt: the final chat and the exit status. */
  method RunSession(exchanges: seq<Exchange>, execute: string -> string)
    returns (chat: Conversation, status: int)
    ensures chat.messages == Transcript(exchanges, execute)
    ensures chat.Valid()
    ensures status == 0
  {
    chat := new Conversation();
    var i := 0;
    while i < |exchanges|
      invariant i <= |exchanges|
      invariant chat.messages == Transcript(exchanges[..i], execute)
      invariant chat.Valid()
    {
      var exchange := exchanges[i];
      chat.AddUserTurn(exchange.input);
      var _ := chat.Reply(exchange.fragments, exchange.answer, execute);
      assert exchanges[..i + 1][..i] == exchanges[..i];
      i := i + 1;
    }
    assert exchanges[..i] == exchanges;
    status := 0;
  }

  /** The example reply streamed in two fragments. */
  lemma ExampleFragments()
    ensures Concat(["Sure:\n", "```python\nprint(2+2)\n```"]) == "Sure:\n```python\nprint(2+2)\n```"
  {
    var fragments := ["Sure:\n", "```python\nprint(2+2)\n```"];
    assert fragments[..1] == ["Sure:\n"];
    assert fragments[..1][..0] == [];
  }

  /** The example reply, approved: the answer and the printed result. */
  lemma ExampleReplyTurns(execute: string -> string)
    requires execute("print(2+2)\n") == "4\n"
    ensures ReplyTurns(["Sure:\n", "```python\nprint(2+2)\n```"], "y", execute)
      == [Message("Sure:\n```python\nprint(2+2)\n```", Assistant), Message(Header + "4\n" + Footer, User)]
  {
    var fragments := ["Sure:\n", "```python\nprint(2+2)\n```"];
    var message := Message("Sure:\n```python\nprint(2+2)\n```", Assistant);
    ExampleFragments();
    ParseCodeExample();
    assert ParseCode(message) == Some("print(2+2)\n");
    assert SingleLine("4") && HasText("4") by { assert Indent("4") == []; }
    FormatPrintedLine("4");
    assert "4" + "\n" == "4\n";
    var result := HandleCode("print(2+2)\n", "y", execute).0;
    assert result == FormatExecResponse("4\n");
    assert result.content == Header + "4" + "\n" + Footer;
    assert Header + "4" + "\n" == Header + "4\n";
    assert result == Message(Header + "4\n" + Footer, User);
    assert ReplyTurns(fragments, "y", execute) == [message, result];
  }

  /** A whole session: the user asks, the model answers with a block that
      prints 4, the user agrees to run it, and the output goes back to the
      model as a user turn. */
  lemma OneExchange(execute: string -> string)
    requires execute("print(2+2)\n") == "4\n"
    ensures Transcript([Exchange("what is 2+2?", ["Sure:\n", "```python\nprint(2+2)\n```"], "y")], execute)
      == [Message(Prompt, System), Message("what is 2+2?", User),
          Message("Sure:\n```python\nprint(2+2)\n```", Assistant),
          Message(Header + "4\n" + Footer, User)]
  {
    ExampleReplyTurns(execute);
    var exchanges := [Exchange("what is 2+2?", ["Sure:\n", "```python\nprint(2+2)\n```"], "y")];
    assert exchanges[..0] == [];
  }
}
