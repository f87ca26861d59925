# Echo: the chat loop of a code-running console assistant, in Dafny

Echo (`echo.py`) is a console chat with a language model. The system prompt
asks the model to answer with Python in a fenced block. When a reply holds
such a block, Echo shows the code and asks whether to run it. With the user's
"y" it runs the code and captures what the code prints. The output, or a
refusal, goes back into the conversation as a new user turn that asks the
model what the result means.

The model covers the program's core:

- **Turns and the conversation.** `Echo.Message` is a chat turn whose role
  defaults to the user. `Session.Conversation` is the list of turns that
  `main` and `reply` grow in place, and `Echo.InitializeChat` is its first
  turn, the system prompt.
- **Code extraction.** `Echo.ParseCode` is `parse_code`, built on a model of
  Python's `str.split` (`PyStr.Split`). The code starts after the first
  "```python" that is followed by a line break, wherever in a line it
  stands, and ends at the first "```" that is followed by a line break.
- **Result formatting.** `Echo.FormatExecResponse` is `format_exec_response`.
  It fills the indented f-string template and applies a full model of
  `textwrap.dedent` (module `TextWrap`).
- **The decision rule.** `Echo.HandleCode` is the rule in `handle_code`: only
  the exact answers "y" and "Y" run the code.
- **The loops.** `Session.Conversation.Reply` is `reply`. It sends the
  conversation, glues the streamed fragments together in a loop and appends
  the assistant turn. When that turn has a code block, it then appends the
  result turn. `Session.RunSession` is the `while True` loop of `main`. Each
  pass adds the user's line as a turn and lets the model reply.

Each imperative operation is proved against a function that specifies it:
`Session.ReplyTurns` for one reply and `Session.Transcript` for a whole
session. The lemmas about those functions state what the program promises.
Earlier turns never change, each exchange adds two or three turns, and the
system prompt stays first and is the only system turn.

Files: `pystr.dfy` (module `PyStr`: `find`, `split` and `join` on strings),
`textwrap.dfy` (module `TextWrap`: `dedent`), `echo.dfy` (module `Echo`) and
`session.dfy` (module `Session`).

## Model

| member | source | states |
|---|---|---|
| PyStr.Find | echo.py:65 | an index it reports is an occurrence of the separator at or after the start |
| PyStr.FindFirst | echo.py:65 | the reported occurrence is the first one; none is reported exactly when there is none |
| PyStr.FindAbsent | echo.py:65 | searching from the front finds nothing exactly when the text does not contain the separator |
| PyStr.Cut | echo.py:66 | the text before the first occurrence is a prefix without the separator; the separator follows it when present, and it is the whole text otherwise |
| PyStr.CutAt | echo.py:66 | cutting `x + m + y` at `m` gives `x` when `x` has no `m` and `m` ends in a newline |
| PyStr.Split | echo.py:65-66 | `split` always gives at least one piece |
| PyStr.SplitFirst | echo.py:65-67 | the first piece is the text cut at the separator; there is exactly one piece (so index 1 fails) exactly when the separator does not occur |
| PyStr.SplitSecond | echo.py:65 | when the separator first occurs at `k`, a second piece exists and it is the rest after it, cut at the next occurrence |
| PyStr.SplitStep | echo.py:65-66 | splitting peels off the text before the first occurrence and splits the rest |
| PyStr.SplitPiecesFree | echo.py:65-66 | no piece contains the separator |
| PyStr.SplitJoin | echo.py:65-66 | joining the pieces with the separator gives the text back |
| PyStr.JoinSplit | echo.py:59 | splitting lines joined by a newline, none of which has a newline, gives the lines back |
| PyStr.SplitConcat | echo.py:59 | splitting `x + "\n" + y` gives the lines of `x` followed by the lines of `y` |
| PyStr.SplitAfterPiece | echo.py:59 | a line without a newline is split off whole from the text after it |
| PyStr.SingleLineNoBreak | echo.py:55 | a result fits on one line exactly when it contains no newline |
| TextWrap.Indent | echo.py:59 | the indent is the longest run of spaces and tabs at the front of a line |
| TextWrap.CommonPrefix | echo.py:59 | the common prefix of two indents is a prefix of both and cannot be extended |
| TextWrap.DedentLines | echo.py:59 | `dedent` keeps one line per line |
| TextWrap.IndentPrefix | echo.py:52-58 | spaces put in front of a line join its indent and do not change whether it has text |
| TextWrap.MarginKept | echo.py:59 | when every line with text starts with the margin found so far, the margin stays |
| TextWrap.MarginBound | echo.py:59 | the margin never grows, and every line with text starts with it |
| TextWrap.DedentWithMargin | echo.py:59 | when all lines with text share the first line's indent, `dedent` removes exactly that indent from them and empties the blank lines |
| TextWrap.DedentWithoutMargin | echo.py:59 | when some line with text lacks the first line's indent, the first line keeps part of its indent |
| Echo.MessageDefaultRole | echo.py:41-43 | a turn built from its text alone keeps the text and has the user role, so it differs from the assistant's and the system's turn with that text |
| Echo.PromptShowsFences | echo.py:20-35 | the system prompt shows the model an opening fence line and a closing fence line, the form the reply parser looks for |
| Echo.ParseCode | echo.py:62-68 | there is no code exactly when the reply plus a newline has no opening fence; code that is found contains no fence |
| Echo.ParseCodeAfter | echo.py:63-66 | only the first opening fence counts: the code is what follows it, cut at the next opening fence and then at the first closing fence |
| Echo.ParseCodeBlock | echo.py:65-66 | the code starts right after the first opening fence and ends at the next fence or at the end of the reply |
| Echo.ParseCodeWellFormed | echo.py:63-66 | for `pre + opening fence + body + closing fence + post` with no opening fence in `pre` and no fence in `body`, the code is `body` exactly, whatever `post` holds |
| Echo.ParseCodeFenceAtEnd | echo.py:63-66 | a closing fence on the last line with no newline after it still closes the block, because of the added newline |
| Echo.ParseCodeUnclosed | echo.py:65-66 | a block that is never closed gives the rest of the reply, including the added newline, cut at a later opening fence; it is not rejected |
| Echo.ParseCodeExample | echo.py:62-68 | the reply "Sure:", then a python block printing 2+2 with its closing fence on the last line, gives the code `print(2+2)` plus a newline |
| Echo.ParseCodeNoBlock | echo.py:62-68 | a reply without a fence gives no code |
| Echo.ParseCodeOpenerMidLine | echo.py:65 | an opening fence after other text on its line still opens the block |
| Echo.ParseCodeCloserMidLine | echo.py:66 | a closing fence right after the code, on the code's own line, still ends the block, and what follows is dropped |
| Echo.ExecTemplate | echo.py:52-58 | the filled-in f-string: intro, fence, result, fence and question, each line behind four spaces, then the bare margin (its lines are stated by `TemplateLines`) |
| TextWrap.Dedent | echo.py:59 | `dedent` keeps the line structure: splitting its result at line breaks gives the input's lines, one for one, each blanked or with the margin removed |
| Echo.FormatExecResponse | echo.py:51-59 | the result turn always has the user role |
| Echo.TemplateLines | echo.py:52-58 | the filled-in template's lines are the margined intro, fence, the result's first line with the margin, the result's later lines as they are, fence, question and the bare margin |
| Echo.DedentedTemplate | echo.py:52-59 | when the result's later lines with text keep four spaces, `dedent` removes the four-space margin from every line with text and empties the others |
| Echo.FormatExecResponseShown | echo.py:51-59 | the turn is the intro and opening fence, the result with four spaces removed from its later lines, and the closing fence and question |
| Echo.FormatSingleLine | echo.py:51-59 | a one-line result with text appears verbatim between the fences |
| Echo.FormatBlankLine | echo.py:51-59 | a one-line result with no text leaves an empty line between the fences |
| Echo.FormatPrintedLine | echo.py:51-59 | one printed line (text and a newline) appears verbatim, newline included, between the fences |
| Echo.FormatUnindentedContinuation | echo.py:51-59 | when a later line of the result has text but not four leading spaces, the turn starts with a space: the template's own indentation is not removed |
| Echo.Approves | echo.py:86 | an answer approves exactly when it is one character, "y" or "Y" |
| Echo.HandleCode | echo.py:81-91 | the result turn has the user role, and the flag says the user declined exactly when the answer is neither "y" nor "Y" |
| Echo.HandleCodeDeclined | echo.py:89-91 | on any other answer the outcome does not depend on the code's behaviour, the flag is set, and the turn reports "User chose not to execute code." between the fences |
| Echo.HandleCodeApproved | echo.py:86-88 | on "y" or "Y" the flag is clear and the turn formats what the code printed; two runs that print the same give the same outcome |
| Echo.NearMissesDecline | echo.py:86 | "yes", "", "n", "y " and "YES" do not approve |
| Echo.DeclinedTextShown | echo.py:90-91 | the refusal text appears verbatim between the fences |
| Echo.InitializeChat | echo.py:106-111 | a new chat is one system turn holding the prompt |
| Echo.RoleName | echo.py:95 | the role string each turn carries in the request (its properties are stated by `RoleNamesDistinct`) |
| Echo.RoleNamesDistinct | echo.py:95 | every role has a name of its own, and that name leads back to the role |
| Echo.RoleNamed | echo.py:95 | a role found by name has that name |
| Echo.Payload | echo.py:95 | the request has one entry per turn |
| Echo.PayloadRoundTrip | echo.py:95 | the request loses nothing: every turn's content, role and position can be read back |
| Session.Concat | echo.py:117-120 | the reply glued from the fragments is at least as long as each fragment |
| Session.Aggregate | echo.py:117-120 | the loop that appends each fragment to `agg` as it arrives ends with all fragments glued in order |
| Session.ConcatAppend | echo.py:117-120 | gluing two runs of fragments one after the other glues their texts |
| Session.ConcatPrefix | echo.py:117-120 | the fragments received so far glue into a prefix of the whole reply |
| Session.FragmentInPlace | echo.py:117-120 | each fragment appears whole in the reply, right after the fragments before it |
| Session.ReplyTurns | echo.py:123-130 | a reply adds the assistant turn holding the glued fragments, then a second turn with the user role exactly when that turn has code |
| Session.Transcript | echo.py:135-141 | a chat after any number of exchanges is never empty |
| Session.TranscriptGrows | echo.py:135-141 | turns once added never change: the chat after the first `k` exchanges is a prefix of the chat after all of them |
| Session.TranscriptLength | echo.py:137-141 | each exchange adds two or three turns |
| Session.PromptFirstExtended | echo.py:124-140 | appending turns that are not system turns keeps the prompt first and the only system turn |
| Session.TranscriptPromptFirst | echo.py:106-141 | in every session the system prompt is the first turn and the only system turn |
| Session.Conversation.constructor | echo.py:135 | a new conversation holds the initial chat |
| Session.Conversation.AddUserTurn | echo.py:139-140 | the user's line is appended as a user turn, and nothing else changes |
| Session.Conversation.Reply | echo.py:114-130 | the request is the conversation as it was; the conversation grows by exactly the turns of `ReplyTurns`, so the glue loop concatenates the fragments in order |
| Session.RunSession | echo.py:133-144 | the conversation after the loop is the transcript of the exchanges, with the system prompt first and the only system turn, and the exit status is 0 |
| Session.ExampleReplyTurns | echo.py:117-130 | the example reply in two fragments, approved, adds the reply and a turn with the printed `4` between the fences |
| Session.OneExchange | echo.py:133-141 | a whole one-exchange session gives the prompt, the question, the reply and the result turn, in that order |

## Left out

- Running the code (`exec_code`, echo.py:71-78) is the parameter `execute: string -> string`, from code to the text it prints. Redirecting stdout and turning an exception into printed text are Python runtime behaviour that the model does not capture.
- Streaming from the model (`generate`, echo.py:94-103) becomes a given sequence of fragments. The request's message list is modelled by `Echo.Payload`. The network call, the model name, the server address and the streaming flag are left out.
- Console output (`styled` and the `rich` console, echo.py:14, 46-48, and the `styled` calls in `handle_code`, `reply` and `main`) only renders text and changes no state.
- The lines typed by the user (`input()`, echo.py:86 and 139) are parameters: `Exchange.input` and `Exchange.answer`. An answer is only used when the reply has code, just as `input()` is only called then.
- The interrupt that ends `main` (echo.py:142-144) is modelled as the end of the list of exchanges, after which `RunSession` returns 0. An interrupt during streaming or during the yes/no question is not modelled. Nor are `SystemExit` and process start-up (echo.py:147-148).
- `MODEL` and `API_BASE` (echo.py:17-18) are unused by the code.
- Roles are a three-valued datatype rather than free strings. These are the only three the program uses, and `Echo.RoleName` gives the names sent in the request.
- On decline, `handle_code` passes a `RuntimeError` to `format_exec_response`. The f-string shows its message, so the model passes the message text.
- `Echo.FormatUnindentedContinuation`: states only the first character of the turn when a later line of the result is not indented by four spaces, not the whole text.
- `execute` is one pure function for the whole session. The real `exec` (echo.py:75) can print something different on each run: code may read the clock or draw random numbers, and it shares module globals with earlier runs.
- Code that raises `SystemExit` or `KeyboardInterrupt` gets past `except Exception` (echo.py:76). That ends the session after the assistant turn, with no result turn. The model always adds the result turn.
- `Echo.ParseCode` does not change the reply, since a Dafny function cannot. The promise that `parse_code` leaves its argument alone therefore holds by construction.

## Behaviour a reader might not expect

The model follows `echo.py`, including these points where a reader might expect otherwise:

- An opening fence without a closing fence gives the rest of the reply, not "no code" (echo.py:65-66; `Echo.ParseCodeUnclosed`).
- The text after the first opening fence is also cut at the next opening fence, because the code takes piece 1 of `split`.
- A fence need not stand on a line of its own: "```python" followed by a line break opens a block after other text on the same line, and "```" followed by a line break closes it right after the code (`Echo.ParseCodeOpenerMidLine`, `Echo.ParseCodeCloserMidLine`).
- The re-injected turn always has the user role (echo.py:59). It is not configurable.
- After the result turn there is no second extraction from it: a reply adds at most two turns (`Session.ReplyTurns`).
