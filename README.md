# MyshlenekBot core, modelled in Dafny

MyshlenekBot is a Telegram chat bot that forwards each incoming message to a
text-completion service and posts the answer back to the chat. The bot keeps a
single conversation transcript, `conversation_history`, and a watermark,
`last_update_id`. Its core lives in `main-test.py`:

- **`generate_response`** assembles the prompt from the message and the
  transcript. It removes carriage returns, right-strips the history, deletes
  the first copy of the message from it, and then picks one of two
  concatenation shapes. It sends the prompt and turns the service's answer
  into a reply text, the fixed placeholder `"Seems, something happened,
  sorry."`, or an exception.
- **`handle_message`** validates an update and appends the message to the
  transcript. It asks for a completion, appends the completion, and hands it
  to `send_message`. It catches `KeyError` and `ValueError`.
- **The main loop** walks every fetched batch in order. It skips ids at or
  below the watermark, moves the watermark before handling, and keeps the
  previous transcript when the handler raises.

The model is split by layer:

- `py_strings.dfy` holds the Python `str` operations the assembler uses, with
  lemmas or contracts that say what each one means (`strip()` cuts exactly
  the white space `str.isspace()` accepts at either end).
- `prompt_merge.dfy` holds the prompt assembly, both as written and corrected
  (see Findings); the handler uses the one as written.
- `completion.dfy` holds the status and `choices` handling of the answer and
  `generate_response` as a whole.
- `update_handler.dfy` holds `send_message` and `handle_message`.
- `dispatch_loop.dfy` holds the main loop. Its specification is `Cycle`, a left
  fold of `Step` over a batch. `Dispatcher` is a class with the two variables
  the loop updates in place, `lastUpdateId` and `history`, plus ghost records
  of the ids handled and the texts posted. Its `PollCycle` method runs the
  loop over the batch, one `Dispatch` per update, and is proved equal to `Cycle`. The
  loop lemmas take the handler as a parameter, so they hold whatever
  `handle_message` does.

Network answers are inputs:

- `Reply` is what the completion endpoint answers.
- `Delivery` is what the Telegram endpoint does with a sendMessage POST.
- A fetched batch is a sequence of `Fetched` values, each an update together
  with the network answers seen while it is handled.

Where the code and its documented design disagree, the model follows the code:

- An empty `choices` list in a 200 answer does not give the placeholder.
  Line 310 indexes the empty list, and the `IndexError` escapes
  `handle_message`.
- A transport failure of either `requests.post` is not recovered inside
  `generate_response` or `send_message`. It escapes `handle_message`, and the
  main loop catches it and keeps the old transcript.
- With an empty transcript, a non-blank message without carriage returns or
  trailing white space does not reach the completion service unchanged; see
  Findings. `generate_response` and `handle_message` are modelled with the
  merge as written; the corrected merge stands beside it, with its
  properties proved.

## Model

| member | source | states |
|---|---|---|
| PyStrings.RemoveCRSpec | main-test.py:239-240 | `replace('\r','')`: the result has no carriage return, its length drops by exactly the number of carriage returns, it has no new characters, and a string without carriage returns is unchanged (the order of the kept characters is RemoveCRConcat) |
| PyStrings.RemoveCRConcat | main-test.py:239-240 | `replace('\r','')` distributes over concatenation, so each character is handled in place and the kept ones stay in their order |
| PyStrings.RemoveCRChar | main-test.py:239-240 | on one character, a carriage return becomes "" and any other character is kept; with RemoveCRConcat this fixes the result for every string |
| PyStrings.LeadingSpace | main-test.py:257-260 | the amount `lstrip()` cuts: every character cut is white space, and the first one kept, if any, is not |
| PyStrings.TrailingSpace | main-test.py:243 | the amount `rstrip()` cuts: every character cut is white space, and the last one kept, if any, is not |
| PyStrings.Strip | main-test.py:256-260 | `strip()`: the result is no longer than the input and is empty or has non-space characters at both ends (that only white space is cut is StripSpec) |
| PyStrings.StripSpec | main-test.py:256-260 | `strip()`: the input is white space, then the result, then white space, and the result neither starts nor ends with white space |
| PyStrings.StripEmptyIffBlank | main-test.py:351 | `not s.strip()` holds exactly when every character of `s` is white space, in both directions |
| PyStrings.From | main-test.py:260 | `s[n:]`: for `n` within bounds `s` is `s[:n]` followed by the result; past the end the result is "" |
| PyStrings.FindFrom | main-test.py:246-247 | the result is the leftmost occurrence at or after `k`, or none at or after `k` |
| PyStrings.Find | main-test.py:246-247 | a match is found exactly when `p in s`, and it is the first occurrence |
| PyStrings.FindFirstOccurrence | main-test.py:246-247 | a known first occurrence is the one found |
| PyStrings.RemoveFirst | main-test.py:246-247 | `replace(p,'',1)`: unchanged when `p` does not occur; otherwise the input is the result with `p` reinserted at its first occurrence |
| PyStrings.RemoveFirstAt | main-test.py:246-247 | with the first occurrence at `i`, exactly `s[i:i+len(p)]` is cut out |
| PyStrings.JoinSpec | main-test.py:231-232 | `'\n'.join`: empty for no parts; otherwise the length is the parts' total plus one separator between each pair, and part `k` sits at the parts' total length before it plus `k`, followed by "\n" unless it is the last |
| PromptMerge.PrePassSpec | main-test.py:238-247 | the pre-pass removes every carriage return from both strings, right-strips the history, and deletes exactly the first occurrence of the prompt when there is one, leaving the history otherwise unchanged |
| PromptMerge.PrePassNoCR | main-test.py:238-247 | neither pre-passed string contains a carriage return |
| PromptMerge.SentHasNoCR | main-test.py:238-260 | the prompt sent never contains a carriage return, under the merge as written and the corrected one |
| PromptMerge.ShapeNoCR | main-test.py:256-260 | neither branch, as written or corrected, brings in a carriage return when its inputs have none |
| PromptMerge.HistoryConsumed | main-test.py:239-260 | a history that, with carriage returns removed, is blank, or that, with carriage returns removed and right-stripped, equals the prompt with carriage returns removed, is consumed entirely, so both merges send the prompt with only carriage returns removed |
| PromptMerge.FixAgreesOutsideBlankHistory | main-test.py:256-260 | the corrected merge differs from the written one only when the pre-passed history is non-empty but blank |
| PromptMerge.PrePassAfterAppend | main-test.py:239-247 | after the handler appends "\n"+text, for a text with no carriage return and no trailing white space whose appended copy is its first occurrence (with a carriage-return-free history), the pre-pass deletes that copy and leaves the old history followed by "\n" |
| PromptMerge.ConversationTurn | main-test.py:256-258 | for a turn under the same three conditions as PrePassAfterAppend, on a history that does not strip to "" and a text that does not start with the stripped history: the prompt is the stripped history, a newline and the left-stripped text, under both merges |
| PromptMerge.ContinuationTurn | main-test.py:259-260 | for a turn under the same three conditions as PrePassAfterAppend, on a history that does not strip to "" and a text that starts with the stripped history: the prompt is the stripped history followed by the text's left-stripped part past the history's length plus one, under both merges |
| PromptMerge.ShapeAfterNewline | main-test.py:256-260 | for any text, on a pre-passed history `H`+"\n" where `H` does not strip to "", both merges take the same branch: the stripped `H`, a newline and the left-stripped text, or the stripped `H` and the text's left-stripped part past the history's length |
| PromptMerge.FirstOccurrenceAfterBlank | main-test.py:246-247 | in white space followed by a non-blank text, the first occurrence of the text is the one at the end |
| PromptMerge.BlankHistoryTurn | main-test.py:256-260 | with a blank history `H` and a text `t` that is not blank, has no trailing white space, and where neither holds a carriage return: the corrected merge sends `t` unchanged, while the written merge sends `t[len(H)+1:].lstrip()`: the first `len(H)+1` characters are cut and then any white space after them, so the result always differs from the text |
| PromptMerge.BlankPrePass | main-test.py:239-247 | with a blank history `H` and a text `t` that is not blank, has no trailing white space, and where neither holds a carriage return: the pre-pass leaves `t` and the blank history `H`+"\n" |
| CompletionRequest.ReturnedTextOrigin | main-test.py:299-307 | a returned string is the placeholder of a non-200 answer or the first choice's text of a 200 answer, and nothing else |
| CompletionRequest.EscapingFailures | main-test.py:299-310 | a failure is one `handle_message` does not catch exactly when it is a transport failure or an empty `choices` list |
| CompletionRequest.GenerateResponse | main-test.py:228-310 | the body sends `MergePrompt`, the merge as written; the contract states that a non-200 answer gives the placeholder and that an exception comes only from a transport failure or a 200 answer |
| CompletionRequest.GeneratedPrompt | main-test.py:231-310 | the prompt that goes out never holds a carriage return, whatever the history argument; its second clause only reads back that the outcome is `Outcome(reply)`, which takes no history |
| UpdateHandler.SendMessage | main-test.py:171-216 | no request for None or ""; otherwise one POST, reported ok exactly when delivered, and raising exactly when the platform is unreachable |
| UpdateHandler.WithMessage | main-test.py:351-352 | the history with the message appended still starts with the old history |
| UpdateHandler.Respond | main-test.py:359-383 | once the prompt has gone out: `send_message` is called exactly when the completion returns, and with its response; a returned history starts with the history holding the message; a send never ends in an `IndexError` |
| UpdateHandler.HandleMessage | main-test.py:334-383 | a returned history extends the input history; a malformed update returns the history unchanged, requests nothing and sends nothing; a send happens only after a prompt was sent and never with an `IndexError` |
| UpdateHandler.ValidTurn | main-test.py:350-374 | for a well-formed update whose completion returns: the history gains the text if it is not blank, then the response if it is not None; `send_message` is called once with the response; only an unreachable platform makes it raise; a POST happens exactly for a non-empty response |
| UpdateHandler.FailedCompletion | main-test.py:358-383 | when the completion raises nothing is sent; a caught `KeyError` or `ValueError` returns the history with the text appended; a transport failure or an empty `choices` list escapes |
| UpdateHandler.EscapesExactly | main-test.py:334-383 | the handler raises exactly for a well-formed update whose completion has a transport failure or an empty `choices` list, or whose non-empty response cannot be delivered because the platform is unreachable |
| UpdateHandler.FirstMessagePrompt | main-test.py:351-359 | with a blank history `H`, a non-blank message `t` without carriage returns or trailing white space reaches the completion service as `t[len(H)+1:].lstrip()`, never as `t`, while the corrected merge would send `t` |
| DispatchLoop.StepPreservesInv | main-test.py:484-492 | one update keeps the handled ids increasing and none above the watermark |
| DispatchLoop.CycleIds | main-test.py:483-492 | whatever the handler does, the watermark and the handled ids after a batch depend on the ids alone |
| DispatchLoop.WatermarkIsMax | main-test.py:483-486 | the watermark after a batch is the largest of the old watermark and the batch's ids |
| DispatchLoop.AcceptedSpec | main-test.py:483-487 | the handled ids of a batch are strictly increasing and above the old watermark, and are exactly the ids above the old watermark and every earlier id in the batch |
| DispatchLoop.CycleHandles | main-test.py:483-492 | a batch never lowers the watermark, keeps the ids handled before it, and appends in increasing order exactly the ids above the old watermark and every earlier id |
| DispatchLoop.CyclePreservesInv | main-test.py:483-492 | a batch keeps the handled ids strictly increasing and none above the watermark |
| DispatchLoop.NoUpdateHandledTwice | main-test.py:477-492 | across two polls no id is handled twice, and nothing handled in the first poll is handled again in the second |
| DispatchLoop.ReplayedBoundary | main-test.py:479-487 | when the next poll delivers the boundary update again, it is skipped and only the newer update is handled |
| DispatchLoop.Dispatcher.constructor | main-test.py:475-476 | the loop starts with watermark 0, an empty transcript and nothing handled |
| DispatchLoop.Dispatcher.Dispatch | main-test.py:484-492 | handling one fetched update leaves the state `Step` specifies and keeps the dispatcher valid |
| DispatchLoop.Dispatcher.PollCycle | main-test.py:481-492 | one pass leaves the state `Cycle` specifies; the watermark never decreases; earlier handled ids are kept; every id handled in the pass is above the starting watermark |

## Left out

- HTTP transport (`requests.post` in `send_message` and `generate_response`): modelled only through its outcome, the `Reply` and `Delivery` inputs.
- `get_updates` and its `requests.get`: the fetched batch is an input, so its own error handling is not part of this model.
- The JSON serialise-then-parse self-check of lines 276-285: it always succeeds, so the request always goes out.
- The request payload constants of lines 266-273: they include floats and do not affect the prompt or the reply handling.
- Environment configuration (lines 83-87), `POLL_INTERVAL` and `time.sleep` (lines 458, 495): `while True` is modelled as one call of `PollCycle` per pass.
- Logging setup and every log call, and `log-test.py`: observability only.
- The code after line 310 of `generate_response`: it is never reached.
- `wsgi.py`: HTTP routing glue around `handle_message`, and it imports a `main` module that is not part of this model.
- The `str(prompt)` conversion of lines 233-234: Telegram message texts are strings, so the prompt is taken as a string.
- An update without `update_id`: the `KeyError` at line 484 is outside the `try` and would end the loop; ids are always present in the model.
- The local rebinding of `conversation_history` at line 258 inside `generate_response`: it is never returned, so it does not change the prompt or the transcript.
- PromptMerge.ConversationTurn, PromptMerge.ContinuationTurn, PromptMerge.PrePassAfterAppend, PromptMerge.BlankHistoryTurn, PromptMerge.BlankPrePass, UpdateHandler.FirstMessagePrompt: a turn whose text ends in white space (line 243 trims the appended copy, so it is not deleted and the message appears twice in the prompt; on an empty history " a " goes out as "a\na " under both merges, and "a " leaves the history "\na") or whose text already occurs earlier in the history (line 247 deletes that earlier copy, for example a repeated "yes") is covered only by the general PrePassSpec and MergeBranches, with no turn-level lemma giving its prompt. The same holds for a turn whose text or history contains a carriage return, which these lemmas also exclude (lines 239-240 remove carriage returns before anything else).
- UpdateHandler.HandleMessage: the completion and the send each see one fixed network answer, so the model does not capture retries or time-varying answers.

## Findings

| source | as written | input that shows it | evidently intended | confidence | as-written member | corrected member |
|---|---|---|---|---|---|---|
| main-test.py:256-260 | both branches test the raw pre-passed history for truthiness, but slice the prompt at the raw history's length | empty transcript, message "hello": the handler passes "\nhello"; the pre-pass leaves "\n", which is truthy and strips to "", so the second branch sends "" + "hello"[1:].lstrip() = "ello" | the first message of a conversation is sent unchanged ("hello") | high, not executed | PromptMerge.MergePrompt (discrepancy proved in PromptMerge.BlankHistoryTurn) | PromptMerge.MergePromptFixed (proved to send the text unchanged in PromptMerge.BlankHistoryTurn and UpdateHandler.FirstMessagePrompt for a non-blank text without trailing white space or carriage returns, and to agree with the written merge everywhere else in PromptMerge.FixAgreesOutsideBlankHistory; it corrects only the blank-history guard, so a first message ending in white space, such as " a ", still goes out changed, as "a\na ") |
