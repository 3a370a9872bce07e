/**
 * `send_message` and `handle_message` (main-test.py lines 171-216 and
 * 334-383).  The messaging platform's answer to a POST is an input,
 * `Delivery`; the one call `handle_message` makes to `send_message` is
 * recorded in the result, with what became of it.
 */
module UpdateHandler {
  import opened Wrappers
  import opened PyStrings
  import opened PromptMerge
  import opened CompletionRequest

  /** `update['message']`, whose `text` key may be missing. */
  datatype Message = Message(text: Option<string>)

  /** One inbound update: its id and, possibly, a message. */
  datatype Update = Update(updateId: int, message: Option<Message>)

  /** What the platform does with a sendMessage POST: accepts it, rejects it, or cannot be reached. */
  datatype Delivery = Delivered | Rejected | Unreachable

  /** What a call of `send_message` did: no request, a request answered ok or not, or a request that raised. */
  datatype PostResult = NotPosted | Posted(ok: bool) | PostRaised

  /** One call of `send_message(arg)` and its effect. */
  datatype SendCall = SendCall(arg: Option<string>, post: PostResult)

  /**
   * `send_message(text)`: empty or None text is refused before any request
   * (line 173); otherwise one POST is made, whose HTTP, decoding and `ok`
   * failures are all turned into a `None` return, while a transport failure
   * of `requests.post` propagates.
   */
  function SendMessage(text: Option<string>, delivery: Delivery): (c: SendCall)
    ensures c.arg == text
    ensures c.post.NotPosted? <==> text.None? || text.value == []
    ensures c.post == Posted(true) <==> text.Some? && text.value != [] && delivery == Delivered
    ensures c.post.PostRaised? <==> text.Some? && text.value != [] && delivery == Unreachable
  {
    if text.None? || text.value == [] then SendCall(text, NotPosted)
    else
      match delivery
      case Delivered => SendCall(text, Posted(true))
      case Rejected => SendCall(text, Posted(false))
      case Unreachable => SendCall(text, PostRaised)
  }

  /** How `handle_message` ends: returning a history, or letting an exception out. */
  datatype Result = Done(history: string) | Threw(error: Exception)

  /**
   * Everything one call of `handle_message` does: its result, the prompt it
   * sent to the completion service (None if it never got that far) and its
   * call of `send_message` (None if it never got that far).
   */
  datatype Handling = Handling(result: Result, prompt: Option<string>, send: Option<SendCall>)

  /** `update` carries `message` and `message.text` (line 337). */
  predicate WellFormed(update: Update) {
    update.message.Some? && update.message.value.text.Some?
  }

  /** Line 351-352: a non-blank message is appended to the history on a new line. */
  function WithMessage(history: string, text: string): (r: string)
    ensures StartsWith(r, history)
  {
    if Strip(text) != [] then history + "\n" + text else history
  }

  /**
   * Lines 359-383 once the prompt `sent` has gone out with the given
   * outcome: a caught failure keeps `withText`, an uncaught one escapes, and
   * a returned response is appended (unless None) and handed to
   * `send_message`, whose transport failure escapes.
   */
  function Respond(withText: string, sent: string, outcome: Completion, delivery: Delivery): (h: Handling)
    ensures h.prompt == Some(sent)
    ensures h.result.Done? ==> StartsWith(h.result.history, withText)
    ensures h.send.Some? <==> outcome.Returned?
    ensures h.send.Some? ==> h.send.value.arg == outcome.response && h.result != Threw(IndexError)
  {
    match outcome
    case Raised(e) =>
      if Caught(e) then Handling(Done(withText), Some(sent), None)
      else Handling(Threw(e), Some(sent), None)
    case Returned(response) =>
      var final := if response.Some? then withText + "\n" + response.value else withText;
      assert final[..|withText|] == withText;
      var send := SendMessage(response, delivery);
      if send.post.PostRaised? then Handling(Threw(RequestError), Some(sent), Some(send))
      else Handling(Done(final), Some(sent), Some(send))
  }

  /** `handle_message(update, conversation_history)`. */
  function HandleMessage(update: Update, history: string, reply: Reply, delivery: Delivery): (h: Handling)
    ensures h.result.Done? ==> StartsWith(h.result.history, history)
    ensures !WellFormed(update) ==> h == Handling(Done(history), None, None)
    ensures h.send.Some? ==> h.prompt.Some? && h.result != Threw(IndexError)
  {
    if !WellFormed(update) then
      // the ValueError of line 339, caught at line 376
      Handling(Done(history), None, None)
    else
      var text := update.message.value.text.value;
      var withText := WithMessage(history, text);
      var gen := GenerateResponse(text, Flat(withText), reply);
      var h := Respond(withText, gen.sent, gen.result, delivery);
      if h.result.Done? then
        PrefixOfPrefix(history, withText, h.result.history);
        h
      else h
  }

  /** `startswith` is transitive. */
  lemma {:induction false} PrefixOfPrefix(a: string, b: string, c: string)
    requires StartsWith(b, a) && StartsWith(c, b)
    ensures StartsWith(c, a)
  {
    assert c[..|a|] == c[..|b|][..|a|];
  }

  /** A well-formed update: the text is appended, the prompt goes out, and the reply decides the rest. */
  lemma {:induction false} HandleWellFormed(update: Update, history: string, reply: Reply, delivery: Delivery)
    requires WellFormed(update)
    ensures var text := update.message.value.text.value;
            var withText := WithMessage(history, text);
            HandleMessage(update, history, reply, delivery)
              == Respond(withText, GenerateResponse(text, Flat(withText), reply).sent, Outcome(reply), delivery)
  {
    var text := update.message.value.text.value;
    var withText := WithMessage(history, text);
    var gen := GenerateResponse(text, Flat(withText), reply);
    assert gen.result == Outcome(reply);
  }

  /** The texts for which a POST reached the transport during one handling. */
  function Posts(h: Handling): seq<string> {
    if h.send.Some? && h.send.value.arg.Some? && !h.send.value.post.NotPosted? then
      [h.send.value.arg.value]
    else []
  }

  /**
   * A well-formed update whose completion returns: the history gains the
   * message (only if it is not blank) and then the response (only if it is
   * not None), each on a new line, by raw appends and whatever the history
   * already holds; `send_message` is called exactly once, with the
   * response, and only an unreachable platform turns that into an exception.
   */
  lemma {:induction false} ValidTurn(update: Update, history: string, reply: Reply, delivery: Delivery)
    requires WellFormed(update) && Outcome(reply).Returned?
    ensures var response := Outcome(reply).response;
            var h := HandleMessage(update, history, reply, delivery);
            var withText := WithMessage(history, update.message.value.text.value);
            && h.send == Some(SendMessage(response, delivery))
            && (response.Some? && response.value != [] && delivery == Unreachable ==>
                  h.result == Threw(RequestError))
            && (response.None? ==> h.result == Done(withText))
            && (response.Some? && (response.value == [] || delivery != Unreachable) ==>
                  h.result == Done(withText + "\n" + response.value))
            && Posts(h) == (if response.Some? && response.value != [] then [response.value] else [])
  {
    HandleWellFormed(update, history, reply, delivery);
  }

  /**
   * A completion failure that `handle_message` catches (a `KeyError` or a
   * `ValueError`) leaves the message appended but no response, and nothing
   * is sent; the others escape, and nothing is sent either.
   */
  lemma {:induction false} FailedCompletion(update: Update, history: string, reply: Reply, delivery: Delivery)
    requires WellFormed(update) && Outcome(reply).Raised?
    ensures var text := update.message.value.text.value;
            var h := HandleMessage(update, history, reply, delivery);
            && h.send == None && Posts(h) == []
            && (Caught(Outcome(reply).error) ==> h.result == Done(WithMessage(history, text)))
            && (reply == TransportFailure ==> h.result == Threw(RequestError))
            && (reply == Http(200, Choices([])) ==> h.result == Threw(IndexError))
  {
    var text := update.message.value.text.value;
    var withText := WithMessage(history, text);
    var sent := GenerateResponse(text, Flat(withText), reply).sent;
    HandleWellFormed(update, history, reply, delivery);
    var e := Outcome(reply).error;
    assert Respond(withText, sent, Raised(e), delivery)
             == Handling(if Caught(e) then Done(withText) else Threw(e), Some(sent), None);
    OutcomeByStatus(reply);
  }

  /**
   * An exception leaves `handle_message` exactly for an unreachable
   * completion service, an empty `choices` list, or a non-empty response
   * the platform cannot be reached to deliver.
   */
  lemma {:induction false} EscapesExactly(update: Update, history: string, reply: Reply, delivery: Delivery)
    ensures HandleMessage(update, history, reply, delivery).result.Threw? <==>
              WellFormed(update)
              && (reply == TransportFailure || reply == Http(200, Choices([]))
                  || (Outcome(reply).Returned? && Outcome(reply).response.Some?
                      && Outcome(reply).response.value != [] && delivery == Unreachable))
  {
    if WellFormed(update) {
      HandleWellFormed(update, history, reply, delivery);
      if Outcome(reply).Raised? {
        EscapingFailures(reply);
      }
    }
  }

  /**
   * The first message of a conversation (an empty, or blank, history) that
   * is not blank and has no carriage return and no trailing white space
   * reaches the completion service with its first `|H| + 1` characters cut
   * (and what follows left-stripped), so never unchanged; the corrected
   * merge would have sent it unchanged.
   */
  lemma {:induction false} FirstMessagePrompt(update: Update, history: string, reply: Reply, delivery: Delivery)
    requires WellFormed(update) && AllSpace(history) && '\r' !in history
    requires var t := update.message.value.text.value;
             '\r' !in t && Strip(t) != [] && RStrip(t) == t
    ensures var t := update.message.value.text.value;
            && HandleMessage(update, history, reply, delivery).prompt == Some(LStrip(From(t, |history| + 1)))
            && HandleMessage(update, history, reply, delivery).prompt != Some(t)
            && MergePromptFixed(t, WithMessage(history, t)) == t
  {
    var t := update.message.value.text.value;
    var withText := WithMessage(history, t);
    assert withText == history + "\n" + t;
    BlankHistoryTurn(history, t);
    var gen := GenerateResponse(t, Flat(withText), reply);
    assert gen.sent == MergePrompt(t, withText);
    PromptSent(update, history, reply, delivery);
  }

  /** A well-formed update always reaches the completion service, with the merged prompt. */
  lemma {:induction false} PromptSent(update: Update, history: string, reply: Reply, delivery: Delivery)
    requires WellFormed(update)
    ensures var text := update.message.value.text.value;
            HandleMessage(update, history, reply, delivery).prompt
              == Some(GenerateResponse(text, Flat(WithMessage(history, text)), reply).sent)
  {
  }
}
