/**
 * The completion request of `generate_response` (main-test.py lines
 * 228-310): the prompt it builds and what it makes of the service's answer.
 * The HTTP exchange itself is an input, `Reply`: the answer the service
 * gives to the one request sent.
 */
module CompletionRequest {
  import opened Wrappers
  import opened PyStrings
  import opened PromptMerge

  /** The fixed text returned when the service answers with a non-200 status. */
  const Placeholder: string := "Seems, something happened, sorry."

  /** One element of `choices`: its `text` is a string, JSON null, or missing. */
  datatype Choice = Text(text: string) | NullText | MissingText

  /** The JSON body of an answer: unparsable, without a `choices` key, or with its list. */
  datatype Payload = Unparsable | MissingChoices | Choices(choices: seq<Choice>)

  /** What `requests.post` to the completion endpoint gives back. */
  datatype Reply = TransportFailure | Http(status: int, payload: Payload)

  /**
   * The Python exceptions that can leave the request or the reply:
   * `requests`' JSON decoding error is a `ValueError`, a missing key a
   * `KeyError`, `[0]` on an empty list an `IndexError`, and a failed
   * connection a `RequestException` (`RequestError` here).
   */
  datatype Exception = KeyError | ValueError | IndexError | RequestError

  /** `handle_message` catches exactly these two (main-test.py:376). */
  predicate Caught(e: Exception) {
    e == KeyError || e == ValueError
  }

  /** What `generate_response` does with the answer: return a value (possibly None) or raise. */
  datatype Completion = Returned(response: Option<string>) | Raised(error: Exception)

  /** Lines 299-310: the status check, the `choices` test and the fall-through indexing. */
  function Outcome(reply: Reply): Completion {
    match reply
    case TransportFailure => Raised(RequestError)
    case Http(status, payload) =>
      if status != 200 then Returned(Some(Placeholder))
      else
        match payload
        case Unparsable => Raised(ValueError)
        case MissingChoices => Raised(KeyError)
        case Choices(cs) =>
          if |cs| == 0 then Raised(IndexError)
          else
            match cs[0]
            case Text(s) => Returned(Some(s))
            case NullText => Returned(None)
            case MissingText => Raised(KeyError)
  }

  /**
   * A non-200 status gives exactly the placeholder; a 200 status with a
   * first choice that has text gives that text verbatim; a 200 status with
   * an empty `choices` list does not give the placeholder but raises
   * `IndexError` at line 310, so lines 311-319 are never reached.
   */
  lemma {:induction false} OutcomeByStatus(reply: Reply)
    ensures reply.Http? && reply.status != 200 ==> Outcome(reply) == Returned(Some(Placeholder))
    ensures reply.Http? && reply.status == 200 && reply.payload.Choices?
            && |reply.payload.choices| > 0 && reply.payload.choices[0].Text? ==>
              Outcome(reply) == Returned(Some(reply.payload.choices[0].text))
    ensures reply.Http? && reply.status == 200 && reply.payload == Choices([]) ==>
              Outcome(reply) == Raised(IndexError)
  {
  }

  /**
   * Conversely, a returned string is the placeholder of a failed status or
   * the first choice's text of a 200 answer, and nothing else.
   */
  lemma {:induction false} ReturnedTextOrigin(reply: Reply, s: string)
    requires Outcome(reply) == Returned(Some(s))
    ensures reply.Http?
    ensures reply.status != 200 ==> s == Placeholder
    ensures reply.status == 200 ==>
              reply.payload.Choices? && |reply.payload.choices| > 0
              && reply.payload.choices[0] == Text(s)
  {
    match reply
    case Http(status, payload) =>
      if status == 200 {
        match payload
        case Choices(cs) =>
          assert |cs| > 0;
          match cs[0]
          case Text(_) =>
      }
  }

  /**
   * Which failures escape `handle_message`: the transport failure and the
   * empty `choices` list; the others are a `KeyError` or a `ValueError`,
   * which it catches.
   */
  lemma {:induction false} EscapingFailures(reply: Reply)
    requires Outcome(reply).Raised?
    ensures !Caught(Outcome(reply).error) <==>
              reply == TransportFailure || reply == Http(200, Choices([]))
  {
    match reply
    case TransportFailure =>
    case Http(status, payload) =>
      match payload
      case Unparsable =>
      case MissingChoices =>
      case Choices(cs) =>
        if |cs| == 0 {
          assert payload == Choices([]);
        }
  }

  /** The prompt actually sent and what came of the request. */
  datatype Generation = Generation(sent: string, result: Completion)

  /**
   * `generate_response(prompt, conversation_history)`: the history is joined
   * if it is a list, the prompt is assembled exactly as lines 238-260 do it
   * (including the blank-history defect, see PromptMerge) and the request
   * always goes out, since the serialise-then-parse self-check of lines
   * 276-285 cannot fail.
   */
  function GenerateResponse(prompt: string, history: HistoryArg, reply: Reply): (g: Generation)
    ensures reply.Http? && reply.status != 200 ==> g.result == Returned(Some(Placeholder))
    ensures g.result.Raised? ==> reply == TransportFailure || reply.status == 200
  {
    Generation(MergePrompt(prompt, Flatten(history)), Outcome(reply))
  }

  /**
   * The prompt that goes out holds no carriage return, whatever the history
   * argument, and the answer alone decides the outcome.
   */
  lemma {:induction false} GeneratedPrompt(prompt: string, history: HistoryArg, reply: Reply, other: HistoryArg)
    ensures '\r' !in GenerateResponse(prompt, history, reply).sent
    ensures GenerateResponse(prompt, history, reply).result == GenerateResponse(prompt, other, reply).result
  {
    SentHasNoCR(prompt, Flatten(history));
  }
}
