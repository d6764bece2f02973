/**
 * The call to the remote completion service, with its single fallback: when
 * the primary call fails and the model's name, lower-cased, contains
 * "mixtral", the same messages go once to a designated fallback model; if
 * that fails too, the primary's error is the one reported.
 */
module ModelClient {
  import opened Wrappers
  import opened Text

  const DefaultModel: string := "openai/gpt-oss-120b"
  const FallbackModel: string := "meta-llama/llama-4-scout-17b-16e-instruct"
  const DeprecatedFamily: string := "mixtral"

  datatype Role = System | User
  datatype Message = Message(role: Role, content: string)

  /** One chat-completion request: a model name and the ordered messages. */
  datatype Request = Request(model: string, messages: seq<Message>)

  /** The failure a completion call raises, with its cause. */
  datatype ServiceError = ServiceError(cause: string)

  /** The message list the analyst sends: the system text, then the user text. */
  function Messages(system: string, user: string): (r: seq<Message>)
  {
    [Message(System, system), Message(User, user)]
  }

  /** Whether a failing model is retried with the fallback: `"mixtral" in model.lower()`. */
  predicate HasFallback(model: string)
  {
    Contains(Lower(model), DeprecatedFamily)
  }

  /** The requests the fallback policy sends, in order. */
  function Attempts(respond: Request -> Result<string, ServiceError>, model: string, messages: seq<Message>): (r: seq<Request>)
  {
    var primary := Request(model, messages);
    if respond(primary).Err? && HasFallback(model) then [primary, Request(FallbackModel, messages)]
    else [primary]
  }

  /** What the fallback policy returns: the first success, or else the primary's error. */
  function Complete(respond: Request -> Result<string, ServiceError>, model: string, messages: seq<Message>): (r: Result<string, ServiceError>)
  {
    var primary := respond(Request(model, messages));
    if primary.Ok? || !HasFallback(model) then primary
    else
      var fallback := respond(Request(FallbackModel, messages));
      if fallback.Ok? then fallback else primary
  }

  /**
   * The client of the completion service. The service is an abstract
   * responder from requests to replies or errors; `sent` records every
   * request, so that contracts can say how many calls were made.
   */
  class GroqClient {
    const respond: Request -> Result<string, ServiceError>
    ghost var sent: seq<Request>

    constructor (respond: Request -> Result<string, ServiceError>)
      ensures this.respond == respond && sent == []
    {
      this.respond := respond;
      sent := [];
    }

    /** `client.chat.completions.create`: one request, one reply or error. */
    method Create(model: string, messages: seq<Message>) returns (r: Result<string, ServiceError>)
      modifies this
      ensures r == respond(Request(model, messages))
      ensures sent == old(sent) + [Request(model, messages)]
    {
      r := respond(Request(model, messages));
      sent := sent + [Request(model, messages)];
    }
  }

  /** `call_groq_model`: the primary call, and at most one fallback call. */
  method CallGroqModel(client: GroqClient, system: string, user: string, model: string)
    returns (r: Result<string, ServiceError>)
    modifies client
    ensures r == Complete(client.respond, model, Messages(system, user))
    ensures client.sent == old(client.sent) + Attempts(client.respond, model, Messages(system, user))
  {
    var messages := Messages(system, user);
    r := client.Create(model, messages);
    if r.Err? {
      var primaryError := r;
      if HasFallback(model) {
        var fallback := client.Create(FallbackModel, messages);
        if fallback.Ok? {
          r := fallback;
          return;
        }
      }
      r := primaryError;
    }
  }

  /** A successful primary call is returned as is, and nothing else is sent. */
  lemma PrimarySuccessIsReturned(respond: Request -> Result<string, ServiceError>, model: string, messages: seq<Message>)
    requires respond(Request(model, messages)).Ok?
    ensures Complete(respond, model, messages) == respond(Request(model, messages))
    ensures Attempts(respond, model, messages) == [Request(model, messages)]
  {
  }

  /**
   * The policy sends one or two requests, the primary first with the given
   * model; a second request goes out exactly when the primary failed and the
   * model is of the deprecated family, and it goes to the fallback model with
   * the same messages.
   */
  lemma AttemptsShape(respond: Request -> Result<string, ServiceError>, model: string, messages: seq<Message>)
    ensures var a := Attempts(respond, model, messages);
      1 <= |a| <= 2 && a[0] == Request(model, messages)
      && (|a| == 2 <==> respond(Request(model, messages)).Err? && HasFallback(model))
      && (|a| == 2 ==> a[1] == Request(FallbackModel, messages))
  {
  }

  /**
   * The call fails exactly when every request sent failed; on success the
   * content is that of the last request sent, and on failure the error is
   * the primary's.
   */
  lemma {:induction false} OutcomeOfAttempts(respond: Request -> Result<string, ServiceError>, model: string, messages: seq<Message>)
    ensures var a := Attempts(respond, model, messages);
      var r := Complete(respond, model, messages);
      (r.Err? <==> forall k :: 0 <= k < |a| ==> respond(a[k]).Err?)
      && (r.Ok? ==> r == respond(a[|a| - 1]))
      && (r.Err? ==> r == respond(a[0]))
  {
    var a := Attempts(respond, model, messages);
    var primary := Request(model, messages);
    if respond(primary).Err? && HasFallback(model) {
      var fallback := Request(FallbackModel, messages);
      assert a == [primary, fallback];
      if respond(fallback).Err? {
        forall k | 0 <= k < |a|
          ensures respond(a[k]).Err?
        {
          assert a[k] == primary || a[k] == fallback;
        }
      } else {
        assert !respond(a[1]).Err?;
      }
    } else {
      assert a == [primary];
      if respond(primary).Err? {
        forall k | 0 <= k < |a|
          ensures respond(a[k]).Err?
        {
          assert a[k] == primary;
        }
      } else {
        assert !respond(a[0]).Err?;
      }
    }
  }

  /** A model with neither 'm' nor 'M' in its name never falls back. */
  lemma {:induction false} NoLetterMNoFallback(model: string)
    requires 'm' !in model && 'M' !in model
    ensures !HasFallback(model)
  {
    var low := Lower(model);
    forall k | 0 <= k < |low|
      ensures low[k] != 'm'
    {
      assert model[k] in model;
    }
    AbsentLead(low, DeprecatedFamily);
  }

  /** The default model never falls back: its failure is reported at once, after one request. */
  lemma DefaultModelNeverFallsBack(respond: Request -> Result<string, ServiceError>, messages: seq<Message>)
    ensures Attempts(respond, DefaultModel, messages) == [Request(DefaultModel, messages)]
    ensures Complete(respond, DefaultModel, messages) == respond(Request(DefaultModel, messages))
  {
    NoLetterMNoFallback(DefaultModel);
  }

  /** The family test ignores case, so a capitalised model name falls back too. */
  lemma {:induction false} CapitalisedFamilyFallsBack(model: string)
    requires model == "Mixtral-8x7b"
    ensures HasFallback(model)
  {
    var low := Lower(model);
    assert low[..|DeprecatedFamily|] == DeprecatedFamily;
    assert OccursAt(low, DeprecatedFamily, 0);
    ContainsIff(low, DeprecatedFamily);
  }

  /** Fallback success: the fallback's content is returned, not an error. */
  lemma FallbackRescues(respond: Request -> Result<string, ServiceError>, model: string, messages: seq<Message>)
    requires HasFallback(model)
    requires respond(Request(model, messages)).Err?
    requires respond(Request(FallbackModel, messages)).Ok?
    ensures Complete(respond, model, messages) == respond(Request(FallbackModel, messages))
  {
  }

  /** Fallback failure: the error reported is the primary's, not the fallback's. */
  lemma FallbackFailureReportsPrimary(respond: Request -> Result<string, ServiceError>, model: string, messages: seq<Message>)
    requires respond(Request(model, messages)).Err?
    requires respond(Request(FallbackModel, messages)).Err?
    ensures Complete(respond, model, messages) == respond(Request(model, messages))
  {
  }
}
