/**
 * One question turn: build the prompt, ask the model, classify the reply,
 * and either show an explanation, show the SQL alone, or run it on the
 * engine where the dataset is registered. The engine is an abstract function
 * from SQL text to a result table or an error message.
 */
module Pipeline {
  import opened Wrappers
  import opened ResponseParser
  import opened PromptBuilder
  import opened ModelClient

  /** The terminal state of one turn. */
  datatype Outcome<Table> =
    | ExplanationShown(text: string)
    | SqlOnly(sql: string)
    | QuerySucceeded(sql: string, table: Table)
    | QueryFailed(sql: string, message: string, raw: string)  // keeps the raw reply for diagnosis
    | ParseFailed(raw: string)                                // "could not extract", with the raw reply
    | ServiceFailed(error: ServiceError)

  /** What a reply leads to, given the "SQL only" switch and the engine. */
  function Route<Table>(reply: string, sqlOnly: bool, engine: string -> Result<Table, string>): (r: Outcome<Table>)
  {
    match Classify(reply)
    case Explanation(text) => ExplanationShown(text)
    case Unrecognized(raw) => ParseFailed(raw)
    case Sql(sql) =>
      if sqlOnly then SqlOnly(sql)
      else
        match engine(sql)
        case Ok(table) => QuerySucceeded(sql, table)
        case Err(message) => QueryFailed(sql, message, reply)
  }

  /** The whole turn, from the model's answer (or failure) to the outcome. */
  function Turn<Table>(answer: Result<string, ServiceError>, sqlOnly: bool, engine: string -> Result<Table, string>): (r: Outcome<Table>)
  {
    match answer
    case Err(e) => ServiceFailed(e)
    case Ok(reply) => Route(reply, sqlOnly, engine)
  }

  /**
   * `if query and run:` — build the prompt, call the default model through
   * the fallback policy, and route the reply.
   */
  method Run<Table>(client: GroqClient, names: seq<string>, dtypes: seq<string>, sample: string,
                    question: string, sqlOnly: bool, engine: string -> Result<Table, string>)
    returns (outcome: Outcome<Table>)
    requires question != ""
    modifies client
    ensures var prompt := BuildPrompt(names, dtypes, sample, question);
      var messages := Messages(prompt.system, prompt.user);
      outcome == Turn(Complete(client.respond, DefaultModel, messages), sqlOnly, engine)
      && client.sent == old(client.sent) + Attempts(client.respond, DefaultModel, messages)
  {
    var prompt := BuildPrompt(names, dtypes, sample, question);
    var answer := CallGroqModel(client, prompt.system, prompt.user, DefaultModel);
    if answer.Err? {
      outcome := ServiceFailed(answer.error);
      return;
    }
    var reply := answer.value;
    var parsed := Classify(reply);
    if parsed.Explanation? {
      outcome := ExplanationShown(reply);
    } else if parsed.Sql? {
      if sqlOnly {
        outcome := SqlOnly(parsed.sql);
      } else {
        var result := engine(parsed.sql);
        if result.Ok? {
          outcome := QuerySucceeded(parsed.sql, result.value);
        } else {
          outcome := QueryFailed(parsed.sql, result.error, reply);
        }
      }
    } else {
      outcome := ParseFailed(reply);
    }
  }

  /** With "SQL only" set, the engine is never consulted: any two engines give the same outcome. */
  lemma SqlOnlyNeverExecutes<Table>(reply: string, e1: string -> Result<Table, string>, e2: string -> Result<Table, string>)
    ensures Route(reply, true, e1) == Route(reply, true, e2)
    ensures !Route(reply, true, e1).QuerySucceeded? && !Route(reply, true, e1).QueryFailed?
  {
  }

  /** The engine is asked about the extracted SQL only: engines that agree on it give the same outcome. */
  lemma EngineSeesOnlyExtractedSql<Table>(reply: string, sqlOnly: bool,
                                          e1: string -> Result<Table, string>, e2: string -> Result<Table, string>)
    requires Classify(reply).Sql? ==> e1(Classify(reply).sql) == e2(Classify(reply).sql)
    ensures Route(reply, sqlOnly, e1) == Route(reply, sqlOnly, e2)
  {
  }

  /**
   * Each outcome of a reply, and what it carries: explanations and
   * unusable replies keep the raw text, SQL comes from the reply, an
   * engine success carries the engine's table and an engine failure its
   * message together with the raw reply.
   */
  lemma RouteOutcomes<Table>(reply: string, sqlOnly: bool, engine: string -> Result<Table, string>)
    ensures var o := Route(reply, sqlOnly, engine);
      (o.ExplanationShown? <==> Classify(reply).Explanation?)
      && (o.ExplanationShown? ==> o.text == reply)
      && (o.ParseFailed? <==> Classify(reply).Unrecognized?)
      && (o.ParseFailed? ==> o.raw == reply)
      && (o.SqlOnly? <==> sqlOnly && Classify(reply).Sql?)
      && (o.SqlOnly? ==> o.sql == Classify(reply).sql)
      && (o.QuerySucceeded? <==> !sqlOnly && Classify(reply).Sql? && engine(Classify(reply).sql).Ok?)
      && (o.QuerySucceeded? ==> Classify(reply) == Sql(o.sql) && engine(o.sql) == Ok(o.table))
      && (o.QueryFailed? ==> Classify(reply) == Sql(o.sql) && engine(o.sql) == Err(o.message) && o.raw == reply)
      && !o.ServiceFailed?
  {
  }

  /** A model failure ends the turn with that failure and nothing else. */
  lemma ServiceFailureShortCircuits<Table>(e: ServiceError, sqlOnly: bool, engine: string -> Result<Table, string>)
    ensures Turn(Err(e), sqlOnly, engine) == ServiceFailed(e)
  {
  }

  /**
   * End to end: a model that answers the question with fenced SQL for the
   * average, and an engine that runs it, give the engine's table for that SQL.
   */
  lemma FencedAnswerIsExecuted<Table>(respond: Request -> Result<string, ServiceError>, messages: seq<Message>,
                                      engine: string -> Result<Table, string>, query: string, table: Table)
    requires query == "SELECT AVG(salary) FROM data"
    requires respond(Request(DefaultModel, messages)) == Ok(LowerOpen + "\n" + query + "\n" + Fence)
    requires engine(query) == Ok(table)
    ensures Turn(Complete(respond, DefaultModel, messages), false, engine) == QuerySucceeded(query, table)
  {
    FencedAverageReply(LowerOpen + "\n" + query + "\n" + Fence, query);
  }

  /** End to end: with "SQL only" the same answer shows the SQL and runs nothing. */
  lemma FencedAnswerSqlOnly<Table>(respond: Request -> Result<string, ServiceError>, messages: seq<Message>,
                                   engine: string -> Result<Table, string>, query: string)
    requires query == "SELECT AVG(salary) FROM data"
    requires respond(Request(DefaultModel, messages)) == Ok(LowerOpen + "\n" + query + "\n" + Fence)
    ensures Turn(Complete(respond, DefaultModel, messages), true, engine) == SqlOnly(query)
  {
    FencedAverageReply(LowerOpen + "\n" + query + "\n" + Fence, query);
  }
}
