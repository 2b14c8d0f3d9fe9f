/**
  The request handler in front of the pipeline: it checks the required
  fields of the request body, fills in the message type and the default
  context, runs the pipeline, and turns its message or its error into a
  status and a JSON body.
 */
module Route {
  import opened Wrappers
  import opened Prompt
  import opened Schema
  import opened Agent

  /** The fields the handler reads from the request body; `None` for a
      field that is absent. */
  datatype RequestBody = RequestBody(purpose: Option<string>, recipientRole: Option<string>, tone: Option<string>, context: Option<string>)

  /** A thrown value: an `Error` with its message, or anything else. */
  datatype Thrown = ErrorObject(message: string) | OtherValue

  /** The response: a status code and the JSON body. */
  datatype Response = Response(status: nat, body: Json)

  const ColdEmail := "Cold Email"
  const MissingFields := "Missing required fields"
  const InternalError := "Internal server error"

  /** JavaScript truthiness of an optional string: present and non-empty. */
  predicate Truthy(field: Option<string>) {
    field.Some? && field.value != ""
  }

  /** The request passes the presence check. */
  predicate Complete(body: RequestBody) {
    Truthy(body.purpose) && Truthy(body.recipientRole) && Truthy(body.tone)
  }

  /** The `{ error }` body. */
  function ErrorJson(message: string): (v: Json)
    ensures v.JObject? && v.members.Keys == {"error"} && v.members["error"] == JString(message)
  {
    JObject(map["error" := JString(message)])
  }

  /** The request handed to the pipeline: a cold e-mail with the three
      required fields as given, and the context or, when it is falsy, the
      empty string. */
  function ToInput(body: RequestBody): (input: Input)
    requires Complete(body)
    ensures input.messageType == ColdEmail
    ensures input.purpose == body.purpose.value && input.recipientRole == body.recipientRole.value
    ensures input.tone == body.tone.value
    ensures Truthy(body.context) ==> input.context == body.context.value
    ensures !Truthy(body.context) ==> input.context == ""
  {
    Input(ColdEmail, body.purpose.value, body.recipientRole.value, body.tone.value,
      if Truthy(body.context) then body.context.value else "")
  }

  /** The 500 response for a thrown value. */
  function Failed(thrown: Thrown): (r: Response)
    ensures r.status == 500
    ensures thrown.ErrorObject? ==> r.body == ErrorJson(thrown.message)
    ensures thrown.OtherValue? ==> r.body == ErrorJson(InternalError)
  {
    Response(500, ErrorJson(if thrown.ErrorObject? then thrown.message else InternalError))
  }

  /** `POST`. `request` is the parsed body, or what reading it threw;
      `generate` is the pipeline. */
  function Post(request: Result<RequestBody, Thrown>, generate: Input -> Result<Message, Thrown>): (r: Response)
    ensures r.status == 200 || r.status == 400 || r.status == 500
    ensures request.Failure? ==> r == Failed(request.error)
    ensures request.Success? && !Complete(request.value) ==> r == Response(400, ErrorJson(MissingFields))
    ensures r.status == 200 <==> request.Success? && Complete(request.value) && generate(ToInput(request.value)).Success?
    ensures r.status == 200 ==> r.body == ToJson(generate(ToInput(request.value)).value)
  {
    match request
    case Failure(thrown) => Failed(thrown)
    case Success(body) =>
      if !Complete(body) then Response(400, ErrorJson(MissingFields))
      else
        match generate(ToInput(body))
        case Success(message) => Response(200, ToJson(message))
        case Failure(thrown) => Failed(thrown)
  }

  /** A request missing a required field is answered without running the
      pipeline: any two pipelines give the same response. */
  lemma IncompleteSkipsPipeline(body: RequestBody, g: Input -> Result<Message, Thrown>, h: Input -> Result<Message, Thrown>)
    requires !Complete(body)
    ensures Post(Success(body), g) == Post(Success(body), h)
    ensures Post(Success(body), g).status == 400
  {
  }

  /** A pipeline failure becomes a 500 whose body carries the error's
      message, or the generic message for a thrown value that is not an
      `Error`. */
  lemma PipelineFailureIs500(body: RequestBody, generate: Input -> Result<Message, Thrown>)
    requires Complete(body) && generate(ToInput(body)).Failure?
    ensures Post(Success(body), generate) == Failed(generate(ToInput(body)).error)
  {
  }

  /** `generateMessage` as the handler sees it: every error it throws is an
      `Error`. */
  function Pipeline(llm: Oracle, parse: Parser): Input -> Result<Message, Thrown> {
    input =>
      match Outcome(Replies(llm, BuildPrompt(input), MaxRetries), parse)
      case Success(message) => Success(message)
      case Failure(error) => Failure(ErrorObject(error))
  }

  /** End to end: a complete request is answered with 200 and the first
      message the model produced that validates, or with 500 and the
      terminal error of the retry loop when every attempt failed. */
  lemma PostThroughPipeline(body: RequestBody, llm: Oracle, parse: Parser)
    requires Complete(body)
    ensures var rs := Replies(llm, BuildPrompt(ToInput(body)), MaxRetries);
      var r := Post(Success(body), Pipeline(llm, parse));
      && (r.status == 200 <==> exists k :: 0 <= k < MaxRetries && Accept(rs[k], parse).Some?)
      && (r.status == 200 ==> r.body == ToJson(Outcome(rs, parse).value))
      && (r.status != 200 ==> r.status == 500 && r.body == ErrorJson(ExhaustedMessage(LastResponse(rs, MaxRetries))))
  {
    OutcomeCases(Replies(llm, BuildPrompt(ToInput(body)), MaxRetries), parse);
  }
}
