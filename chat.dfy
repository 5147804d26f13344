/**
 * The `/chat` handler of the chat service and its `/` route. The request body,
 * the knowledge-base retrieval call and the model's `converse` call are inputs:
 * the two calls are given as functions from their query to either a response or
 * the text of the exception they raise.
 */
module ChatApp {
  import opened Wrappers
  import opened Numerals

  /** A decoded JSON value; `JNull` also stands for an absent request body. */
  datatype Json =
    | JNull
    | JBool(b: bool)
    | JNumber(x: real)
    | JString(s: string)
    | JArray(items: seq<Json>)
    | JObject(fields: map<string, Json>)

  /** Python truthiness of a decoded JSON value. */
  predicate Truthy(j: Json) {
    match j
    case JNull => false
    case JBool(b) => b
    case JNumber(x) => x != 0.0
    case JString(s) => s != ""
    case JArray(items) => items != []
    case JObject(fields) => fields != map[]
  }

  /** The falsy values are exactly null, `false`, zero, the empty string, the empty list and the empty object. */
  lemma FalsyValues(j: Json)
    ensures !Truthy(j) <==>
              j == JNull || j == JBool(false) || j == JNumber(0.0) || j == JString("") || j == JArray([]) || j == JObject(map[])
  {
  }

  // The parts of the retrieval response the handler reads; an absent key is `None`.
  datatype RetrievedContent = RetrievedContent(text: Option<string>)
  datatype RetrievalResult = RetrievalResult(content: Option<RetrievedContent>)
  datatype RetrieveResponse = RetrieveResponse(retrievalResults: Option<seq<RetrievalResult>>)

  // The parts of the `converse` response the handler reads; an absent key is `None`.
  datatype ContentBlock = ContentBlock(text: Option<string>)
  datatype OutputMessage = OutputMessage(content: Option<seq<ContentBlock>>)
  datatype ConverseOutput = ConverseOutput(message: Option<OutputMessage>)
  datatype ConverseResponse = ConverseResponse(output: Option<ConverseOutput>)

  /**
   * The outside world of the handler: the retrieval call on a text query, the
   * `converse` call on a prompt (each returns `Err` with the exception's text when
   * it raises), and the text of the parameter-validation exception the client
   * raises, before sending anything, when the query is not a string.
   */
  datatype Services = Services(
    retrieve: string -> Result<RetrieveResponse, string>,
    converse: string -> Result<ConverseResponse, string>,
    queryTypeError: Json -> string)

  /** A request sent to a remote service, in the order sent. */
  datatype Call = Retrieve(query: string) | Converse(prompt: string)

  /**
   * What the route answers: a JSON object (status 200), a `BadRequestError`
   * (status 400) with its message, or an exception escaping the handler (status 500).
   */
  datatype HttpResponse = Success(body: map<string, Json>) | BadRequest(message: string) | InternalError

  const BodyRequired := "Request body is required"
  const MessageRequired := "Message field is required"
  const NoResponse := "No response generated"
  const ErrorPrefix := "Error: "

  /** The `message` field of an object body; a missing field reads as null. */
  function MessageOf(body: Json): (m: Json)
    requires body.JObject?
    ensures "message" in body.fields ==> m == body.fields["message"]
    ensures "message" !in body.fields ==> m == JNull && !Truthy(m)
  {
    if "message" in body.fields then body.fields["message"] else JNull
  }

  /** The text of a retrieval result; a missing content or text reads as the empty string. */
  function ResultText(r: RetrievalResult): (text: string)
    ensures r.content.None? ==> text == ""
    ensures r.content.Some? && r.content.value.text.None? ==> text == ""
    ensures r.content.Some? && r.content.value.text.Some? ==> text == r.content.value.text.value
  {
    match r.content
    case None => ""
    case Some(c) => c.text.GetOr("")
  }

  /** The label that opens the `i`-th context entry: a newline, then `i` in brackets, then a space. */
  function Tag(i: nat): (tag: string)
    ensures |tag| == |Decimal(i)| + 4
    ensures tag[..2] == "\n[" && tag[|tag| - 2..] == "] "
    ensures tag[2..|tag| - 2] == Decimal(i) && ParseDecimal(tag[2..|tag| - 2]) == i
  {
    DecimalRoundTrip(i);
    var tag := "\n[" + Decimal(i) + "] ";
    assert tag[2..|tag| - 2] == Decimal(i);
    tag
  }

  /** Different entry numbers give different labels. */
  lemma TagsDistinct(i: nat, j: nat)
    ensures Tag(i) == Tag(j) <==> i == j
  {
    if Tag(i) == Tag(j) {
      assert Tag(i)[2..|Tag(i)| - 2] == Tag(j)[2..|Tag(j)| - 2];
    }
  }

  /** The context entry of the `i`-th result: its label followed by the snippet. */
  function Entry(i: nat, text: string): (e: string)
    ensures |e| == |Tag(i)| + |text|
    ensures e[..|Tag(i)|] == Tag(i) && e[|Tag(i)|..] == text
  {
    Tag(i) + text
  }

  /** The entries of `results`, numbered from 1, concatenated in order. */
  function Context(results: seq<RetrievalResult>): (context: string)
    ensures context == "" <==> results == []
  {
    if results == [] then ""
    else Context(results[..|results| - 1]) + Entry(|results|, ResultText(results[|results| - 1]))
  }

  /** The context built from a retrieval response; none when it has no `retrievalResults`. */
  function RetrievedContext(resp: RetrieveResponse): string {
    match resp.retrievalResults
    case None => ""
    case Some(results) => Context(results)
  }

  /** The handler's context loop: the context string, built entry by entry. */
  method BuildContext(resp: RetrieveResponse) returns (context: string)
    ensures context == RetrievedContext(resp)
  {
    context := "";
    if resp.retrievalResults.Some? {
      var results := resp.retrievalResults.value;
      var i := 0;
      while i < |results|
        invariant 0 <= i <= |results|
        invariant context == Context(results[..i])
      {
        var content := ResultText(results[i]);
        assert results[..i + 1][..i] == results[..i];
        context := context + Entry(i + 1, content);
        i := i + 1;
      }
      assert results[..i] == results;
    }
  }

  /**
   * After the first `k` entries comes the entry numbered `k + 1`, holding the text of
   * result `k`: the context lists every result, in order, numbered from 1.
   */
  lemma {:induction false} ContextLists(results: seq<RetrievalResult>, k: nat)
    requires k < |results|
    ensures Context(results[..k]) + Entry(k + 1, ResultText(results[k])) <= Context(results)
  {
    var last := |results| - 1;
    assert results[..last + 1] == results;
    if k < last {
      ContextLists(results[..last], k);
      assert results[..last][..k] == results[..k];
      assert results[..last][k] == results[k];
    } else {
      assert Context(results) == Context(results[..k]) + Entry(k + 1, ResultText(results[k]));
    }
  }

  /** The prompt: the bare message without context, otherwise the question followed by the context. */
  function Prompt(message: string, context: string): (prompt: string)
    ensures prompt == message <==> context == ""
    ensures context != "" ==> prompt == "User question: " + message + "\n\nRelevant context:\n" + context
  {
    if context != "" then "User question: " + message + "\n\nRelevant context:\n" + context else message
  }

  /** The bare message is sent exactly when the retrieval found nothing. */
  lemma PromptBareIffNothingRetrieved(message: string, resp: RetrieveResponse)
    ensures Prompt(message, RetrievedContext(resp)) == message <==>
            resp.retrievalResults.None? || resp.retrievalResults.value == []
  {
  }

  /** The text of the first content block of the output message, when output, message, a first block and its text all exist. */
  function FirstText(resp: ConverseResponse): Option<string> {
    if resp.output.Some? && resp.output.value.message.Some? then
      var content := resp.output.value.message.value.content.GetOr([]);
      if |content| > 0 && content[0].text.Some? then Some(content[0].text.value) else None
    else None
  }

  /** The handler's reply extraction: the reply starts as the fallback and is overwritten by the model's text if there is one. */
  method ExtractReply(resp: ConverseResponse) returns (reply: string)
    ensures reply == FirstText(resp).GetOr(NoResponse)
  {
    reply := NoResponse;
    if resp.output.Some? && resp.output.value.message.Some? {
      var content := resp.output.value.message.value.content.GetOr([]);
      if |content| > 0 && content[0].text.Some? {
        reply := content[0].text.value;
      }
    }
  }

  /** A model answer whose first content block carries `text`. */
  function Answer(text: string, more: seq<ContentBlock>): ConverseResponse {
    ConverseResponse(Some(ConverseOutput(Some(OutputMessage(Some([ContentBlock(Some(text))] + more))))))
  }

  /** The reply is the text of the answer's first block, whatever follows it. */
  lemma ReplyOfAnswer(text: string, more: seq<ContentBlock>)
    ensures FirstText(Answer(text, more)) == Some(text)
  {
  }

  /** Any text at all is found only in an answer of that shape. */
  lemma ReplyOnlyFromAnswer(resp: ConverseResponse)
    ensures FirstText(resp).Some? <==>
            exists text, more :: resp == Answer(text, more)
  {
    if FirstText(resp).Some? {
      var content := resp.output.value.message.value.content.value;
      assert content == [ContentBlock(Some(content[0].text.value))] + content[1..];
      assert resp == Answer(content[0].text.value, content[1..]);
    }
  }

  /** The success body: an object whose one `response` field holds the reply. */
  function Reply(reply: string): map<string, Json> {
    map["response" := JString(reply)]
  }

  /** The client error an exception becomes: its text behind the `Error: ` prefix. */
  function ErrorResponse(error: string): (response: HttpResponse)
    ensures response.BadRequest? && ErrorPrefix <= response.message
    ensures response.message[|ErrorPrefix|..] == error
  {
    BadRequest(ErrorPrefix + error)
  }

  /**
   * The `/chat` handler. Requests that fail validation are answered before any
   * remote call; a valid message is sent to retrieval, then the prompt built from
   * what was retrieved is sent to the model; any exception of either call becomes
   * a 400 with the exception's text.
   */
  method Chat(body: Json, services: Services) returns (response: HttpResponse, calls: seq<Call>)
    ensures !Truthy(body) ==> response == BadRequest(BodyRequired) && calls == []
    ensures Truthy(body) && !body.JObject? ==> response == InternalError && calls == []
    ensures Truthy(body) && body.JObject? && !Truthy(MessageOf(body)) ==>
              response == BadRequest(MessageRequired) && calls == []
    ensures Truthy(body) && body.JObject? && Truthy(MessageOf(body)) && !MessageOf(body).JString? ==>
              response == ErrorResponse(services.queryTypeError(MessageOf(body))) && calls == []
    ensures body.JObject? && MessageOf(body).JString? && MessageOf(body).s != "" ==>
              var message := MessageOf(body).s;
              match services.retrieve(message)
              case Err(e) => response == ErrorResponse(e) && calls == [Retrieve(message)]
              case Ok(found) =>
                var prompt := Prompt(message, RetrievedContext(found));
                calls == [Retrieve(message), Converse(prompt)] &&
                match services.converse(prompt)
                case Err(e) => response == ErrorResponse(e)
                case Ok(answer) => response == Success(Reply(FirstText(answer).GetOr(NoResponse)))
    ensures calls != [] ==> calls[0].Retrieve? && (response.Success? || (response.BadRequest? && ErrorPrefix <= response.message))
    ensures response.Success? ==> |calls| == 2
  {
    calls := [];
    if !Truthy(body) {
      return BadRequest(BodyRequired), calls;
    }
    if !body.JObject? {
      // `.get` on a list, string, number or `true` raises outside the `try`.
      return InternalError, calls;
    }
    var message := MessageOf(body);
    if !Truthy(message) {
      return BadRequest(MessageRequired), calls;
    }
    if !message.JString? {
      return ErrorResponse(services.queryTypeError(message)), calls;
    }
    calls := calls + [Retrieve(message.s)];
    var found := services.retrieve(message.s);
    if found.Err? {
      return ErrorResponse(found.error), calls;
    }
    var context := BuildContext(found.value);
    var prompt := Prompt(message.s, context);
    calls := calls + [Converse(prompt)];
    var answer := services.converse(prompt);
    if answer.Err? {
      return ErrorResponse(answer.error), calls;
    }
    var reply := ExtractReply(answer.value);
    response := Success(Reply(reply));
  }

  /** The `/` route. */
  function Index(): (page: map<string, Json>)
    ensures page.Keys == {"hello"} && page["hello"] == JString("world")
  {
    map["hello" := JString("world")]
  }
}
