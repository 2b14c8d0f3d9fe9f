/**
  The generation pipeline: build the prompt, ask the model, strip fences,
  parse, validate, and try again on any failure, at most `MaxRetries` times.
  The model is an oracle that answers a prompt on its n-th call; the JSON
  parser is an oracle from text to a JSON value.
 */
module Agent {
  import opened Wrappers
  import opened Prompt
  import opened Fences
  import opened Schema

  const MaxRetries: nat := 3

  /** How many characters of the last response the terminal error quotes. */
  const ExcerptLimit: nat := 200

  /** What one call to the model yields: a thrown transport error, a
      completion without message content, or the content. */
  datatype Reply = TransportError(reason: string) | NoContent | Content(text: string)

  /** The model: its reply to a prompt on the n-th call (counting from 0). */
  type Oracle = (string, nat) -> Reply

  /** `JSON.parse`: a value, or `None` where it throws. */
  type Parser = string -> Option<Json>

  /** The text a reply hands on: present and non-empty content only. This is
      what `lastResponse` records. */
  function Received(reply: Reply): (r: Option<string>)
    ensures r.Some? <==> reply.Content? && reply.text != ""
    ensures r.Some? ==> r.value == reply.text
  {
    if reply.Content? && reply.text != "" then Some(reply.text) else None
  }

  /** The message one attempt yields for a reply, or `None` for a failed
      attempt: no content, text that does not parse, or a value the schema
      rejects. */
  function Accept(reply: Reply, parse: Parser): (r: Option<Message>)
    ensures r.Some? ==> Received(reply).Some?
  {
    match Received(reply)
    case None => None
    case Some(text) =>
      match parse(StripFences(text))
      case None => None
      case Some(v) => Validate(v)
  }

  /** An accepted message comes from non-empty content whose stripped text
      parses to an object, and it carries exactly that object's five
      required members. */
  lemma AcceptedMatchesParsed(reply: Reply, parse: Parser)
    requires Accept(reply, parse).Some?
    ensures reply.Content? && reply.text != ""
    ensures var v := parse(StripFences(reply.text));
      && v.Some? && v.value.JObject?
      && forall k :: k in Keys ==> ToJson(Accept(reply, parse).value).members[k] == v.value.members[k]
  {
  }

  /** The converse: non-empty content whose stripped text parses to an
      object with the five required members as strings is accepted, and the
      message is the one validation builds from that object. */
  lemma AcceptValid(reply: Reply, parse: Parser, t: string, v: Json)
    requires Received(reply) == Some(t) && parse(StripFences(t)) == Some(v)
    requires v.JObject? && forall k :: k in Keys ==> HasString(v.members, k)
    ensures Accept(reply, parse).Some? && Accept(reply, parse) == Validate(v)
  {
  }

  /** The replies of the first `n` calls for a prompt. */
  function Replies(llm: Oracle, prompt: string, n: nat): (rs: seq<Reply>)
    ensures |rs| == n && forall k :: 0 <= k < n ==> rs[k] == llm(prompt, k)
  {
    seq(n, k requires 0 <= k => llm(prompt, k))
  }

  /** What each attempt yields for the replies `rs`. */
  function Verdicts(rs: seq<Reply>, parse: Parser): (vs: seq<Option<Message>>)
    ensures |vs| == |rs| && forall k :: 0 <= k < |rs| ==> vs[k] == Accept(rs[k], parse)
  {
    seq(|rs|, k requires 0 <= k < |rs| => Accept(rs[k], parse))
  }

  /** The index of the first present value. */
  function FirstSome<T>(xs: seq<Option<T>>): (r: Option<nat>)
    ensures r.Some? ==> r.value < |xs| && xs[r.value].Some?
    ensures r.Some? ==> forall j :: 0 <= j < r.value ==> xs[j].None?
    ensures r.None? ==> forall j :: 0 <= j < |xs| ==> xs[j].None?
  {
    if xs == [] then None
    else if xs[0].Some? then Some(0)
    else
      match FirstSome(xs[1..])
      case None => None
      case Some(k) => Some(k + 1)
  }

  /** The value of `lastResponse` after the first `n` replies of `rs`: the
      last content received, or the empty string if none was. */
  function LastResponse(rs: seq<Reply>, n: nat): (r: string)
    requires n <= |rs|
    ensures r == "" <==> forall j :: 0 <= j < n ==> Received(rs[j]).None?
  {
    if n == 0 then ""
    else if Received(rs[n - 1]).Some? then rs[n - 1].text
    else LastResponse(rs, n - 1)
  }

  /** A non-empty `lastResponse` is the content of the last reply that had
      any: replies without content leave it alone. */
  lemma {:induction false} LastResponseIsLast(rs: seq<Reply>, n: nat)
    requires n <= |rs| && LastResponse(rs, n) != ""
    ensures exists j :: (0 <= j < n && Received(rs[j]) == Some(LastResponse(rs, n))
      && forall i :: j < i < n ==> Received(rs[i]).None?)
  {
    if Received(rs[n - 1]).None? {
      LastResponseIsLast(rs, n - 1);
      var j :| 0 <= j < n - 1 && Received(rs[j]) == Some(LastResponse(rs, n - 1))
        && forall i :: j < i < n - 1 ==> Received(rs[i]).None?;
      assert forall i :: j < i < n ==> Received(rs[i]).None?;
    } else {
      assert Received(rs[n - 1]) == Some(LastResponse(rs, n));
    }
  }

  /** The quotation of the last response in the terminal error: the whole of
      it up to `ExcerptLimit` characters, otherwise its first `ExcerptLimit`
      characters and an ellipsis. */
  function Excerpt(s: string): (r: string)
    ensures |r| <= ExcerptLimit + 3
    ensures |s| <= ExcerptLimit ==> r == s
    ensures |s| > ExcerptLimit ==> |r| == ExcerptLimit + 3 && r[..ExcerptLimit] == s[..ExcerptLimit] && r[ExcerptLimit..] == "..."
  {
    if |s| > ExcerptLimit then s[..ExcerptLimit] + "..." else s
  }

  /** `MaxRetries` written out as a decimal digit. */
  const RetriesDigit: char := ('0' as int + MaxRetries) as char

  /** The start of the terminal error, with `MaxRetries` written out. */
  const ExhaustedPrefix := "Failed to generate valid message after " + [RetriesDigit] + " retries. Last AI response: \""

  /** The message of the error thrown once every attempt has failed. */
  function ExhaustedMessage(lastResponse: string): (r: string)
    ensures |ExhaustedPrefix| < |r| <= |ExhaustedPrefix| + ExcerptLimit + 4
    ensures r[..|ExhaustedPrefix|] == ExhaustedPrefix && r[|r| - 1] == '"'
    ensures r[|ExhaustedPrefix|..|r| - 1] == Excerpt(lastResponse)
  {
    ExhaustedPrefix + Excerpt(lastResponse) + "\""
  }

  const UnexpectedError := "Unexpected error"

  /** What `generateMessage` settles on for the replies `rs`: the message of
      the first attempt that succeeds, otherwise the terminal error. */
  function Outcome(rs: seq<Reply>, parse: Parser): Result<Message, string> {
    match FirstSome(Verdicts(rs, parse))
    case Some(k) => Success(Accept(rs[k], parse).value)
    case None => Failure(ExhaustedMessage(LastResponse(rs, |rs|)))
  }

  /** How many calls `generateMessage` makes for the replies `rs`: one per
      attempt up to the first that succeeds, otherwise one per reply. */
  function CallsMade(rs: seq<Reply>, parse: Parser): (n: nat)
    ensures n <= |rs| && (|rs| > 0 ==> 1 <= n)
  {
    match FirstSome(Verdicts(rs, parse))
    case Some(k) => k + 1
    case None => |rs|
  }

  /** If attempt `k` is the first to yield a message, that message is the
      result, unchanged, after exactly `k + 1` calls. */
  lemma FirstValidReturned(rs: seq<Reply>, parse: Parser, k: nat)
    requires k < |rs| && Accept(rs[k], parse).Some?
    requires forall j :: 0 <= j < k ==> Accept(rs[j], parse).None?
    ensures Outcome(rs, parse) == Success(Accept(rs[k], parse).value)
    ensures CallsMade(rs, parse) == k + 1
  {
    var vs := Verdicts(rs, parse);
    var f := FirstSome(vs);
    assert vs[k].Some?;
    assert f.Some? && f.value == k by {
      assert f.Some? ==> f.value >= k;
    }
  }

  /** A message is returned only if some attempt yielded it and every
      earlier attempt failed. */
  lemma ReturnedIsFirstValid(rs: seq<Reply>, parse: Parser, m: Message)
    requires Outcome(rs, parse) == Success(m)
    ensures exists k :: (0 <= k < |rs| && Accept(rs[k], parse) == Some(m) && CallsMade(rs, parse) == k + 1
      && forall j :: 0 <= j < k ==> Accept(rs[j], parse).None?)
  {
    var vs := Verdicts(rs, parse);
    var k := FirstSome(vs).value;
    assert vs[k] == Accept(rs[k], parse);
    assert forall j :: 0 <= j < k ==> vs[j] == Accept(rs[j], parse);
  }

  /** When every attempt fails, the error quotes `lastResponse` after all
      of them, and every reply was asked for. */
  lemma AllFailedExhausted(rs: seq<Reply>, parse: Parser)
    requires forall k :: 0 <= k < |rs| ==> Accept(rs[k], parse).None?
    ensures Outcome(rs, parse) == Failure(ExhaustedMessage(LastResponse(rs, |rs|)))
    ensures CallsMade(rs, parse) == |rs|
  {
    var vs := Verdicts(rs, parse);
    forall k | 0 <= k < |vs|
      ensures vs[k].None?
    {
      assert vs[k] == Accept(rs[k], parse);
    }
    NoneBeforeEach(vs, |vs|);
    FirstSomeNone(vs);
  }

  /** `generateMessage` returns a message exactly when some attempt yields
      one, and otherwise throws the terminal error. */
  lemma OutcomeCases(rs: seq<Reply>, parse: Parser)
    ensures Outcome(rs, parse).Success? <==> exists k :: 0 <= k < |rs| && Accept(rs[k], parse).Some?
    ensures Outcome(rs, parse).Failure? ==> Outcome(rs, parse).error == ExhaustedMessage(LastResponse(rs, |rs|))
  {
    if exists k :: 0 <= k < |rs| && Accept(rs[k], parse).Some? {
      var k :| 0 <= k < |rs| && Accept(rs[k], parse).Some?;
      assert Verdicts(rs, parse)[k].Some?;
    } else {
      AllFailedExhausted(rs, parse);
    }
  }

  /** A model that never returns content leads to an error with an empty
      quotation. */
  lemma NothingReceived(rs: seq<Reply>, parse: Parser)
    requires |rs| == MaxRetries && forall k :: 0 <= k < |rs| ==> Received(rs[k]).None?
    ensures Outcome(rs, parse) == Failure(ExhaustedPrefix + "\"")
  {
    AllFailedExhausted(rs, parse);
  }

  /** A model that keeps returning the same unparsable text `t` leads to an
      error that quotes `t`, cut to `ExcerptLimit` characters. */
  lemma AlwaysUnparsable(rs: seq<Reply>, parse: Parser, t: string)
    requires t != [] && parse(StripFences(t)).None?
    requires |rs| == MaxRetries && forall k :: 0 <= k < |rs| ==> rs[k] == Content(t)
    ensures Outcome(rs, parse) == Failure(ExhaustedMessage(t))
    ensures |t| > ExcerptLimit ==>
      Outcome(rs, parse).error == ExhaustedPrefix + t[..ExcerptLimit] + "...\""
  {
    AllFailedExhausted(rs, parse);
    assert LastResponse(rs, |rs|) == t;
  }

  /** None of the first `n` values is present. */
  predicate NoneBefore<T>(xs: seq<Option<T>>, n: nat)
    requires n <= |xs|
  {
    n == 0 || (xs[n - 1].None? && NoneBefore(xs, n - 1))
  }

  lemma {:induction false} NoneBeforeEach<T>(xs: seq<Option<T>>, n: nat)
    requires n <= |xs|
    ensures NoneBefore(xs, n) <==> forall j :: 0 <= j < n ==> xs[j].None?
  {
    if n > 0 {
      NoneBeforeEach(xs, n - 1);
    }
  }

  /** The first present value is the one `FirstSome` finds. */
  lemma FirstSomeAt<T>(xs: seq<Option<T>>, k: nat)
    requires k < |xs| && xs[k].Some? && NoneBefore(xs, k)
    ensures FirstSome(xs) == Some(k)
  {
    NoneBeforeEach(xs, k);
  }

  /** With no value present, `FirstSome` finds none. */
  lemma FirstSomeNone<T>(xs: seq<Option<T>>)
    requires NoneBefore(xs, |xs|)
    ensures FirstSome(xs) == None
  {
    NoneBeforeEach(xs, |xs|);
  }

  /** The retry loop of `generateMessage` for the prompt it sends. The loop
      counts failed attempts in `attempts` and keeps the last content
      received in `lastResponse`; `calls` counts the calls made to the
      model. The message of the first attempt that succeeds is returned
      after exactly that many calls; if none of the `MaxRetries` attempts
      succeeds, the error quotes the last content received. The fall-back
      `Unexpected error` after the loop is never reached. */
  method RetryLoop(prompt: string, llm: Oracle, parse: Parser) returns (result: Result<Message, string>, calls: nat)
    ensures 1 <= calls <= MaxRetries
    ensures var rs := Replies(llm, prompt, MaxRetries);
      result == Outcome(rs, parse) && calls == CallsMade(rs, parse)
  {
    ghost var rs := Replies(llm, prompt, MaxRetries);
    ghost var vs := Verdicts(rs, parse);
    var attempts := 0;
    var lastResponse := "";
    calls := 0;
    while attempts < MaxRetries
      invariant calls == attempts < MaxRetries
      invariant NoneBefore(vs, attempts)
      invariant lastResponse == LastResponse(rs, attempts)
      decreases MaxRetries - attempts
    {
      var reply := llm(prompt, calls);
      calls := calls + 1;
      assert reply == rs[attempts];
      if reply.Content? && reply.text != "" {
        var response := reply.text;
        lastResponse := response;
        var parsed := parse(StripFences(response));
        if parsed.Some? {
          var validated := Validate(parsed.value);
          if validated.Some? {
            FirstSomeAt(vs, attempts);
            result := Success(validated.value);
            return;
          }
        }
      }
      // The attempt failed: no content, unparsable text, or a schema error.
      attempts := attempts + 1;
      if attempts >= MaxRetries {
        FirstSomeNone(vs);
        result := Failure(ExhaustedMessage(lastResponse));
        return;
      }
    }
    assert false;
    result := Failure(UnexpectedError);
  }

  /** `generateMessage`: the prompt filled from `input` is sent on every
      attempt of the retry loop. */
  method GenerateMessage(input: Input, llm: Oracle, parse: Parser) returns (result: Result<Message, string>, calls: nat)
    ensures 1 <= calls <= MaxRetries
    ensures var rs := Replies(llm, BuildPrompt(input), MaxRetries);
      result == Outcome(rs, parse) && calls == CallsMade(rs, parse)
  {
    var prompt := BuildPrompt(input);
    result, calls := RetryLoop(prompt, llm, parse);
  }
}
