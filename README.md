# ColdReach AI message generation, modelled in Dafny

ColdReach AI writes professional messages, such as cold e-mails, with a
language model. A request names the purpose, the recipient's role, the tone
and an optional context. The server fills a fixed prompt template with these
fields and asks the model for a JSON object with five string members:
`subject`, `greeting`, `body`, `call_to_action` and `closing`.

The model's answer may come wrapped in a Markdown code block. The server
trims the answer, strips the fences, parses it and validates it against the
message schema. It tries up to three times. The first answer that validates
is returned. When all three attempts fail, the error quotes the last answer
received, cut to 200 characters.

The HTTP handler in front of the pipeline does four things:
- it answers 400 when a required field is missing;
- it fixes the message type to "Cold Email";
- it defaults the context to the empty string;
- it turns a pipeline error into a 500 response.

The modules follow the program:

- `JsText` (`jstext.dfy`) models the JavaScript string built-ins the pipeline uses. These are `trim`, the `\s` class, `indexOf`, and `replace` with a string pattern.
- `Prompt` (`prompt.dfy`) models the template and the five successive replacements.
- `Fences` (`fences.dfy`) models trimming and the two anchored fence patterns.
- `Schema` (`schema.dfy`) holds the JSON values, the message, and the schema check.
- `Agent` (`agent.dfy`) models the retry loop of `generateMessage`. The loop is an imperative method with the two mutable variables `attempts` and `lastResponse`. It is proved against the specification functions `Outcome` and `CallsMade`.
- `Route` (`route.dfy`) models the `POST` handler as a pure function of the request and of the pipeline.

Two parts of the system are oracles, passed in as parameters:
- The model is `Oracle = (string, nat) -> Reply`. It gives the reply to a prompt on the n-th call. A reply is a thrown transport error, a completion without content, or content.
- `JSON.parse` is `Parser = string -> Option<Json>`, with `None` where it throws.

## Model

| member | source | states |
|---|---|---|
| `JsText.LeadingSpaceSpec` | lib/agent.ts:83 | The run that `trim` removes at the front is white space, and it stops at the first character that is not white space. |
| `JsText.TrailingSpaceSpec` | lib/agent.ts:83 | The run that `trim` removes at the back is white space, and it stops at the last character that is not white space. |
| `JsText.TrimStart` | lib/agent.ts:85 | Removes the leading white space. Its own contract bounds only the length; `JsText.TrimStartSpec` states what it removes. |
| `JsText.TrimEnd` | lib/agent.ts:85 | Removes the trailing white space. Its own contract bounds only the length; `JsText.TrimEndSpec` states what it removes. |
| `JsText.Trim` | lib/agent.ts:83 | `trim`. Its own contract bounds only the length; `JsText.TrimSpec` and `JsText.TrimPadded` state its result. |
| `JsText.TrimStartSpec` | lib/agent.ts:85 | Removing leading white space keeps a suffix of the text. The removed prefix is all white space. What is left is empty or starts with a character that is not white space. |
| `JsText.TrimEndSpec` | lib/agent.ts:85 | Removing trailing white space keeps a prefix of the text. The removed suffix is all white space. What is left is empty or ends with a character that is not white space. |
| `JsText.TrimSpec` | lib/agent.ts:83 | `trim` returns the text with white space added (possibly none) on either side of it, and the result has no white space at either end. |
| `JsText.TrimPadded` | lib/agent.ts:83 | Trimming white space + m + white space, where m has no white space at either end, gives exactly m. |
| `JsText.LeadingSpaceIs` | lib/agent.ts:83 | The leading white-space run is unique: any all-space prefix that stops at a character other than white space has its length. |
| `JsText.TrailingSpaceIs` | lib/agent.ts:83 | The trailing white-space run is unique in the same way. |
| `JsText.TrimStartAppend` | lib/agent.ts:85 | Text appended after a character other than white space does not change what removing leading white space removes. |
| `JsText.IndexFrom` | lib/agent.ts:52-57 | `indexOf` from a start position returns an occurrence at or after that position with no earlier one. When it finds none, there is no occurrence from that position on. |
| `JsText.IndexOf` | lib/agent.ts:52-57 | `indexOf` from position 0. It has no contract of its own; `JsText.IndexFrom` at position 0 gives the first occurrence, or none. |
| `JsText.ReplaceFirst` | lib/agent.ts:52-57 | `replace` with a string pattern. It has no contract of its own; `JsText.ReplaceAbsent`, `JsText.ReplaceFirstAt` and `JsText.ReplaceFirstAfter` state its result. |
| `JsText.ReplaceAbsent` | lib/agent.ts:52-57 | `replace` with a pattern that does not occur leaves the text unchanged. |
| `JsText.ReplaceFirstAt` | lib/agent.ts:52-57 | `replace` splices the replacement in at the first occurrence and keeps the text on both sides of it. |
| `JsText.ReplaceFirstAfter` | lib/agent.ts:52-57 | When no earlier character can start the pattern, the occurrence after p is the first one. Only it is replaced, and copies of the pattern further on are kept. |
| `JsText.ReplaceFirstPastMarker` | lib/agent.ts:52-57 | An occurrence behind text that starts like the pattern but differs in its second character is still the first occurrence, and only it is replaced. |
| `Prompt.Substitute` | lib/agent.ts:52-57 | The five replacements in the source's order. It has no contract of its own; `Prompt.SubstituteInSlots` states its result for a template of the prompt's shape. |
| `Prompt.BuildPrompt` | lib/agent.ts:31-57 | The prompt for an input. It has no contract of its own; `Prompt.PromptFillsSlots` and `Prompt.EarlierInsertionCaptured` state its result. |
| `Prompt.SubstituteInSlots` | lib/agent.ts:52-57 | Filling a five-placeholder template puts each field in its own slot. This holds when no `{` occurs in the template pieces before the last marker or in the first four fields. |
| `Prompt.PromptFillsSlots` | lib/agent.ts:31-42 | When the first four fields contain no `{`, the system prompt is the template with every field in its slot. Placeholders inside the context are inserted verbatim, because `{context}` is replaced last. |
| `Prompt.EarlierInsertionCaptured` | lib/agent.ts:52-57 | Text inserted by an earlier replacement is matched by a later placeholder. A message type that reads `{purpose}` receives the purpose, and the template's own `{purpose}` marker stays in the prompt. |
| `Prompt.ClearStep` | lib/agent.ts:55-57 | One `replace` past text in which the placeholder cannot start replaces the placeholder that follows that text. |
| `Fences.StripOpeningFence` | lib/agent.ts:85 | `/^```(?:json)?\s*/`. Its own contract bounds only the length; `Fences.OpeningFenceSpec` states what it removes. |
| `Fences.StripClosingFence` | lib/agent.ts:85 | `/\s*```$/`. Its own contract bounds only the length; `Fences.ClosingFenceSpec` states what it removes. |
| `Fences.StripFences` | lib/agent.ts:83-85 | The text handed to `JSON.parse`. Its own contract bounds only the length; `Fences.UnfencedOnlyTrimmed`, `Fences.JsonFenceStripped` and `Fences.BareFenceStripped` state its result. |
| `Fences.OpeningRun` | lib/agent.ts:85 | Dropping a fence of n characters and the white space after it keeps a suffix. The dropped part after the fence is all white space, and the rest starts with a character that is not white space. |
| `Fences.OpeningFenceSpec` | lib/agent.ts:85 | `/^```(?:json)?\s*/` removes a prefix. With an opening fence, the fence, the `json` after it if present, and the white space after that are gone, and nothing else. What is left starts with a character that is not white space. Without a fence, the text is unchanged. |
| `Fences.ClosingFenceSpec` | lib/agent.ts:85 | `/\s*```$/` removes a suffix. With a closing fence, the fence and the whole white-space run before it are gone. Without one, the text is unchanged. |
| `Fences.UnfencedOnlyTrimmed` | lib/agent.ts:83-85 | Trimmed text that neither starts nor ends with three backticks only loses its surrounding white space. |
| `Fences.ClosingFenceOf` | lib/agent.ts:85 | Removing the closing fence of x + "```" gives x without its trailing white space. |
| `Fences.JsonOpeningOf` | lib/agent.ts:85 | Removing the opening fence of "```json" + s + "```" leaves s without its leading white space, followed by the closing fence. |
| `Fences.BareOpeningOf` | lib/agent.ts:85 | The same for "```" + s + "```", when s does not start with `json`. |
| `Fences.JsonFenceStripped` | lib/agent.ts:83-85 | "```json" + s + "```" reaches the parser as s with its surrounding white space removed. |
| `Fences.BareFenceStripped` | lib/agent.ts:83-85 | "```" + s + "```" reaches the parser as the trimmed s, as long as s does not start with `json`. |
| `Fences.FencingInvisible` | lib/agent.ts:83-85 | Wrapping text that has no fences in a "```json" block does not change what reaches the parser. |
| `Schema.ToJson` | lib/agent.ts:5-11 | A message is written as an object whose keys are exactly the five required names, each mapped to a string. |
| `Schema.Validate` | lib/agent.ts:94 | `MessageSchema.parse` accepts a value exactly when it is an object whose five required members are all strings. The accepted message carries exactly those members. |
| `Schema.ValidateToJson` | lib/agent.ts:5-11 | Validation undoes writing a message as JSON. |
| `Schema.ValidatedRebuilds` | lib/agent.ts:94 | A validated object, restricted to the five required keys, is the JSON of the message it yields. |
| `Schema.ExtraMembersIgnored` | lib/agent.ts:5-11 | Members beyond the five required ones do not change the outcome of validation. |
| `Agent.Received` | lib/agent.ts:71-74 | A reply hands on text exactly when it has non-empty content. Absent or empty content is a failed attempt. |
| `Agent.Accept` | lib/agent.ts:71-97 | An attempt yields a message only when the reply hands on text. `Agent.AcceptedMatchesParsed` and `Agent.AcceptValid` state both directions of the rest. |
| `Agent.AcceptValid` | lib/agent.ts:83-97 | Non-empty content whose stripped text parses to an object with the five required string members is accepted. The message is the one validation builds from that object. |
| `Agent.AcceptedMatchesParsed` | lib/agent.ts:83-97 | An accepted message comes from non-empty content whose stripped text parses to an object, and it carries that object's five required members. |
| `Agent.FirstSome` | lib/agent.ts:50-97 | Finds the first attempt that yields a message. Every earlier attempt failed, and when none is found, every attempt failed. |
| `Agent.LastResponse` | lib/agent.ts:48 | `lastResponse` is empty exactly when no reply so far had non-empty content. |
| `Agent.LastResponseIsLast` | lib/agent.ts:77 | A non-empty `lastResponse` is the content of the last reply that had any. Replies without content leave it as it was. |
| `Agent.Excerpt` | lib/agent.ts:109 | The quotation is the last response itself when it has at most 200 characters. Otherwise it is its first 200 characters followed by "...". |
| `Agent.ExhaustedMessage` | lib/agent.ts:110 | The terminal error is the fixed prefix, which writes `MaxRetries` out as its digit, then the quotation, then a closing quote. |
| `Agent.Outcome` | lib/agent.ts:50-111 | What `generateMessage` settles on: the message of the first attempt that succeeds, otherwise the terminal error. It has no contract of its own; `Agent.OutcomeCases`, `Agent.FirstValidReturned`, `Agent.ReturnedIsFirstValid` and `Agent.AllFailedExhausted` state its result. |
| `Agent.CallsMade` | lib/agent.ts:50-112 | The number of calls made to the model is at least 1, when any attempt is allowed, and never more than the number of attempts. |
| `Agent.FirstValidReturned` | lib/agent.ts:94-97 | If attempt k is the first to yield a message, that message is returned unchanged after exactly k + 1 calls. |
| `Agent.ReturnedIsFirstValid` | lib/agent.ts:94-99 | A returned message was yielded by some attempt k after k + 1 calls, and every earlier attempt failed. |
| `Agent.AllFailedExhausted` | lib/agent.ts:108-111 | When every attempt fails, the terminal error quotes `lastResponse` after the last attempt, and every attempt was made. |
| `Agent.OutcomeCases` | lib/agent.ts:94-111 | `generateMessage` returns a message exactly when some attempt yields one. Otherwise it throws the terminal error. |
| `Agent.NothingReceived` | lib/agent.ts:48 | When no reply has content, the terminal error quotes the empty string. |
| `Agent.AlwaysUnparsable` | lib/agent.ts:86-110 | When the model always returns the same unparsable text t, the error quotes t. When t has more than 200 characters, the quotation is t's first 200 characters followed by "...". |
| `Agent.NoneBeforeEach` | lib/agent.ts:98-99 | The loop's record of failed attempts is equivalent to every attempt before the counter having failed. |
| `Agent.RetryLoop` | lib/agent.ts:46-115 | The loop calls the model at least once and at most 3 times. Its result is the message of the first attempt that succeeds, after exactly that many calls. Otherwise it is the terminal error, after 3 calls. The final `Unexpected error` is unreachable. |
| `Agent.GenerateMessage` | lib/agent.ts:45-116 | `generateMessage` behaves as the retry loop does for the prompt filled from its input. |
| `Route.ErrorJson` | app/api/generate/route.ts:11 | An error body is an object with the single member `error` holding the message. |
| `Route.ToInput` | app/api/generate/route.ts:14-20 | The pipeline receives messageType "Cold Email" and the purpose, recipient role and tone unchanged. A falsy context becomes the empty string, and any other context is passed unchanged. |
| `Route.Failed` | app/api/generate/route.ts:23-26 | A thrown value becomes status 500. The body carries the message of an `Error`, or "Internal server error" for any other value. |
| `Route.Post` | app/api/generate/route.ts:4-28 | The status is 200, 400 or 500. A missing required field gives 400 with "Missing required fields". A failure to read the body gives 500. The status is 200 exactly when the fields are present and the pipeline succeeds, and the body is then the message. |
| `Route.IncompleteSkipsPipeline` | app/api/generate/route.ts:10-12 | A request missing purpose, recipient role or tone gets 400 whatever the pipeline would do, so the pipeline is not consulted. |
| `Route.PipelineFailureIs500` | app/api/generate/route.ts:23-26 | A pipeline failure on a complete request becomes the 500 response for the thrown value. |
| `Route.Pipeline` | app/api/generate/route.ts:14-20 | `generateMessage` as the handler calls it. Every error it throws is an `Error` carrying the terminal message. It has no contract of its own; `Route.PostThroughPipeline` states what it yields. |
| `Route.PostThroughPipeline` | app/api/generate/route.ts:14-26 | End to end: a complete request gets 200 exactly when some attempt yields a message, and the body is then the first such message. Otherwise it gets 500, never 400, with the terminal error of the retry loop. |

## Left out

- The OpenAI/OpenRouter client and its network call, including the model id, temperature, token limit and API key. The model is the `Oracle` parameter, and a thrown client error is the `TransportError` reply.
- `JSON.parse` is the `Parser` parameter; the JSON grammar is not modelled.
- Logging (`console.log`, `console.error`) is not modelled. The error built at lib/agent.ts:89 is only caught and logged, never seen by a caller, so it is not modelled either.
- `Agent.RetryLoop`: the prompt is built once from the input and handed to the loop. The source rebuilds the same prompt on every attempt, and the result is the same.
- The `$` patterns of `String.prototype.replace` replacement strings are not modelled; a field's value is inserted literally.
- Strings are sequences of code points. JavaScript's `length` and `substring` count UTF-16 code units, so the 200-character excerpt can differ for text outside the Basic Multilingual Plane.
- Regular expressions in general are not modelled, only the two anchored fence patterns.
- `Route.Post`: the request body is reduced to four optional string fields. A field that is present but not a string (a number, an object) is not modelled. A body that cannot be read or destructured is the `Failure` case of the request.
- `NextRequest` and `NextResponse` plumbing is not modelled; a response is a status and a JSON body.
- app/page.tsx (the React user interface) is not part of this model.
- The schema check follows `z.object`'s default strip mode: an object with extra members is accepted and the extra members are dropped (`Schema.ExtraMembersIgnored`). No strict mode that would reject such objects is modelled, because the code does not use one.
