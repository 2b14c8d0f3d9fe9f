/**
  The shape of a generated message and its validation. A parsed JSON value is
  accepted when it is an object whose five required members are strings; the
  accepted message holds exactly those five strings.
 */
module Schema {
  import opened Wrappers

  /** A JSON value as `JSON.parse` produces it. Numbers are kept as reals;
      an object is a map because parsing keeps the last of duplicate keys. */
  datatype Json =
    | JNull
    | JBool(b: bool)
    | JNumber(n: real)
    | JString(s: string)
    | JArray(items: seq<Json>)
    | JObject(members: map<string, Json>)

  /** The message the pipeline returns. */
  datatype Message = Message(subject: string, greeting: string, body: string, callToAction: string, closing: string)

  /** The member names the schema requires. */
  const Keys: set<string> := {"subject", "greeting", "body", "call_to_action", "closing"}

  /** `members` maps `key` to a string. */
  predicate HasString(members: map<string, Json>, key: string) {
    key in members && members[key].JString?
  }

  /** The JSON object a message is written as. */
  function ToJson(m: Message): (v: Json)
    ensures v.JObject? && v.members.Keys == Keys
    ensures forall k :: k in Keys ==> HasString(v.members, k)
  {
    JObject(map[
      "subject" := JString(m.subject),
      "greeting" := JString(m.greeting),
      "body" := JString(m.body),
      "call_to_action" := JString(m.callToAction),
      "closing" := JString(m.closing)])
  }

  /** `MessageSchema.parse`: an object whose required members are all
      strings is accepted, and the message keeps exactly those members; any
      other value, and an object with a missing or non-string member, is
      rejected. Other members are not looked at. */
  function Validate(v: Json): (r: Option<Message>)
    ensures r.Some? <==> v.JObject? && forall k :: k in Keys ==> HasString(v.members, k)
    ensures r.Some? ==> forall k :: k in Keys ==> ToJson(r.value).members[k] == v.members[k]
  {
    if v.JObject? && HasString(v.members, "subject") && HasString(v.members, "greeting")
       && HasString(v.members, "body") && HasString(v.members, "call_to_action")
       && HasString(v.members, "closing")
    then
      Some(Message(
        v.members["subject"].s,
        v.members["greeting"].s,
        v.members["body"].s,
        v.members["call_to_action"].s,
        v.members["closing"].s))
    else None
  }

  /** Validation undoes writing a message as JSON. */
  lemma ValidateToJson(m: Message)
    ensures Validate(ToJson(m)) == Some(m)
  {
  }

  /** A message is determined by the required members alone: an object
      accepted by validation is rebuilt by `ToJson` on those members. */
  lemma ValidatedRebuilds(v: Json)
    requires Validate(v).Some?
    ensures ToJson(Validate(v).value).members == map k | k in v.members && k in Keys :: v.members[k]
  {
  }

  /** Members beyond the required five do not change the outcome. */
  lemma ExtraMembersIgnored(members: map<string, Json>, extra: map<string, Json>)
    requires extra.Keys !! Keys
    ensures Validate(JObject(members + extra)) == Validate(JObject(members))
  {
    assert forall k :: k in Keys ==> (k in members + extra <==> k in members);
    assert forall k :: k in Keys && k in members ==> (members + extra)[k] == members[k];
  }
}
