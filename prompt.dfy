/**
  The system prompt of the generation pipeline: a fixed template with five
  `{placeholder}` markers, filled in by five successive first-occurrence
  replacements.
 */
module Prompt {
  import opened JsText

  /** The request the pipeline serves: what kind of message, what for, to
      whom, in which tone, with which free-text context. */
  datatype Input = Input(messageType: string, purpose: string, recipientRole: string, tone: string, context: string)

  // The literal pieces of the template, between its placeholders.
  const Opening := "Generate a professional "
  const ForText := " for "
  const ToText := " to a "
  const WithText := " with "
  const ContextText := " tone.\n\nContext: "
  const Instructions := "\n\nReturn ONLY a JSON object with these exact keys:\n- subject\n- greeting  \n- body\n- call_to_action\n- closing\n\nExample: {\"subject\":\"Application for Software Engineer\",\"greeting\":\"Dear Hiring Manager,\",\"body\":\"I am writing to express interest...\",\"call_to_action\":\"I would welcome the opportunity to discuss...\",\"closing\":\"Best regards,\"}"

  /** The template text with its five placeholders. */
  const Template := Opening + "{messageType}" + ForText + "{purpose}" + ToText + "{recipientRole}"
                    + WithText + "{tone}" + ContextText + "{context}" + Instructions

  /** Fills `template` from `input`: each placeholder, in this fixed order,
      has its first occurrence in the text built so far replaced by the
      field's value. */
  function Substitute(template: string, input: Input): string {
    var withType := ReplaceFirst(template, "{messageType}", input.messageType);
    var withPurpose := ReplaceFirst(withType, "{purpose}", input.purpose);
    var withRole := ReplaceFirst(withPurpose, "{recipientRole}", input.recipientRole);
    var withTone := ReplaceFirst(withRole, "{tone}", input.tone);
    ReplaceFirst(withTone, "{context}", input.context)
  }

  /** The system prompt sent to the model. */
  function BuildPrompt(input: Input): string {
    Substitute(Template, input)
  }

  /** The prompt as a structured template would build it: every field in its
      own slot, inserted once and never scanned again. */
  function SlotPrompt(input: Input): string {
    Opening + input.messageType + ForText + input.purpose + ToText + input.recipientRole
    + WithText + input.tone + ContextText + input.context + Instructions
  }

  predicate NoBrace(s: string) {
    '{' !in s
  }

  lemma PiecesHaveNoBrace()
    ensures NoBrace(Opening) && NoBrace(ForText) && NoBrace(ToText) && NoBrace(WithText) && NoBrace(ContextText)
  {
  }

  /** One substitution step: the marker is replaced, and the text after it
      keeps the shape the next step expects. */
  lemma FillStep(p: string, marker: string, value: string, lit: string, next: string, q: string)
    requires marker != [] && marker[0] !in p
    ensures ReplaceFirst(p + marker + (lit + next + q), marker, value) == p + value + lit + next + q
  {
    ReplaceFirstAfter(p, marker, lit + next + q, value);
  }

  /** Substitution into a template of the shape o {messageType} f {purpose} t
      {recipientRole} w {tone} c {context} x, when no `{` occurs in the pieces
      before the last marker nor in the first four fields. */
  lemma {:induction false} SubstituteInSlots(o: string, f: string, t: string, w: string, c: string, x: string, input: Input)
    requires NoBrace(o) && NoBrace(f) && NoBrace(t) && NoBrace(w) && NoBrace(c)
    requires NoBrace(input.messageType) && NoBrace(input.purpose)
    requires NoBrace(input.recipientRole) && NoBrace(input.tone)
    ensures Substitute(o + "{messageType}" + f + "{purpose}" + t + "{recipientRole}" + w + "{tone}" + c + "{context}" + x, input)
         == o + input.messageType + f + input.purpose + t + input.recipientRole + w + input.tone + c + input.context + x
  {
    var mt, pu, rr, tn, cx := input.messageType, input.purpose, input.recipientRole, input.tone, input.context;
    var q3 := c + "{context}" + x;
    var q2 := w + "{tone}" + q3;
    var q1 := t + "{recipientRole}" + q2;
    var q0 := f + "{purpose}" + q1;
    var template := o + "{messageType}" + f + "{purpose}" + t + "{recipientRole}" + w + "{tone}" + c + "{context}" + x;
    assert template == o + "{messageType}" + q0;
    FillStep(o, "{messageType}", mt, f, "{purpose}", q1);
    var p1 := o + mt + f;
    FillStep(p1, "{purpose}", pu, t, "{recipientRole}", q2);
    var p2 := p1 + pu + t;
    FillStep(p2, "{recipientRole}", rr, w, "{tone}", q3);
    var p3 := p2 + rr + w;
    FillStep(p3, "{tone}", tn, c, "{context}", x);
    var p4 := p3 + tn + c;
    ReplaceFirstAfter(p4, "{context}", x, cx);
  }

  /** As long as none of the first four fields contains a `{`, the prompt puts
      every field in its slot, whatever the context holds: placeholder markers
      in the context are inserted verbatim. */
  lemma PromptFillsSlots(input: Input)
    requires NoBrace(input.messageType) && NoBrace(input.purpose)
    requires NoBrace(input.recipientRole) && NoBrace(input.tone)
    ensures BuildPrompt(input) == SlotPrompt(input)
  {
    PiecesHaveNoBrace();
    SubstituteInSlots(Opening, ForText, ToText, WithText, ContextText, Instructions, input);
  }

  /** No occurrence of a two-or-more character `pat` can start inside `p`,
      whatever follows `p`. */
  predicate Clear(p: string, pat: string) {
    |pat| >= 2 && forall j {:trigger p[j]} :: 0 <= j < |p| ==> p[j] != pat[0] || (j + 1 < |p| && p[j + 1] != pat[1])
  }

  lemma ClearAppend(p: string, r: string, pat: string)
    requires Clear(p, pat) && Clear(r, pat)
    ensures Clear(p + r, pat)
  {
    var s := p + r;
    forall j | 0 <= j < |s|
      ensures s[j] != pat[0] || (j + 1 < |s| && s[j + 1] != pat[1])
    {
      if j < |p| {
        assert p[j] != pat[0] || (j + 1 < |p| && p[j + 1] != pat[1]);
        if j + 1 < |p| { assert s[j + 1] == p[j + 1]; }
      } else {
        var k := j - |p|;
        assert s[j] == r[k];
        assert r[k] != pat[0] || (k + 1 < |r| && r[k + 1] != pat[1]);
        if k + 1 < |r| { assert s[j + 1] == r[k + 1]; }
      }
    }
  }

  lemma ClearNoBrace(p: string, pat: string)
    requires |pat| >= 2 && pat[0] == '{' && NoBrace(p)
    ensures Clear(p, pat)
  {
  }

  lemma ClearPurposeMarker(pat: string)
    requires |pat| >= 2 && pat[0] == '{' && pat[1] != 'p'
    ensures Clear("{purpose}", pat)
  {
    var m := "{purpose}";
    assert m[1] == 'p';
    assert forall k :: 1 <= k < |m| ==> m[k] != '{';
  }

  /** The text before the third marker, once the purpose has been put where
      the message type belongs, holds only the `{purpose}` marker. */
  lemma ClearPrefix(o: string, pu: string, f: string, t: string, v: string, l: string, pat: string)
    requires NoBrace(o) && NoBrace(pu) && NoBrace(f) && NoBrace(t) && NoBrace(v) && NoBrace(l)
    requires |pat| >= 2 && pat[0] == '{' && pat[1] != 'p'
    ensures Clear(o + pu + f + "{purpose}" + t, pat) && Clear(v + l, pat)
    ensures Clear(o + pu + f + "{purpose}" + t + v + l, pat)
  {
    ClearNoBrace(o, pat);
    ClearNoBrace(pu, pat);
    ClearNoBrace(f, pat);
    ClearNoBrace(t, pat);
    ClearNoBrace(v, pat);
    ClearNoBrace(l, pat);
    ClearAppend(o, pu, pat);
    ClearAppend(o + pu, f, pat);
    ClearPurposeMarker(pat);
    ClearAppend(o + pu + f, "{purpose}", pat);
    ClearAppend(o + pu + f + "{purpose}", t, pat);
    ClearAppend(o + pu + f + "{purpose}" + t, v, pat);
    ClearAppend(o + pu + f + "{purpose}" + t + v, l, pat);
    ClearAppend(v, l, pat);
  }

  /** What `Clear` says about one position of `p`. */
  lemma ClearAt(p: string, pat: string, j: nat)
    requires Clear(p, pat) && j < |p|
    ensures |pat| >= 2 && (p[j] != pat[0] || (j + 1 < |p| && p[j + 1] != pat[1]))
  {
  }

  /** A substitution step past text in which the marker cannot start. */
  lemma ClearStep(p: string, marker: string, value: string, rest: string)
    requires Clear(p, marker)
    ensures ReplaceFirst(p + marker + rest, marker, value) == p + value + rest
  {
    var s := p + marker + rest;
    assert s[|p|..|p| + |marker|] == marker;
    forall j: nat | j < |p|
      ensures !OccursAt(s, marker, j)
    {
      ClearAt(p, marker, j);
      assert s[j..j + |marker|][0] == s[j] == p[j];
      assert s[j..j + |marker|][1] == s[j + 1];
      if j + 1 < |p| { assert s[j + 1] == p[j + 1]; }
    }
    ReplaceFirstAt(s, marker, value, |p|);
    assert s[..|p|] == p;
    assert s[|p| + |marker|..] == rest;
  }

  /** `ClearStep` with the result grouped for the step that follows. */
  lemma ClearStepNext(p: string, marker: string, value: string, lit: string, next: string, q: string)
    requires Clear(p, marker)
    ensures ReplaceFirst(p + marker + (lit + next + q), marker, value) == (p + value + lit) + next + q
  {
    ClearStep(p, marker, value, lit + next + q);
    assert p + value + (lit + next + q) == (p + value + lit) + next + q;
  }

  /** The second step when the first inserted a copy of the second marker. */
  lemma FillStepTwo(p: string, marker: string, value: string, l1: string, m1: string, l2: string, next: string, q: string)
    requires marker != [] && marker[0] !in p
    ensures ReplaceFirst(p + marker + l1 + m1 + (l2 + next + q), marker, value) == p + value + l1 + m1 + l2 + next + q
  {
    var tail := l2 + next + q;
    var rest := l1 + m1 + tail;
    assert p + marker + l1 + m1 + tail == p + marker + rest;
    ReplaceFirstAfter(p, marker, rest, value);
    assert p + value + rest == p + value + l1 + m1 + tail;
  }

  /** The last three steps, past text in which their markers cannot start. */
  lemma FillTailClear(p: string, rr: string, w: string, tn: string, c: string, cx: string, x: string)
    requires Clear(p, "{recipientRole}") && Clear(p + rr + w, "{tone}") && Clear(p + rr + w + tn + c, "{context}")
    ensures ReplaceFirst(ReplaceFirst(ReplaceFirst(p + "{recipientRole}" + (w + "{tone}" + (c + "{context}" + x)),
              "{recipientRole}", rr), "{tone}", tn), "{context}", cx)
         == p + rr + w + tn + c + cx + x
  {
    ClearStepNext(p, "{recipientRole}", rr, w, "{tone}", c + "{context}" + x);
    ClearStepNext(p + rr + w, "{tone}", tn, c, "{context}", x);
    ClearStep(p + rr + w + tn + c, "{context}", cx, x);
  }

  /** Substitution into a template of the shape of `SubstituteInSlots` when
      the message type is itself the `{purpose}` marker. */
  lemma {:induction false} SubstituteCaptured(o: string, f: string, t: string, w: string, c: string, x: string, input: Input)
    requires NoBrace(o) && NoBrace(f) && NoBrace(t) && NoBrace(w) && NoBrace(c)
    requires input.messageType == "{purpose}"
    requires NoBrace(input.purpose) && NoBrace(input.recipientRole) && NoBrace(input.tone)
    ensures Substitute(o + "{messageType}" + f + "{purpose}" + t + "{recipientRole}" + w + "{tone}" + c + "{context}" + x, input)
         == o + input.purpose + f + "{purpose}" + t + input.recipientRole + w + input.tone + c + input.context + x
  {
    var pu, rr, tn, cx := input.purpose, input.recipientRole, input.tone, input.context;
    var q2 := w + "{tone}" + (c + "{context}" + x);
    TemplateShape(o, f, t, w, c, x);
    FillHeadCaptured(o, f, t, pu, q2);
    FillTailCaptured(o, pu, f, t, rr, w, tn, c, cx, x);
  }

  /** Regrouping a template so that each marker is followed by the rest. */
  lemma TemplateShape(o: string, f: string, t: string, w: string, c: string, x: string)
    ensures o + "{messageType}" + f + "{purpose}" + t + "{recipientRole}" + w + "{tone}" + c + "{context}" + x
         == o + "{messageType}" + (f + "{purpose}" + (t + "{recipientRole}" + (w + "{tone}" + (c + "{context}" + x))))
  {
  }

  /** The first two steps when the message type is the `{purpose}` marker. */
  lemma FillHeadCaptured(o: string, f: string, t: string, pu: string, q2: string)
    requires NoBrace(o)
    ensures ReplaceFirst(ReplaceFirst(o + "{messageType}" + (f + "{purpose}" + (t + "{recipientRole}" + q2)),
              "{messageType}", "{purpose}"), "{purpose}", pu)
         == o + pu + f + "{purpose}" + t + "{recipientRole}" + q2
  {
    var q1 := t + "{recipientRole}" + q2;
    FillStep(o, "{messageType}", "{purpose}", f, "{purpose}", q1);
    FillStepTwo(o, "{purpose}", pu, f, "{purpose}", t, "{recipientRole}", q2);
  }

  /** The last three steps after the purpose has taken the message type's place. */
  lemma FillTailCaptured(o: string, pu: string, f: string, t: string, rr: string, w: string, tn: string, c: string, cx: string, x: string)
    requires NoBrace(o) && NoBrace(pu) && NoBrace(f) && NoBrace(t) && NoBrace(rr) && NoBrace(w) && NoBrace(tn) && NoBrace(c)
    ensures var p := o + pu + f + "{purpose}" + t;
      ReplaceFirst(ReplaceFirst(ReplaceFirst(p + "{recipientRole}" + (w + "{tone}" + (c + "{context}" + x)),
        "{recipientRole}", rr), "{tone}", tn), "{context}", cx)
      == p + rr + w + tn + c + cx + x
  {
    var p := o + pu + f + "{purpose}" + t;
    assert Clear(p + rr + w + tn + c, "{context}") by {
      ClearPrefix(o, pu, f, t, rr, w, "{context}");
      ClearPrefix(o, pu, f, t, tn, c, "{context}");
      ClearAppend(p + rr + w, tn + c, "{context}");
      assert p + rr + w + (tn + c) == p + rr + w + tn + c;
    }
    ClearPrefix(o, pu, f, t, rr, w, "{recipientRole}");
    ClearPrefix(o, pu, f, t, rr, w, "{tone}");
    FillTailClear(p, rr, w, tn, c, cx, x);
  }

  /** Text inserted by an earlier substitution is matched by a later
      placeholder: a message type that reads `{purpose}` receives the purpose,
      and the template's own `{purpose}` marker survives into the prompt. */
  lemma EarlierInsertionCaptured(input: Input)
    requires input.messageType == "{purpose}"
    requires NoBrace(input.purpose) && NoBrace(input.recipientRole) && NoBrace(input.tone)
    ensures BuildPrompt(input) == Opening + input.purpose + ForText + "{purpose}" + ToText + input.recipientRole
                                  + WithText + input.tone + ContextText + input.context + Instructions
  {
    PiecesHaveNoBrace();
    SubstituteCaptured(Opening, ForText, ToText, WithText, ContextText, Instructions, input);
  }
}
