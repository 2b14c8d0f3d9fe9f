/**
  Fence stripping: the model may wrap its JSON in a Markdown code block, so
  the response is trimmed and then loses an opening fence (three backticks,
  optionally followed by `json`, and the white space after it) and a closing
  fence (three backticks at the very end, and the white space before them).
 */
module Fences {
  import opened JsText

  const Fence := "```"
  const JsonFence := "```json"

  /** `.replace(/^```(?:json)?\s*\/, '')`: the optional `json` is taken
      whenever it is there, then every white-space character after it. */
  function StripOpeningFence(s: string): (r: string)
    ensures |r| <= |s|
  {
    if JsonFence <= s then TrimStart(s[|JsonFence|..])
    else if Fence <= s then TrimStart(s[|Fence|..])
    else s
  }

  /** `s` ends with `suffix`. */
  predicate EndsWith(s: string, suffix: string) {
    |suffix| <= |s| && s[|s| - |suffix|..] == suffix
  }

  /** `.replace(/\s*```$/, '')`: the leftmost match is the whole run of white
      space before a closing fence that ends the text. */
  function StripClosingFence(s: string): (r: string)
    ensures |r| <= |s|
  {
    if EndsWith(s, Fence) then TrimEnd(s[..|s| - |Fence|]) else s
  }

  /** The text handed to the JSON parser for a response. */
  function StripFences(response: string): (r: string)
    ensures |r| <= |response|
  {
    StripClosingFence(StripOpeningFence(Trim(response)))
  }

  /** Removing the opening fence keeps a suffix of the text. With a fence,
      the fence, the `json` after it if there is one, and the white space
      after that are gone, and what is left starts with a character other
      than white space; without one, nothing changes. */
  lemma OpeningFenceSpec(s: string)
    ensures var r := StripOpeningFence(s);
      && r == s[|s| - |r|..]
      && (JsonFence <= s ==> |r| <= |s| - |JsonFence| && AllSpace(s[|JsonFence|..|s| - |r|]))
      && (Fence <= s && !(JsonFence <= s) ==> |r| <= |s| - |Fence| && AllSpace(s[|Fence|..|s| - |r|]))
      && (Fence <= s ==> r == [] || !IsSpace(r[0]))
      && (!(Fence <= s) ==> r == s)
  {
    if JsonFence <= s {
      OpeningRun(s, |JsonFence|);
    } else if Fence <= s {
      OpeningRun(s, |Fence|);
    }
  }

  /** Dropping the first `n` characters and the white space after them. */
  lemma OpeningRun(s: string, n: nat)
    requires n <= |s|
    ensures var r := TrimStart(s[n..]);
      && r == s[|s| - |r|..] && |r| <= |s| - n
      && AllSpace(s[n..|s| - |r|]) && (r == [] || !IsSpace(r[0]))
  {
    var t := s[n..];
    TrimStartSpec(t);
    assert s[n..|s| - |TrimStart(t)|] == t[..|t| - |TrimStart(t)|];
  }

  /** Removing the closing fence keeps a prefix of the text. With a fence,
      the fence and the white space before it are gone, and what is left
      ends with a character other than white space; without one, nothing
      changes. */
  lemma ClosingFenceSpec(s: string)
    ensures var r := StripClosingFence(s);
      && (!EndsWith(s, Fence) ==> r == s)
      && (EndsWith(s, Fence) ==> |r| <= |s| - |Fence| && r == s[..|r|] && AllSpace(s[|r|..|s| - |Fence|]))
      && (EndsWith(s, Fence) ==> r == [] || !IsSpace(r[|r| - 1]))
  {
    if EndsWith(s, Fence) {
      var t := s[..|s| - |Fence|];
      TrimEndSpec(t);
      assert s[|TrimEnd(t)|..|s| - |Fence|] == t[|TrimEnd(t)|..];
    }
  }

  /** Text that, once trimmed, carries no fence on either side only loses its
      surrounding white space. */
  lemma UnfencedOnlyTrimmed(response: string)
    requires !(Fence <= Trim(response)) && !EndsWith(Trim(response), Fence)
    ensures StripFences(response) == Trim(response)
  {
  }

  lemma FenceNotSpace()
    ensures !IsSpace('`') && Fence[0] == '`' && JsonFence[0] == '`'
  {
  }

  /** Text that starts and ends with a backtick is already trimmed. */
  lemma TrimBackticked(w: string)
    requires |w| >= 1 && w[0] == '`' && w[|w| - 1] == '`'
    ensures Trim(w) == w
  {
    FenceNotSpace();
    TrimPadded([], w, []);
    assert [] + w + [] == w;
  }

  /** A closing fence goes together with the white space before it. */
  lemma ClosingFenceOf(x: string)
    ensures StripClosingFence(x + Fence) == TrimEnd(x)
  {
    var u := x + Fence;
    assert u[|u| - |Fence|..] == Fence;
    assert u[..|u| - |Fence|] == x;
  }

  /** The opening "```json" and the white space after it go. */
  lemma JsonOpeningOf(s: string)
    ensures StripOpeningFence(JsonFence + s + Fence) == TrimStart(s) + Fence
  {
    var w := JsonFence + s + Fence;
    FenceNotSpace();
    assert JsonFence <= w;
    assert w[|JsonFence|..] == s + Fence;
    TrimStartAppend(s, Fence);
  }

  /** A bare opening fence and the white space after it go, when the text
      does not start with `json`. */
  lemma BareOpeningOf(s: string)
    requires !("json" <= s)
    ensures StripOpeningFence(Fence + s + Fence) == TrimStart(s) + Fence
  {
    var w := Fence + s + Fence;
    FenceNotSpace();
    assert !(JsonFence <= w) by {
      if |s| >= 4 {
        assert JsonFence[3..7] == "json" != s[..4];
        assert w[3..7] == s[..4];
      } else {
        assert w[3 + |s|] == '`' != JsonFence[3 + |s|];
      }
    }
    assert Fence <= w;
    assert w[|Fence|..] == s + Fence;
    TrimStartAppend(s, Fence);
  }

  /** Text wrapped as "```json" + s + "```" comes out as s with its
      surrounding white space removed. */
  lemma JsonFenceStripped(s: string)
    ensures StripFences(JsonFence + s + Fence) == Trim(s)
  {
    var w := JsonFence + s + Fence;
    calc {
      StripFences(w);
      StripClosingFence(StripOpeningFence(Trim(w)));
      { FenceNotSpace(); TrimBackticked(w); }
      StripClosingFence(StripOpeningFence(w));
      { JsonOpeningOf(s); }
      StripClosingFence(TrimStart(s) + Fence);
      { ClosingFenceOf(TrimStart(s)); }
      TrimEnd(TrimStart(s));
    }
  }

  /** The same for a bare fence, as long as `s` does not itself start with
      `json` (which the opening pattern would take). */
  lemma BareFenceStripped(s: string)
    requires !("json" <= s)
    ensures StripFences(Fence + s + Fence) == Trim(s)
  {
    var w := Fence + s + Fence;
    calc {
      StripFences(w);
      StripClosingFence(StripOpeningFence(Trim(w)));
      { FenceNotSpace(); TrimBackticked(w); }
      StripClosingFence(StripOpeningFence(w));
      { BareOpeningOf(s); }
      StripClosingFence(TrimStart(s) + Fence);
      { ClosingFenceOf(TrimStart(s)); }
      TrimEnd(TrimStart(s));
    }
  }

  /** Wrapping text without fences in a "```json" block does not change what
      reaches the parser. */
  lemma FencingInvisible(s: string)
    requires !(Fence <= Trim(s)) && !EndsWith(Trim(s), Fence)
    ensures StripFences(JsonFence + s + Fence) == StripFences(s)
  {
    JsonFenceStripped(s);
    UnfencedOnlyTrimmed(s);
  }
}
