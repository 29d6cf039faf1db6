/**
 * The last-text helper of api/app/agent/utils.py: it walks the events of an
 * agent run and keeps the raw text of the first part of the latest event
 * whose content, parts list and first-part text are all present and non-empty.
 */
module AgentResponse {
  import opened Wrappers
  import opened AgentEvents

  /** The condition the loop tests: content, a non-empty parts list, and a non-empty first text. */
  predicate Qualifies(e: Event)
  {
    HasParts(e) && Truthy(e.content.value.parts.value[0].text)
  }

  /** The first part's text of a qualifying event, unstripped. */
  function FirstText(e: Event): string
    requires Qualifies(e)
  {
    e.content.value.parts.value[0].text.value
  }

  /** `j` is the position of the latest qualifying event of `events`. */
  predicate LatestQualifying(events: seq<Event>, j: int)
  {
    && 0 <= j < |events| && Qualifies(events[j])
    && forall m :: j < m < |events| ==> !Qualifies(events[m])
  }

  /**
   * The text the helper returns: the first-part text of the latest qualifying
   * event, or `""` when no event qualifies.
   */
  function LatestText(events: seq<Event>): string
    decreases |events|
  {
    if events == [] then ""
    else
      var last := events[|events| - 1];
      if Qualifies(last) then FirstText(last) else LatestText(events[..|events| - 1])
  }

  /** When no event qualifies the result is `""`. */
  lemma {:induction false} LatestTextNoneQualifies(events: seq<Event>)
    requires forall j :: 0 <= j < |events| ==> !Qualifies(events[j])
    ensures LatestText(events) == ""
    decreases |events|
  {
    if events != [] {
      var before := events[..|events| - 1];
      assert forall j :: 0 <= j < |before| ==> before[j] == events[j];
      LatestTextNoneQualifies(before);
    }
  }

  /** Otherwise the result is the first-part text of the latest qualifying event. */
  lemma {:induction false} LatestTextIsLatest(events: seq<Event>, j: int)
    requires LatestQualifying(events, j)
    ensures LatestText(events) == FirstText(events[j])
    decreases |events|
  {
    if j < |events| - 1 {
      var before := events[..|events| - 1];
      assert before[j] == events[j];
      assert forall m :: j < m < |before| ==> before[m] == events[m];
      LatestTextIsLatest(before, j);
    }
  }

  /** A qualifying event overwrites whatever came before: no concatenation, no stripping. */
  lemma LatestOverwrites(events: seq<Event>, e: Event)
    requires Qualifies(e)
    ensures LatestText(events + [e]) == FirstText(e)
  {
    assert (events + [e])[|events|] == e;
  }

  /** A non-qualifying event leaves the result as it was. */
  lemma NonQualifyingIgnored(events: seq<Event>, e: Event)
    requires !Qualifies(e)
    ensures LatestText(events + [e]) == LatestText(events)
  {
    assert (events + [e])[..|events|] == events;
  }

  /** The event with every part after the first removed. */
  function FirstPartOnly(e: Event): (t: Event)
    ensures t.outputKey == e.outputKey && t.content.Some? == e.content.Some?
    ensures HasParts(t) == HasParts(e)
    ensures HasParts(e) ==> t.content.value.parts.value == [e.content.value.parts.value[0]]
  {
    if HasParts(e) then Event(e.outputKey, Some(Content(Some([e.content.value.parts.value[0]])))) else e
  }

  lemma FirstPartOnlySameText(e: Event)
    ensures Qualifies(FirstPartOnly(e)) == Qualifies(e)
    ensures Qualifies(e) ==> FirstText(FirstPartOnly(e)) == FirstText(e)
  {
  }

  /** Only `parts[0]` is inspected: removing the later parts of every event changes nothing. */
  lemma {:induction false} OnlyFirstPartMatters(events: seq<Event>)
    ensures LatestText(seq(|events|, i requires 0 <= i < |events| => FirstPartOnly(events[i]))) == LatestText(events)
    decreases |events|
  {
    var trimmed := seq(|events|, i requires 0 <= i < |events| => FirstPartOnly(events[i]));
    if events != [] {
      var n := |events| - 1;
      var before := events[..n];
      OnlyFirstPartMatters(before);
      assert trimmed[..n] == seq(|before|, i requires 0 <= i < |before| => FirstPartOnly(before[i]));
      FirstPartOnlySameText(events[n]);
      assert LatestText(trimmed) == if Qualifies(trimmed[n]) then FirstText(trimmed[n]) else LatestText(trimmed[..n]);
    }
  }

  /** `get_agent_response` of api/app/agent/utils.py over the events of one run. */
  method GetAgentResponse(events: seq<Event>) returns (response: string)
    ensures (forall j :: 0 <= j < |events| ==> !Qualifies(events[j])) ==> response == ""
    ensures forall j :: LatestQualifying(events, j) ==> response == FirstText(events[j])
  {
    response := "";
    for i := 0 to |events|
      invariant response == LatestText(events[..i])
    {
      assert events[..i + 1][..i] == events[..i];
      var event := events[i];
      assert LatestText(events[..i + 1]) == if Qualifies(event) then FirstText(event) else LatestText(events[..i]);
      if event.content.Some? && event.content.value.parts.Some? && event.content.value.parts.value != []
        && event.content.value.parts.value[0].text.Some? && event.content.value.parts.value[0].text.value != ""
      {
        response := event.content.value.parts.value[0].text.value;
      }
    }
    assert events[..|events|] == events;
    if forall j :: 0 <= j < |events| ==> !Qualifies(events[j]) {
      LatestTextNoneQualifies(events);
    }
    forall j | LatestQualifying(events, j) ensures response == FirstText(events[j]) {
      LatestTextIsLatest(events, j);
    }
  }

  /** A first text with surrounding blanks comes back with them. */
  lemma TextNotStripped()
    ensures LatestText([Event(None, Some(Content(Some([Part(Some(" done\n"))]))))]) == " done\n"
  {
  }
}
