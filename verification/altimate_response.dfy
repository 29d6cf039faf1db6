/**
 * The per-key collector of api/altimate/utils.py: it walks the events of an
 * agent run and appends, under each event's `output_key`, the stripped texts
 * of the event's non-empty parts joined by newlines, plus a closing newline.
 * The runner producing the events is not modelled; the events are the input.
 */
module AltimateResponse {
  import opened Wrappers
  import opened AgentEvents

  /** The list comprehension over the parts: the stripped text of every part whose text is non-empty. */
  function TextParts(parts: seq<Part>): (r: seq<string>)
    ensures |r| <= |parts|
  {
    if parts == [] then []
    else (if Truthy(parts[0].text) then [Strip(parts[0].text.value)] else []) + TextParts(parts[1..])
  }

  /** The comprehension is empty exactly when no part has non-empty text. */
  lemma {:induction false} TextPartsEmptyIff(parts: seq<Part>)
    ensures TextParts(parts) == [] <==> forall k :: 0 <= k < |parts| ==> !Truthy(parts[k].text)
  {
    if parts != [] {
      TextPartsEmptyIff(parts[1..]);
      assert forall k :: 1 <= k < |parts| ==> parts[k] == parts[1..][k - 1];
    }
  }

  /** The comprehension keeps the parts' order: it maps each part on its own and concatenates. */
  lemma {:induction false} TextPartsAppend(a: seq<Part>, b: seq<Part>)
    ensures TextParts(a + b) == TextParts(a) + TextParts(b)
  {
    if a == [] {
      assert a + b == b;
    } else {
      var head := if Truthy(a[0].text) then [Strip(a[0].text.value)] else [];
      assert (a + b)[0] == a[0] && (a + b)[1..] == a[1..] + b;
      assert TextParts(a + b) == head + TextParts(a[1..] + b);
      TextPartsAppend(a[1..], b);
      assert head + (TextParts(a[1..]) + TextParts(b)) == (head + TextParts(a[1..])) + TextParts(b);
    }
  }

  /** A part whose text is present but only whitespace still counts, as an empty string. */
  lemma BlankPartKept(p: Part)
    requires Truthy(p.text)
    requires forall k :: 0 <= k < |p.text.value| ==> IsSpace(p.text.value[k])
    ensures TextParts([p]) == [""]
  {
    assert [p][1..] == [];
    StripSpec(p.text.value);
  }

  /** The key an event's text is filed under: its `output_key`, or `"default"` when it has none. */
  function KeyOf(e: Event): string
  {
    if e.outputKey.Some? then e.outputKey.value else "default"
  }

  /**
   * What one event appends to its key's entry, or `None` when it is skipped:
   * no content, no parts, or no part with non-empty text.
   */
  function Contribution(e: Event): (c: Option<string>)
    ensures c.Some? ==> |c.value| > 0 && c.value[|c.value| - 1] == '\n'
  {
    if !HasParts(e) then None
    else
      var textParts := TextParts(e.content.value.parts.value);
      if textParts == [] then None else Some(JoinLines(textParts) + "\n")
  }

  /** An event is skipped exactly when it has no content, no parts, or no part with non-empty text. */
  lemma ContributionIff(e: Event)
    ensures Contribution(e).Some? <==>
      HasParts(e) && exists k :: 0 <= k < |e.content.value.parts.value| && Truthy(e.content.value.parts.value[k].text)
  {
    if HasParts(e) { TextPartsEmptyIff(e.content.value.parts.value); }
  }

  /** An event whose only part is blank text still creates its key, with a lone newline. */
  lemma BlankEventContributesNewline(e: Event)
    requires HasParts(e) && |e.content.value.parts.value| == 1
    requires Truthy(e.content.value.parts.value[0].text)
    requires forall k :: 0 <= k < |e.content.value.parts.value[0].text.value| ==> IsSpace(e.content.value.parts.value[0].text.value[k])
    ensures Contribution(e) == Some("\n")
  {
    var parts := e.content.value.parts.value;
    assert parts == [parts[0]];
    BlankPartKept(parts[0]);
    assert TextParts(parts) == [""];
    assert JoinLines([""]) + "\n" == "\n";
  }

  /** The event is filed under `k` and not skipped. */
  predicate FiledUnder(e: Event, k: string)
  {
    KeyOf(e) == k && Contribution(e).Some?
  }

  /** What the event appends under `k`: its contribution when filed under `k`, else nothing. */
  function Piece(e: Event, k: string): string
  {
    if FiledUnder(e, k) then Contribution(e).value else ""
  }

  /** Whether some event of `events` has key `k` and is not skipped. */
  predicate Contributed(events: seq<Event>, k: string)
    decreases |events|
  {
    events != [] && (Contributed(events[..|events| - 1], k) || FiledUnder(events[|events| - 1], k))
  }

  /** The text accumulated under `k`: the contributions of the events with key `k`, in event order. */
  function KeyText(events: seq<Event>, k: string): string
    decreases |events|
  {
    if events == [] then "" else KeyText(events[..|events| - 1], k) + Piece(events[|events| - 1], k)
  }

  /** A contributed key has an event filed under it ... */
  lemma {:induction false} ContributedHasWitness(events: seq<Event>, k: string)
    requires Contributed(events, k)
    ensures exists j :: 0 <= j < |events| && FiledUnder(events[j], k)
    decreases |events|
  {
    var n := |events| - 1;
    if Contributed(events[..n], k) {
      ContributedHasWitness(events[..n], k);
      var j :| 0 <= j < n && FiledUnder(events[..n][j], k);
      assert events[j] == events[..n][j];
    } else {
      assert FiledUnder(events[n], k);
    }
  }

  /** ... and any event filed under a key makes it contributed. */
  lemma {:induction false} WitnessContributes(events: seq<Event>, k: string, j: nat)
    requires j < |events| && FiledUnder(events[j], k)
    ensures Contributed(events, k)
    decreases |events|
  {
    var n := |events| - 1;
    if j < n {
      assert events[..n][j] == events[j];
      WitnessContributes(events[..n], k, j);
    }
  }

  /** Each key holds text exactly when it was contributed to, and its text then ends with a newline. */
  lemma {:induction false} KeyTextShape(events: seq<Event>, k: string)
    ensures !Contributed(events, k) ==> KeyText(events, k) == ""
    ensures Contributed(events, k) ==> |KeyText(events, k)| > 0 && KeyText(events, k)[|KeyText(events, k)| - 1] == '\n'
    decreases |events|
  {
    if events != [] {
      KeyTextShape(events[..|events| - 1], k);
      assert Piece(events[|events| - 1], k) == "" || FiledUnder(events[|events| - 1], k);
    }
  }

  /** Running over two batches of events concatenates each key's texts. */
  lemma {:induction false} KeyTextAppend(a: seq<Event>, b: seq<Event>, k: string)
    ensures KeyText(a + b, k) == KeyText(a, k) + KeyText(b, k)
    decreases |b|
  {
    if b == [] {
      assert a + b == a;
    } else {
      var b', piece := b[..|b| - 1], Piece(b[|b| - 1], k);
      assert (a + b)[..|a + b| - 1] == a + b';
      assert (a + b)[|a + b| - 1] == b[|b| - 1];
      assert KeyText(a + b, k) == KeyText(a + b', k) + piece;
      KeyTextAppend(a, b', k);
      assert KeyText(b, k) == KeyText(b', k) + piece;
      assert KeyText(a, k) + KeyText(b', k) + piece == KeyText(a, k) + (KeyText(b', k) + piece);
    }
  }

  /** An event filed under another key leaves `k`'s entry and presence untouched. */
  lemma OtherKeysUnaffected(events: seq<Event>, e: Event, k: string)
    requires KeyOf(e) != k
    ensures KeyText(events + [e], k) == KeyText(events, k)
    ensures Contributed(events + [e], k) == Contributed(events, k)
  {
    assert (events + [e])[..|events|] == events;
  }

  /** One more event extends every key's text by that event's piece. */
  lemma KeyTextStep(events: seq<Event>, i: nat)
    requires i < |events|
    ensures forall k :: KeyText(events[..i + 1], k) == KeyText(events[..i], k) + Piece(events[i], k)
    ensures forall k :: Contributed(events[..i + 1], k) <==> Contributed(events[..i], k) || FiledUnder(events[i], k)
  {
    assert events[..i + 1][..i] == events[..i];
  }

  /** `response` holds exactly the keys contributed to by `events`, each with its accumulated text. */
  ghost predicate Collected(response: map<string, string>, events: seq<Event>)
  {
    && (forall k :: k in response <==> Contributed(events, k))
    && (forall k :: k in response ==> response[k] == KeyText(events, k))
  }

  /** A skipped event leaves the dictionary as it was. */
  lemma SkipStep(response: map<string, string>, events: seq<Event>, i: nat)
    requires i < |events| && Contribution(events[i]) == None
    requires Collected(response, events[..i])
    ensures Collected(response, events[..i + 1])
  {
    KeyTextStep(events, i);
  }

  /**
   * A kept event appends its contribution to its key's entry, starting the
   * entry from `""` when the key is new (`setdefault`).
   */
  lemma AppendStep(response: map<string, string>, events: seq<Event>, i: nat)
    requires i < |events| && Contribution(events[i]).Some?
    requires Collected(response, events[..i])
    ensures var key := KeyOf(events[i]);
      Collected(response[key := (if key in response then response[key] else "") + Contribution(events[i]).value], events[..i + 1])
  {
    var e, key := events[i], KeyOf(events[i]);
    var prior := if key in response then response[key] else "";
    var updated := response[key := prior + Contribution(e).value];
    KeyTextStep(events, i);
    forall k
      ensures k in updated <==> Contributed(events[..i + 1], k)
      ensures k in updated ==> updated[k] == KeyText(events[..i + 1], k)
    {
      if k == key {
        KeyTextShape(events[..i], key);
        assert FiledUnder(e, k) && Piece(e, k) == Contribution(e).value;
      } else {
        assert !FiledUnder(e, k) && Piece(e, k) == "";
      }
    }
  }

  /**
   * `get_agent_response` of api/altimate/utils.py over the events of one run:
   * the dictionary holds a key exactly when some event contributed under it,
   * with the contributions under that key concatenated in event order.
   */
  method CollectAgentResponse(events: seq<Event>) returns (response: map<string, string>)
    ensures forall k :: k in response <==> Contributed(events, k)
    ensures forall k :: k in response ==> response[k] == KeyText(events, k)
  {
    response := map[];
    for i := 0 to |events|
      invariant Collected(response, events[..i])
    {
      var event := events[i];
      var key := KeyOf(event);
      if event.content.None? || event.content.value.parts.None? || event.content.value.parts.value == [] {
        SkipStep(response, events, i);
        continue;
      }
      var textParts := TextParts(event.content.value.parts.value);
      if textParts == [] {
        SkipStep(response, events, i);
        continue;
      }
      var piece := JoinLines(textParts) + "\n";
      AppendStep(response, events, i);
      ghost var before := response;
      if key !in response {
        response := response[key := ""];
      }
      response := response[key := response[key] + piece];
      assert response == before[key := (if key in before then before[key] else "") + piece];
    }
    assert events[..|events|] == events;
  }
}
