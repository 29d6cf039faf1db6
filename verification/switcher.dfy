/**
 * The options panel (frontend/react/src/components/Switcher.tsx): the list of
 * requested checks and its toggle, the option labels, which records are passed to the graph,
 * and the loading and error flags around the "Make Accessible" request.
 * React state setters only install the values computed here.
 */
module Switcher {
  import opened Wrappers
  import opened GraphModel

  /** The option keys the panel lists, in display order. */
  const Options: seq<string> := ["img_alt", "img_contrast", "page_contrast", "page_navigation", "page_skip_to_main"]

  /** The labels `translate` can produce. */
  const Labels: seq<string> := ["Alternative Image", "Image Contrast", "Page Contrast", "Page Navigation", "Skip to Main"]

  /** `prev.filter(item => item !== id)`: every copy of `id` goes, the rest keep their order. */
  function RemoveAll(prev: seq<string>, id: string): (r: seq<string>)
    ensures |r| <= |prev|
    ensures id !in r
    ensures forall x :: x in r <==> x in prev && x != id
    ensures forall x :: x != id ==> multiset(r)[x] == multiset(prev)[x]
  {
    if prev == [] then []
    else
      var rest := RemoveAll(prev[1..], id);
      assert prev == [prev[0]] + prev[1..];
      if prev[0] == id then rest else [prev[0]] + rest
  }

  /** Filtering a concatenation filters each part: the kept entries stay in order. */
  lemma {:induction false} RemoveAllAppend(a: seq<string>, b: seq<string>, id: string)
    ensures RemoveAll(a + b, id) == RemoveAll(a, id) + RemoveAll(b, id)
  {
    if a != [] {
      assert (a + b)[0] == a[0] && (a + b)[1..] == a[1..] + b;
      RemoveAllAppend(a[1..], b, id);
    } else {
      assert a + b == b;
    }
  }

  /** A list without `id` is left exactly as it was. */
  lemma {:induction false} RemoveAllAbsent(prev: seq<string>, id: string)
    requires id !in prev
    ensures RemoveAll(prev, id) == prev
  {
    if prev != [] { RemoveAllAbsent(prev[1..], id); }
  }

  /** Switching an option off twice is the same as once. */
  lemma RemoveAllIdempotent(prev: seq<string>, id: string)
    ensures RemoveAll(RemoveAll(prev, id), id) == RemoveAll(prev, id)
  {
    RemoveAllAbsent(RemoveAll(prev, id), id);
  }

  /** `handleToggle(id, checked)`: append `id` when switched on, drop every copy when switched off. */
  function HandleToggle(prev: seq<string>, id: string, checked: bool): (r: seq<string>)
    ensures checked ==> |r| == |prev| + 1 && r[..|prev|] == prev && r[|prev|] == id
    ensures checked ==> multiset(r)[id] == multiset(prev)[id] + 1
    ensures !checked ==> r == RemoveAll(prev, id)
  {
    if checked then prev + [id] else RemoveAll(prev, id)
  }

  /** `accesibilityArr.includes(atl)`: whether the switch for `atl` reads on. */
  predicate Checked(arr: seq<string>, atl: string)
  {
    atl in arr
  }

  /** After a toggle the switch reads what was chosen, and no other switch moves. */
  lemma ToggleSetsSwitch(prev: seq<string>, id: string, checked: bool, other: string)
    requires other != id
    ensures Checked(HandleToggle(prev, id, checked), id) == checked
    ensures Checked(HandleToggle(prev, id, checked), other) == Checked(prev, other)
  {
    if checked { assert HandleToggle(prev, id, checked)[|prev|] == id; }
  }

  /** Switching on an option already on stores a second copy. */
  lemma ToggleOnDuplicates(prev: seq<string>, id: string)
    requires id in prev
    ensures multiset(HandleToggle(prev, id, true))[id] >= 2
  {
  }

  /** Switching on and then off leaves the list as switching off alone would. */
  lemma ToggleOnThenOff(prev: seq<string>, id: string)
    ensures HandleToggle(HandleToggle(prev, id, true), id, false) == RemoveAll(prev, id)
  {
    RemoveAllAppend(prev, [id], id);
    assert RemoveAll([id], id) == [];
  }

  /** Switching off and then on leaves `id` exactly once, at the end. */
  lemma ToggleOffThenOn(prev: seq<string>, id: string)
    ensures var r := HandleToggle(HandleToggle(prev, id, false), id, true);
      multiset(r)[id] == 1 && r[|r| - 1] == id
  {
  }

  /** `translate`: a fixed label for four keys and "Skip to Main" for every other string. */
  function Translate(untranslated: string): (text: string)
    ensures text in Labels
    ensures text == "Skip to Main" <==> untranslated !in Options[..4]
    ensures forall k :: 0 <= k < |Options| && Options[k] == untranslated ==> text == Labels[k]
  {
    assert Options[..4] == ["img_alt", "img_contrast", "page_contrast", "page_navigation"];
    if untranslated == "img_alt" then "Alternative Image"
    else if untranslated == "img_contrast" then "Image Contrast"
    else if untranslated == "page_contrast" then "Page Contrast"
    else if untranslated == "page_navigation" then "Page Navigation"
    else "Skip to Main"
  }

  /** The five listed options get five different labels. */
  lemma OptionLabelsDistinct(i: nat, j: nat)
    requires i < j < |Options|
    ensures Translate(Options[i]) != Translate(Options[j])
  {
    assert Translate(Options[i]) == Labels[i];
    assert Translate(Options[j]) == Labels[j];
  }

  /**
   * The records passed to the graphs the page renders: one graph under
   * `nodes.length > 0` gets the fetched records, one under `nodes.length == 0`
   * the bundled ones. The graph reads them only when it mounts.
   */
  function RenderedGraphs(fetched: seq<Record>, bundled: seq<Record>): (graphs: seq<seq<Record>>)
    ensures |graphs| == 1
    ensures |fetched| > 0 ==> graphs[0] == fetched
    ensures |fetched| == 0 ==> graphs[0] == bundled
  {
    (if |fetched| > 0 then [fetched] else []) + (if |fetched| == 0 then [bundled] else [])
  }

  /** The request flags and the fetched records. */
  datatype Panel = Panel(isLoading: bool, error: Option<string>, nodes: seq<Record>)

  const InitialPanel := Panel(false, None, [])

  /** What can happen to the panel: the button is pressed, or a response body arrives. */
  datatype RequestEvent = Press | Response(connections: seq<Record>)

  /**
   * `makeAccessible` up to the fetch: clears the error and sets the loading
   * flag. The button is disabled while loading, so a press then does nothing.
   */
  function BeginRequest(p: Panel): (q: Panel)
    ensures q.isLoading && q.nodes == p.nodes
    ensures !p.isLoading ==> q.error == None
    ensures p.isLoading ==> q == p
  {
    if p.isLoading then p else Panel(true, None, p.nodes)
  }

  /** The success continuation: loading ends and the response's records are installed in `nodes`. */
  function ReceiveResponse(p: Panel, connections: seq<Record>): (q: Panel)
    ensures !q.isLoading && q.nodes == connections && q.error == p.error
  {
    Panel(false, p.error, connections)
  }

  /** One event: a press starts a request, a response ends it and installs its records in `nodes`. */
  function Step(p: Panel, e: RequestEvent): (q: Panel)
    ensures e.Press? ==> q.isLoading && q.nodes == p.nodes
    ensures e.Response? ==> !q.isLoading && q.nodes == e.connections
    ensures p.error == None ==> q.error == None
  {
    match e
    case Press => BeginRequest(p)
    case Response(c) => ReceiveResponse(p, c)
  }

  /** The panel after a sequence of events, oldest first. */
  function Run(p: Panel, events: seq<RequestEvent>): (q: Panel)
    ensures p.error == None ==> q.error == None
    decreases |events|
  {
    if events == [] then p else Run(Step(p, events[0]), events[1..])
  }

  /** Nothing ever writes an error: the message line never shows. */
  lemma NoErrorEverShown(events: seq<RequestEvent>)
    ensures Run(InitialPanel, events).error == None
  {
  }

  /**
   * There is no failure path: after a press, the panel stays loading until a
   * response arrives, and the records held do not change meanwhile.
   */
  lemma {:induction false} LoadingUntilResponse(p: Panel, events: seq<RequestEvent>)
    requires p.isLoading
    requires forall k :: 0 <= k < |events| ==> events[k] == Press
    ensures Run(p, events) == p
    decreases |events|
  {
    if events != [] {
      assert events[1..][0..] == events[1..];
      assert forall k :: 0 <= k < |events[1..]| ==> events[1..][k] == events[k + 1];
      LoadingUntilResponse(Step(p, events[0]), events[1..]);
    }
  }

  /** A press followed by a response holds that response's records, to pass to the graph, and is no longer loading. */
  lemma PressThenResponse(p: Panel, connections: seq<Record>)
    requires !p.isLoading
    ensures Run(p, [Press, Response(connections)]) == Panel(false, None, connections)
  {
    var started := BeginRequest(p);
    assert [Press, Response(connections)][1..] == [Response(connections)];
    assert Run(p, [Press, Response(connections)]) == Run(started, [Response(connections)]);
    assert Run(started, [Response(connections)]) == Run(ReceiveResponse(started, connections), []);
  }
}
