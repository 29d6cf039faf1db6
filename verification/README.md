# AltiMate accessibility graph and agent responses, in Dafny

AltiMate is a browser extension. It asks a backend of language-model agents
to make a web page accessible. The answer is a list of accessibility-change
records. Each record has a change type, a CSS selector, a description and the
positions of related records ("connections"). The extension draws those
records as a force-directed graph.

This project models the logic of that pipeline:

- **The graph component** (`graph.tsx`, and its older draft `graph.jsx`):
  - Builds one node per record. The id is the record's position, the size is 12, and the group and colour come from the change type.
  - Builds one link per connection entry.
  - Drops links that name a missing node.
  - Hover highlighting: the hovered node, its neighbours and its links stay opaque, everything else is dimmed.
  - Mouse-out reset.
  - Selection by click, background click and the Close button.
  - Drag pinning (`fx`/`fy`).
  - The older draft writes the node fields into the record objects themselves. The model shows it draws the same links.
  - The bundled twenty-record sample (`tempJson.ts`) is a concrete instance: 40 raw links, 39 drawn.
- **The options panel** (`Switcher.tsx`):
  - The list of requested checks, with append-on and remove-every-copy-off toggling.
  - Which switch reads on.
  - The option labels.
  - Which graph the page shows.
  - The loading and error flags around the request.
- **The two backend helpers that fold an agent's event stream into an answer**:
  - `api/altimate/utils.py`: per-key text accumulation, with Python's `str.strip` and `"\n".join` written out.
  - `api/app/agent/utils.py`: the latest non-empty first-part text wins.

## Design decisions

- **Node ids are naturals.** The source uses the decimal strings `` `${i}` ``, and two such strings are equal exactly when the numbers are. Connections are naturals for the same reason.
- **The record map is a sequence** in `Object.keys` order. graph.tsx uses only the order of the keys.
- **JavaScript semantics are written out:**
  - `indexOf` returns -1 for a missing value (`ChangeTypes.IndexOf`).
  - `%` truncates toward zero (`ChangeTypes.TruncRem`).
  - Indexing outside an array gives `undefined` (`ChangeTypes.Lookup` returns `None`).
- **Pure parts of the UI are functions; the parts that mutate are imperative.**
  - Pure functions: the graph build and filter, and the options panel.
  - Imperative: the hover handler's `forEach` filling a set (`GraphView.CollectNeighbours`), graph.jsx's in-place build (`LegacyGraph.BuildNodesInPlace`) and the two Python loops (`AltimateResponse.CollectAgentResponse`, `AgentResponse.GetAgentResponse`). Each is proved against a specification function.
  - The mounted component's style state is a class (`GraphView.GraphView`), and so is a simulation node's pin (`GraphView.SimNode`).
- **graph.jsx's hover, mouse-out and drag handlers match graph.tsx's**, once d3 has replaced link endpoints by node objects. They are modelled by the same members.
- **Agent events are datatypes whose fields are all optional:** the `output_key` attribute, `content`, `parts` and each part's `text`. Python truthiness is `Some` and non-empty.

Facts about the code that the model keeps as written:
- The node click handler of graph.tsx always selects the clicked node, so a repeat click keeps it selected (`GraphView.RepeatedClick`).
- Nothing dims the graph while a node is selected. There is no accept or remove action for a change and no focus animation.
- `import Graph from './graph'` (Switcher.tsx:7) is taken to load graph.tsx, not the draft graph.jsx beside it: which one a bundler picks depends on its extension order, which is not part of this model.
- graph.tsx builds its node and link lists once, as the initial state of the component (graph.tsx:93-114). Switcher.tsx passes each non-empty response's records to the same mounted component, so a non-empty response that follows another non-empty one is not redrawn (see `Switcher.RenderedGraphs` under "## Left out").

## Model

| member | source | states |
|---|---|---|
| ChangeTypes.IndexOf | frontend/react/src/components/graph.tsx:78-80 | the result is -1 or an index of the array |
| ChangeTypes.IndexOfSpec | frontend/react/src/components/graph.tsx:78-80 | the index is -1 exactly when the value is absent; otherwise it holds the value and is its first occurrence |
| ChangeTypes.TruncRem | frontend/react/src/components/graph.tsx:84 | JavaScript `%`: magnitude below the divisor, never of the opposite sign to the dividend |
| ChangeTypes.TruncRemSpec | frontend/react/src/components/graph.tsx:84 | JavaScript `%` is odd in the dividend and equals the Euclidean remainder for a non-negative dividend |
| ChangeTypes.Lookup | frontend/react/src/components/graph.tsx:84 | an array index yields a value exactly when it lies inside the array, and the value is an element |
| ChangeTypes.Group | frontend/react/src/components/graph.tsx:69-80 | the group lies between -1 and 5 |
| ChangeTypes.GroupSpec | frontend/react/src/components/graph.tsx:69-80 | the group is -1 exactly for an unknown change type, otherwise the position holding it in the six-entry list |
| ChangeTypes.GroupOfKind | frontend/react/src/components/graph.tsx:69-80 | each of the six kinds has its own position as group |
| ChangeTypes.PaletteAt | frontend/react/src/components/graph.tsx:82-85 | looking up a group modulo the palette length gives entry `g` for groups 0-4, entry 0 for group 5 and `undefined` for -1 |
| ChangeTypes.LegacyPaletteAt | frontend/react/src/components/graph.jsx:12-14 | looking up a group modulo 6 gives entry `g` for groups 0-4 and `undefined` for 5 and -1 |
| ChangeTypes.ColorByGroup | frontend/react/src/components/graph.tsx:82-85 | graph.tsx's colour of a change type, case by case on its group |
| ChangeTypes.LegacyColorByGroup | frontend/react/src/components/graph.jsx:12-14 | graph.jsx's colour of a change type, case by case on its group |
| ChangeTypes.Color | frontend/react/src/components/graph.tsx:82-85 | a colour, when there is one, is an entry of the five-colour palette |
| ChangeTypes.LegacyColor | frontend/react/src/components/graph.jsx:12-14 | a colour, when there is one, is an entry of the five-colour palette |
| ChangeTypes.ColorOfKind | frontend/react/src/components/graph.tsx:82-85 | kinds 0-4 get their own palette entry and kind 5 gets entry 0, the same colour as kind 0 |
| ChangeTypes.PaletteEntriesDiffer | frontend/react/src/components/graph.tsx:83 | the five palette entries are pairwise different colours |
| ChangeTypes.ColorsDistinguishFirstFive | frontend/react/src/components/graph.tsx:82-85 | the first five kinds get pairwise different colours |
| ChangeTypes.LegacyColorOfKind | frontend/react/src/components/graph.jsx:12-14 | the `% 6` lookup agrees with graph.tsx on the first five kinds and gives `undefined` for the sixth |
| ChangeTypes.UnknownKindHasNoColor | frontend/react/src/components/graph.jsx:8-14 | an unknown change type has group -1 and no colour in either draft |
| GraphModel.MakeNode | frontend/react/src/components/graph.tsx:96-105 | a node's group is -1 exactly for an unknown change type and otherwise the kind's position in the list; it has no colour exactly when its group is -1 |
| GraphModel.BuildNodes | frontend/react/src/components/graph.tsx:94-106 | one node per record, in key order, the node at position `i` built from record `i` |
| GraphModel.BuildNodesFields | frontend/react/src/components/graph.tsx:94-106 | node `i` has id `i`, size 12, the record's four fields unchanged, and the colour and group of its change type |
| GraphModel.HasNode | frontend/react/src/components/graph.tsx:140-141 | some node carries the id (no contract; `GraphModel.HasNodeIsIdMembership` relates it to the id list) |
| GraphModel.HasNodeIsIdMembership | frontend/react/src/components/graph.tsx:140-141 | `nodes.some(node => node.id === x)` is membership of `x` in the id list |
| GraphModel.BuiltIds | frontend/react/src/components/graph.tsx:97 | the ids of a build are exactly the positions `0 .. n-1` |
| GraphModel.BuiltIdsDistinct | frontend/react/src/components/graph.tsx:97 | no two built nodes share an id |
| GraphModel.RecordLinks | frontend/react/src/components/graph.tsx:109-112 | one link per connection entry, from the record's id to the entry, in order |
| GraphModel.LinksFrom | frontend/react/src/components/graph.tsx:107-113 | the per-record link lists flattened, records numbered from a base position (no contract; its count, order and membership are the lemmas below) |
| GraphModel.RawLinks | frontend/react/src/components/graph.tsx:107-113 | the raw links, records numbered from 0 (no contract; `GraphModel.RawLinkCount`, `GraphModel.RawLinksAppend` and `GraphModel.RawLinkMembership` state what it holds) |
| GraphModel.LinksFromCount | frontend/react/src/components/graph.tsx:107-113 | the flattened lists hold one link per connection entry of the records |
| GraphModel.RawLinkCount | frontend/react/src/components/graph.tsx:107-113 | the raw link count is the sum of the connection-list lengths |
| GraphModel.LinksFromAppend | frontend/react/src/components/graph.tsx:107-113 | adding a record appends its own links after all earlier ones |
| GraphModel.LinksFromConcat | frontend/react/src/components/graph.tsx:107-113 | flattening distributes over concatenation of record lists, positions shifted |
| GraphModel.RawLinksAppend | frontend/react/src/components/graph.tsx:107-113 | flattening keeps record order: a new last record contributes exactly its links, last |
| GraphModel.LinksFromMembership | frontend/react/src/components/graph.tsx:107-113 | a link is in the flattened lists exactly when it joins some record's position to one of its entries |
| GraphModel.RawLinkMembership | frontend/react/src/components/graph.tsx:107-113 | a raw link is exactly a pair (record position, one of its connection entries) |
| GraphModel.KeepResolvable | frontend/react/src/components/graph.tsx:139-142 | the filter keeps at most all links, and keeps a link exactly when both its endpoints name a node |
| GraphModel.FilteredLinks | frontend/react/src/components/graph.tsx:139-142 | the drawn links are the graph's links filtered against its own node ids (no contract; `GraphModel.KeepResolvable` states what the filter keeps) |
| GraphModel.KeepResolvableAppend | frontend/react/src/components/graph.tsx:139-142 | the filter works link by link, so kept links keep their original order |
| GraphModel.KeepResolvableIdentity | frontend/react/src/components/graph.tsx:139-142 | when no link dangles the filter returns the links unchanged |
| GraphModel.InitialGraph | frontend/react/src/components/graph.tsx:93-114 | the initial `graphData` state: the built nodes and the raw links (no contract; `GraphModel.KeptLinksOfBuild` states which of its links are drawn, `GraphModel.BuildNodesFields` what its nodes hold) |
| GraphModel.KeptLinksOfBuild | frontend/react/src/components/graph.tsx:94-142 | a drawn link is a raw link whose source and target are both record positions; at most one drawn link per connection entry |
| Fixture.TwoEach | frontend/react/src/tempJson.ts:1-144 | records with two connections each have twice as many entries as records |
| Fixture.AllResolve | frontend/react/src/components/graph.tsx:139-142 | links whose entries all name positions of the graph are all drawn |
| Fixture.SampleShape | frontend/react/src/tempJson.ts:1-144 | the sample has 20 records with two entries each, all below 20 except the `20` of record 17 |
| Fixture.SingleRecordLinks | frontend/react/src/components/graph.tsx:107-113 | a single record's flattened links are its own link list |
| Fixture.SplitAround | frontend/react/src/components/graph.tsx:107-113 | the raw links split into those before record `k`, record `k`'s, and those after |
| Fixture.OuterLinksDrawn | frontend/react/src/tempJson.ts:1-144 | under the sample's shape, every link of the records other than 17 is drawn |
| Fixture.MiddleLinkDropped | frontend/react/src/tempJson.ts:121-126 | under the sample's shape, record 17 keeps its link to 16 and loses its link to 20 |
| Fixture.ChainKept | frontend/react/src/tempJson.ts:121-126 | the drawn links are the raw links with exactly `17 -> 20` removed, order kept |
| Fixture.ChainCounts | frontend/react/src/tempJson.ts:121-126 | under the sample's shape: 40 raw links, 39 drawn, `17 -> 20` raw but not drawn |
| Fixture.SampleCounts | frontend/react/src/tempJson.ts:1-144 | the sample itself gives 20 nodes, 40 raw links and 39 drawn links |
| Fixture.SampleDanglingLink | frontend/react/src/tempJson.ts:121-126 | the sample's link `17 -> 20` is raw but not drawn |
| GraphView.Neighbours | frontend/react/src/components/graph.tsx:208-215 | the collected set holds exactly the nodes joined to the hovered one by a drawn link, in either direction |
| GraphView.CollectNeighbours | frontend/react/src/components/graph.tsx:208-215 | the `forEach` loop fills exactly that set |
| GraphView.Incident | frontend/react/src/components/graph.tsx:219-221 | the link-opacity test: the hovered node is the link's source or target (no contract; `GraphView.HighlightFollowsLinks` states that lit links join lit nodes, `GraphView.GraphView.MouseOver` how it sets link opacity) |
| GraphView.HighlightSymmetric | frontend/react/src/components/graph.tsx:217 | `x` stays lit while `d` is hovered exactly when `d` stays lit while `x` is hovered |
| GraphView.HighlightFollowsLinks | frontend/react/src/components/graph.tsx:217-223 | both ends of every lit link are lit nodes, and every lit node other than the hovered one ends a lit link |
| GraphView.GraphView.constructor | frontend/react/src/components/graph.tsx:137-175 | mounting draws every node and only the resolvable links, radius = size, stroke 2, all opaque, nothing selected |
| GraphView.GraphView.MouseOver | frontend/react/src/components/graph.tsx:200-223 | hovered radius `size*1.2`, stroke 3; node and label opacity 1 iff hovered or a neighbour, else 0.3; link opacity 1 iff incident, else 0.1; selection untouched |
| GraphView.GraphView.MouseOut | frontend/react/src/components/graph.tsx:225-234 | radius back to size, stroke 2; all nodes and labels opacity 1; all links 0.6; selection untouched |
| GraphView.GraphView.ClickNode | frontend/react/src/components/graph.tsx:196-199 | clicking a node selects it |
| GraphView.GraphView.ClickBackground | frontend/react/src/components/graph.tsx:237 | a background click clears the selection |
| GraphView.GraphView.Close | frontend/react/src/components/graph.tsx:317-319 | the Close button clears the selection |
| GraphView.RepeatedClick | frontend/react/src/components/graph.tsx:196-199 | clicking the same node twice keeps it selected (no toggle); a background click then clears it |
| GraphView.HoverThenLeave | frontend/react/src/components/graph.tsx:200-234 | after a hover and a mouse-out of the same node, radii and strokes are as mounted and all nodes opaque, but every link has opacity 0.6 |
| GraphView.SimNode.constructor | frontend/react/src/components/graph.tsx:22-25 | a simulation node starts at its position with neither pin set |
| GraphView.SimNode.DragStarted | frontend/react/src/components/graph.tsx:239-243 | drag start pins the node at its current position |
| GraphView.SimNode.Dragged | frontend/react/src/components/graph.tsx:245-248 | each drag move pins the node at the pointer |
| GraphView.SimNode.DragEnded | frontend/react/src/components/graph.tsx:250-254 | drag end clears both pins |
| GraphView.DragOneOfTwo | frontend/react/src/components/graph.jsx:155-170 | a drag pins at the start position, follows the pointer, releases at the end, and never pins another node |
| LegacyGraph.RecordObject.constructor | frontend/react/src/tempJson.ts:1-144 | a sample element carries its record fields and no id, size, colour or group |
| LegacyGraph.Snapshot | frontend/react/src/components/graph.jsx:23-24 | the records the objects carry, one per object, in order |
| LegacyGraph.ObjectIds | frontend/react/src/components/graph.jsx:62-65 | the ids the filter can match are exactly those some object carries |
| LegacyGraph.BuildNodesInPlace | frontend/react/src/components/graph.jsx:23-30 | the nodes are the input objects themselves; object `i` gets id `i`, size 12, the `% 6` colour and its group |
| LegacyGraph.Number | frontend/react/src/components/graph.jsx:24-29 | one step of the build writes id `i`, size 12, the `% 6` colour and the group into the object |
| LegacyGraph.LegacyDrawsSameLinks | frontend/react/src/components/graph.jsx:31-36 | once built, the draft draws exactly the links graph.tsx draws for the same records |
| LegacyGraph.PositionIdsSameLinks | frontend/react/src/components/graph.tsx:139-142 | any id list holding exactly the positions `0 .. n-1` keeps the links graph.tsx keeps |
| LegacyGraph.ObjectIdsArePositions | frontend/react/src/components/graph.jsx:25 | objects numbered by position carry exactly the ids `0 .. n-1` |
| LegacyGraph.SameMembersSameFilter | frontend/react/src/components/graph.jsx:62-65 | the filter depends only on which ids are present |
| LegacyGraph.LegacyNodeMatchesTyped | frontend/react/src/components/graph.jsx:23-30 | the draft's node agrees with graph.tsx's on id, size and group, and on colour except for the sixth kind, which it leaves undefined |
| Switcher.RemoveAll | frontend/react/src/components/Switcher.tsx:117 | the filter removes every copy of the id, keeps every other entry with its multiplicity, and never grows the list |
| Switcher.RemoveAllAppend | frontend/react/src/components/Switcher.tsx:117 | the filter distributes over concatenation, so surviving entries keep their order |
| Switcher.RemoveAllAbsent | frontend/react/src/components/Switcher.tsx:117 | a list without the id is returned unchanged |
| Switcher.RemoveAllIdempotent | frontend/react/src/components/Switcher.tsx:117 | switching an option off twice equals switching it off once |
| Switcher.HandleToggle | frontend/react/src/components/Switcher.tsx:115-119 | on: the old list followed by the id, with one more copy of the id; off: every copy removed |
| Switcher.Checked | frontend/react/src/components/Switcher.tsx:173 | a switch reads on exactly when its option is in the list (no contract; `Switcher.ToggleSetsSwitch` states how a toggle moves it) |
| Switcher.ToggleSetsSwitch | frontend/react/src/components/Switcher.tsx:171-174 | after a toggle the switch reads what was chosen and no other switch changes |
| Switcher.ToggleOnDuplicates | frontend/react/src/components/Switcher.tsx:117 | switching on an option already on stores a second copy |
| Switcher.ToggleOnThenOff | frontend/react/src/components/Switcher.tsx:117 | on then off equals off alone |
| Switcher.ToggleOffThenOn | frontend/react/src/components/Switcher.tsx:117 | off then on leaves exactly one copy, at the end |
| Switcher.Translate | frontend/react/src/components/Switcher.tsx:97-113 | each of the four keys gets its own label, and "Skip to Main" is returned exactly for every other string |
| Switcher.OptionLabelsDistinct | frontend/react/src/components/Switcher.tsx:97-113 | the five listed options get five different labels |
| Switcher.RenderedGraphs | frontend/react/src/components/Switcher.tsx:189-199 | exactly one graph is rendered; the fetched records are passed to it when there are any, else the bundled ones |
| Switcher.BeginRequest | frontend/react/src/components/Switcher.tsx:123-125 | a press sets loading and clears the error; while loading the disabled button changes nothing |
| Switcher.ReceiveResponse | frontend/react/src/components/Switcher.tsx:138-141 | the success continuation clears loading and installs the response's records |
| Switcher.Step | frontend/react/src/components/Switcher.tsx:123-141 | a press leaves the panel loading with its records unchanged; a response ends loading and installs its records; neither sets an error |
| Switcher.Run | frontend/react/src/components/Switcher.tsx:123-141 | no sequence of presses and responses ever sets an error |
| Switcher.NoErrorEverShown | frontend/react/src/components/Switcher.tsx:124 | from mount, the error line never shows |
| Switcher.LoadingUntilResponse | frontend/react/src/components/Switcher.tsx:127-141 | without a response (there is no failure path) the panel stays loading, records unchanged |
| Switcher.PressThenResponse | frontend/react/src/components/Switcher.tsx:123-141 | a press then a response leaves the panel not loading, with no error, holding the response's records to pass to the graph |
| AgentEvents.HasParts | api/altimate/utils.py:20 | the event has content with a non-empty parts list, the negation of the skip test (no contract; `AltimateResponse.ContributionIff` states that an event contributes exactly when it holds and some part has non-empty text) |
| AgentEvents.LeadingSpaces | api/altimate/utils.py:24 | the count of whitespace characters opening the string, all whitespace, followed by a non-space |
| AgentEvents.TrailingSpaces | api/altimate/utils.py:24 | the same for the end of the string |
| AgentEvents.Strip | api/altimate/utils.py:24 | `strip()` never lengthens the string |
| AgentEvents.StripSpec | api/altimate/utils.py:24 | `strip()` returns a slice with only whitespace cut off either side, neither starting nor ending in whitespace, empty exactly for an all-whitespace string |
| AgentEvents.StripIdempotent | api/altimate/utils.py:24 | stripping twice equals stripping once |
| AgentEvents.JoinLines | api/altimate/utils.py:33 | a one-item join is the item itself |
| AgentEvents.JoinLinesLength | api/altimate/utils.py:33 | the join's length is the items' total length plus one per gap |
| AgentEvents.SplitLines | api/altimate/utils.py:33 | the inverse of the join, `split("\n")`: it always yields at least one item |
| AgentEvents.SplitPlain | api/altimate/utils.py:33 | a text without a newline splits into itself alone |
| AgentEvents.SplitAfterNewline | api/altimate/utils.py:33 | a newline followed by a newline-free item adds exactly that item to the split |
| AgentEvents.JoinThenSplit | api/altimate/utils.py:33 | a non-empty list of newline-free items is recovered by splitting its join on newlines |
| AltimateResponse.KeyOf | api/altimate/utils.py:18 | the key is the event's `output_key`, or `"default"` when it has none (no contract; `AltimateResponse.OtherKeysUnaffected` states that keys separate the texts) |
| AltimateResponse.TextParts | api/altimate/utils.py:23-27 | at most one text per part |
| AltimateResponse.TextPartsEmptyIff | api/altimate/utils.py:23-30 | no text at all exactly when no part has non-empty text |
| AltimateResponse.TextPartsAppend | api/altimate/utils.py:23-27 | the comprehension works part by part and keeps part order |
| AltimateResponse.BlankPartKept | api/altimate/utils.py:23-27 | a whitespace-only text still counts, as an empty string |
| AltimateResponse.Contribution | api/altimate/utils.py:20-33 | what an event contributes ends with a newline |
| AltimateResponse.ContributionIff | api/altimate/utils.py:20-30 | an event contributes exactly when it has content and parts with some non-empty text |
| AltimateResponse.BlankEventContributesNewline | api/altimate/utils.py:23-33 | an event whose only part is blank contributes a lone newline |
| AltimateResponse.ContributedHasWitness | api/altimate/utils.py:18-33 | a contributed key has an event filed under it that is not skipped |
| AltimateResponse.WitnessContributes | api/altimate/utils.py:18-33 | any event filed under a key and not skipped makes that key contributed |
| AltimateResponse.KeyTextShape | api/altimate/utils.py:29-33 | an uncontributed key's text is empty; a contributed key's text ends with a newline |
| AltimateResponse.KeyTextAppend | api/altimate/utils.py:13-33 | over two batches of events each key's text is the concatenation of the batches' texts |
| AltimateResponse.OtherKeysUnaffected | api/altimate/utils.py:32-33 | an event filed under another key changes neither the text nor the presence of a key |
| AltimateResponse.KeyTextStep | api/altimate/utils.py:13-33 | one more event extends every key's text by that event's piece and adds its key if it is not skipped |
| AltimateResponse.SkipStep | api/altimate/utils.py:20-30 | a skipped event leaves the dictionary a faithful summary of the longer prefix |
| AltimateResponse.AppendStep | api/altimate/utils.py:32-33 | `setdefault` and `+=` keep the dictionary a faithful summary of the longer prefix |
| AltimateResponse.CollectAgentResponse | api/altimate/utils.py:11-35 | the dictionary holds a key exactly when some event contributed under it, with that key's contributions concatenated in event order |
| AgentResponse.Qualifies | api/app/agent/utils.py:15-19 | the loop's test: content, a non-empty parts list and a non-empty first text (no contract; `AgentResponse.NonQualifyingIgnored` states what failing it means) |
| AgentResponse.FirstText | api/app/agent/utils.py:18-20 | `event.content.parts[0].text` of a qualifying event, unstripped (no contract; `AgentResponse.LatestTextIsLatest` states that the answer is this text of the latest qualifying event) |
| AgentResponse.LatestTextNoneQualifies | api/app/agent/utils.py:9-21 | when no event qualifies the answer is `""` |
| AgentResponse.LatestTextIsLatest | api/app/agent/utils.py:10-20 | otherwise the answer is the first-part text of the latest qualifying event |
| AgentResponse.LatestOverwrites | api/app/agent/utils.py:20 | a qualifying event replaces the earlier answer, unstripped and not concatenated |
| AgentResponse.NonQualifyingIgnored | api/app/agent/utils.py:15-19 | an event that does not qualify leaves the answer unchanged |
| AgentResponse.FirstPartOnly | api/app/agent/utils.py:18 | cutting an event down to its first part keeps its key, content presence and first part |
| AgentResponse.FirstPartOnlySameText | api/app/agent/utils.py:15-20 | that cut keeps whether the event qualifies and its first text |
| AgentResponse.OnlyFirstPartMatters | api/app/agent/utils.py:15-20 | removing every part after the first from every event does not change the answer |
| AgentResponse.GetAgentResponse | api/app/agent/utils.py:9-21 | the loop returns `""` when nothing qualifies, else the first-part text of the latest qualifying event |
| AgentResponse.TextNotStripped | api/app/agent/utils.py:20 | a text with surrounding blanks is returned with them |

## Findings

| source | as written | input that shows it | evidently intended | confidence | as-written member | corrected member |
|---|---|---|---|---|---|---|
| frontend/react/src/components/graph.jsx:13 | the colour index is `indexOf(changeType) % 6` on a five-entry colour list | `changeType = "page_skip_to_main_added"`: index 5, `5 % 6 = 5`, `colors[5]` is `undefined`, so that node gets no palette colour: its fill attribute is removed and the SVG default (black) applies | `% colors.length`, as graph.tsx:84 does, so every known kind gets a colour | high (not executed) | ChangeTypes.LegacyColorOfKind | ChangeTypes.ColorOfKind |

The `d3` drawing of graph.tsx uses the corrected `ChangeTypes.Color`. The older draft's build keeps the code as written, so the missing colour shows up in `LegacyGraph.LegacyNodeMatchesTyped`.

## Left out

- The d3 force simulation is left out: link, charge, centre and collision forces, `alphaTarget`, and the tick handler that paints positions. It is a foreign library doing floating-point physics. `GraphView.SimNode` keeps only the pin fields the drag handlers write. The simulation's own writes to `x`/`y` are outside the model.
- Zoom: only the configured bounds 0.1 and 4 are kept, as constants. d3 does the clamping.
- DOM work is left out: SVG element creation, fill and stroke colours, label text, fonts, the 200 ms transitions, and window-resize dimensions. Opacities, radii and stroke widths are modelled as their final values.
- `addNode` in graph.tsx (lines 275-298) is left out. It uses `Date.now()` and `Math.random()` and is never called from the page.
- In Switcher.tsx these are left out:
  - `chrome.storage` loading and saving of the list;
  - the timer-driven slide and hide effects;
  - the developer-mode switch;
  - the `fetch` itself and the reading of `document.body`.
  The request is a `Press` event and its success continuation a `Response` event. No rejection is modelled, because the code attaches no handler for one.
- The messaging scripts, the agent and prompt definitions, the HTTP servers and the other source files are not part of this model.
- `tempData.jsx`, the bundled graph input of Switcher.tsx, is not part of this model: its connections are pairs, not positions. `Switcher.RenderedGraphs` takes the bundled records as a parameter.
- Switcher.RenderedGraphs: the model says which records are passed to the graph, not what the page draws. graph.tsx reads its `nodes` prop only at mount, as the initial value of its state (graph.tsx:93-114), and `setGraphData` is called only in the unused `addNode`. The fetched-records slot of Switcher.tsx:189-193 stays mounted, so a second non-empty response is passed to the graph but never redrawn.
- `replacementHTML` is not read by the graph and is not in `GraphModel.Record`.
- Connection entries that are not natural numbers are left out. They would give link targets that match no id, and the filter would drop them.
- graph.jsx takes each object's id from its key. The model gives object `i` the id `i`, which is what the array input it imports gives.
- Python's dictionary key order is not modelled. `AltimateResponse.CollectAgentResponse` returns a Dafny `map`.
- An `output_key` attribute that is present but `None` is not modelled: it would file text under the key `None`. An absent attribute maps to `"default"`.
- The runner, session and message parameters of both `get_agent_response` helpers are not modelled. The events the runner yields are the input, and `async` iteration is an ordinary loop.
- At mount, links carry the attribute `stroke-opacity` 0.6 and no `opacity` style. After a mouse-out every link has style `opacity` 0.6, so links end up fainter than before the hover. `GraphView.HoverThenLeave` states this as the code does; it is not claimed as a defect.
- GraphView.GraphView.MouseOver: the 1.2 growth of the radius is modelled as a real multiplication. The rendering's floating-point rounding is not modelled.
