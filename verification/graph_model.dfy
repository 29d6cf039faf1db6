/**
 * How graph.tsx turns the map of change records it receives into the node
 * and link lists of its graph, and which links it keeps for drawing
 * (frontend/react/src/components/graph.tsx, the initial `graphData` and
 * `filteredLinks`).
 *
 * Ids are strings in the source (`${index}`, `${connectionIndex}`); the
 * decimal strings of two naturals are equal exactly when the naturals are,
 * so ids are modelled by the naturals they spell.
 */
module GraphModel {
  import opened Wrappers
  import ChangeTypes

  /** One record of the input map: the value stored under one key. */
  datatype Record = Record(
    changeType: string,
    descriptionText: string,
    querySelector: string,
    connections: seq<nat>)

  /** A graph node: the record's fields plus the id, size, colour and group the build adds. */
  datatype Node = Node(
    id: nat,
    changeType: string,
    descriptionText: string,
    querySelector: string,
    connections: seq<nat>,
    size: nat,
    color: Option<string>,
    group: int)

  /** A link between two node ids. */
  datatype Link = Link(source: nat, target: nat)

  /** The initial graph state: nodes and the raw (unfiltered) links. */
  datatype GraphData = GraphData(nodes: seq<Node>, links: seq<Link>)

  /** Every node is drawn with radius 12. */
  const NodeSize: nat := 12

  /** The node for the record at position `index` of `Object.keys` order. */
  function MakeNode(index: nat, r: Record): (n: Node)
    ensures -1 <= n.group < |ChangeTypes.Kinds|
    ensures n.group == -1 <==> r.changeType !in ChangeTypes.Kinds
    ensures n.group >= 0 ==> ChangeTypes.Kinds[n.group] == r.changeType
    ensures n.color.None? <==> n.group == -1
  {
    ChangeTypes.GroupSpec(r.changeType);
    ChangeTypes.ColorByGroup(r.changeType);
    Node(index, r.changeType, r.descriptionText, r.querySelector, r.connections,
         NodeSize, ChangeTypes.Color(r.changeType), ChangeTypes.Group(r.changeType))
  }

  /** The node list: `Object.keys(nodes).map(...)`. */
  function BuildNodes(rs: seq<Record>): (nodes: seq<Node>)
    ensures |nodes| == |rs|
    ensures forall i :: 0 <= i < |rs| ==> nodes[i] == MakeNode(i, rs[i])
  {
    seq(|rs|, i requires 0 <= i < |rs| => MakeNode(i, rs[i]))
  }

  /**
   * One node per key, in key order: node `i` is named by its position, has
   * size 12, copies the record's fields unchanged and carries the colour and
   * group of its change type.
   */
  lemma BuildNodesFields(rs: seq<Record>, i: nat)
    requires i < |rs|
    ensures |BuildNodes(rs)| == |rs|
    ensures var n := BuildNodes(rs)[i];
      && n.id == i
      && n.size == NodeSize
      && n.changeType == rs[i].changeType
      && n.descriptionText == rs[i].descriptionText
      && n.querySelector == rs[i].querySelector
      && n.connections == rs[i].connections
      && n.color == ChangeTypes.Color(rs[i].changeType)
      && n.group == ChangeTypes.Group(rs[i].changeType)
  {
  }

  /** The ids of a node list, in order. */
  function Ids(nodes: seq<Node>): (ids: seq<nat>)
    ensures |ids| == |nodes|
    ensures forall k :: 0 <= k < |nodes| ==> ids[k] == nodes[k].id
  {
    seq(|nodes|, k requires 0 <= k < |nodes| => nodes[k].id)
  }

  /** `nodes.some(node => node.id === x)`. */
  predicate HasNode(nodes: seq<Node>, x: nat)
  {
    exists k :: 0 <= k < |nodes| && nodes[k].id == x
  }

  /** The `some` test is membership in the id list. */
  lemma HasNodeIsIdMembership(nodes: seq<Node>, x: nat)
    ensures HasNode(nodes, x) <==> x in Ids(nodes)
  {
    if x in Ids(nodes) {
      var k :| 0 <= k < |Ids(nodes)| && Ids(nodes)[k] == x;
      assert nodes[k].id == x;
    }
  }

  /** The ids of a fresh build are exactly the positions 0 .. n-1 ... */
  lemma BuiltIds(rs: seq<Record>, x: nat)
    ensures x in Ids(BuildNodes(rs)) <==> x < |rs|
  {
    var ids := Ids(BuildNodes(rs));
    if x < |rs| { assert ids[x] == x; }
  }

  /** ... and each is used once. */
  lemma BuiltIdsDistinct(rs: seq<Record>)
    ensures forall i, j :: 0 <= i < j < |rs| ==> BuildNodes(rs)[i].id != BuildNodes(rs)[j].id
  {
  }

  /** The links of one record: one per connection entry, from the record's id, in order. */
  function RecordLinks(index: nat, connections: seq<nat>): (ls: seq<Link>)
    ensures |ls| == |connections|
    ensures forall j :: 0 <= j < |connections| ==> ls[j] == Link(index, connections[j])
  {
    seq(|connections|, j requires 0 <= j < |connections| => Link(index, connections[j]))
  }

  /** The flattened per-record link lists of `rs`, whose first record sits at position `base`. */
  function LinksFrom(rs: seq<Record>, base: nat): seq<Link>
    decreases |rs|
  {
    if rs == [] then [] else RecordLinks(base, rs[0].connections) + LinksFrom(rs[1..], base + 1)
  }

  /** The raw links: `Object.keys(nodes).map(...).flat()`. */
  function RawLinks(rs: seq<Record>): seq<Link>
  {
    LinksFrom(rs, 0)
  }

  /** The sum of all connection-list lengths. */
  function TotalConnections(rs: seq<Record>): nat
  {
    if rs == [] then 0 else |rs[0].connections| + TotalConnections(rs[1..])
  }

  lemma {:induction false} LinksFromCount(rs: seq<Record>, base: nat)
    ensures |LinksFrom(rs, base)| == TotalConnections(rs)
    decreases |rs|
  {
    if rs != [] { LinksFromCount(rs[1..], base + 1); }
  }

  /** One raw link per connection entry. */
  lemma RawLinkCount(rs: seq<Record>)
    ensures |RawLinks(rs)| == TotalConnections(rs)
  {
    LinksFromCount(rs, 0);
  }

  lemma {:induction false} LinksFromAppend(rs: seq<Record>, r: Record, base: nat)
    ensures LinksFrom(rs + [r], base) == LinksFrom(rs, base) + RecordLinks(base + |rs|, r.connections)
    decreases |rs|
  {
    if rs == [] {
      assert LinksFrom([r], base) == RecordLinks(base, r.connections) + LinksFrom([], base + 1);
    } else {
      assert (rs + [r])[0] == rs[0];
      assert (rs + [r])[1..] == rs[1..] + [r];
      LinksFromAppend(rs[1..], r, base + 1);
    }
  }

  lemma {:induction false} LinksFromConcat(a: seq<Record>, b: seq<Record>, base: nat)
    ensures LinksFrom(a + b, base) == LinksFrom(a, base) + LinksFrom(b, base + |a|)
    decreases |a|
  {
    if a == [] {
      assert a + b == b;
    } else {
      assert (a + b)[0] == a[0];
      assert (a + b)[1..] == a[1..] + b;
      LinksFromConcat(a[1..], b, base + 1);
    }
  }

  /** Flattening keeps record order: adding a record appends exactly its links, after all earlier ones. */
  lemma RawLinksAppend(rs: seq<Record>, r: Record)
    ensures RawLinks(rs + [r]) == RawLinks(rs) + RecordLinks(|rs|, r.connections)
  {
    LinksFromAppend(rs, r, 0);
  }

  lemma {:induction false} LinksFromMembership(rs: seq<Record>, base: nat, l: Link)
    ensures l in LinksFrom(rs, base) <==>
      exists i, j :: 0 <= i < |rs| && 0 <= j < |rs[i].connections| && l == Link(base + i, rs[i].connections[j])
    decreases |rs|
  {
    if rs != [] {
      LinksFromMembership(rs[1..], base + 1, l);
      var head := RecordLinks(base, rs[0].connections);
      if l in head {
        var j :| 0 <= j < |head| && head[j] == l;
        assert l == Link(base + 0, rs[0].connections[j]);
      }
      if exists i, j :: 0 <= i < |rs| && 0 <= j < |rs[i].connections| && l == Link(base + i, rs[i].connections[j]) {
        var i, j :| 0 <= i < |rs| && 0 <= j < |rs[i].connections| && l == Link(base + i, rs[i].connections[j]);
        if i == 0 {
          assert head[j] == l;
        } else {
          assert rs[1..][i - 1].connections[j] == rs[i].connections[j];
        }
      }
    }
  }

  /** A raw link is exactly a pair (position of a record, one of its connection entries). */
  lemma RawLinkMembership(rs: seq<Record>, l: Link)
    ensures l in RawLinks(rs) <==>
      exists i, j :: 0 <= i < |rs| && 0 <= j < |rs[i].connections| && l == Link(i, rs[i].connections[j])
  {
    LinksFromMembership(rs, 0, l);
  }

  /** The initial `graphData` state. */
  function InitialGraph(rs: seq<Record>): GraphData
  {
    GraphData(BuildNodes(rs), RawLinks(rs))
  }

  /** Both endpoints of a link name a node of the id list. */
  predicate Resolves(ids: seq<nat>, l: Link)
  {
    l.source in ids && l.target in ids
  }

  /** `links.filter(...)`: the links both of whose endpoints name a node, in their original order. */
  function KeepResolvable(links: seq<Link>, ids: seq<nat>): (kept: seq<Link>)
    ensures |kept| <= |links|
    ensures forall l :: l in kept <==> l in links && Resolves(ids, l)
  {
    if links == [] then []
    else (if Resolves(ids, links[0]) then [links[0]] else []) + KeepResolvable(links[1..], ids)
  }

  /** The filter works link by link, so it keeps the relative order of what it keeps. */
  lemma {:induction false} KeepResolvableAppend(a: seq<Link>, b: seq<Link>, ids: seq<nat>)
    ensures KeepResolvable(a + b, ids) == KeepResolvable(a, ids) + KeepResolvable(b, ids)
  {
    if a != [] {
      assert (a + b)[0] == a[0];
      assert (a + b)[1..] == a[1..] + b;
      KeepResolvableAppend(a[1..], b, ids);
    } else {
      assert a + b == b;
    }
  }

  /** With no dangling link, the filter drops nothing. */
  lemma {:induction false} KeepResolvableIdentity(links: seq<Link>, ids: seq<nat>)
    requires forall i :: 0 <= i < |links| ==> Resolves(ids, links[i])
    ensures KeepResolvable(links, ids) == links
  {
    if links != [] {
      KeepResolvableIdentity(links[1..], ids);
    }
  }

  /** The drawn links of a graph: `filteredLinks`. */
  function FilteredLinks(g: GraphData): seq<Link>
  {
    KeepResolvable(g.links, Ids(g.nodes))
  }

  /**
   * For a freshly built graph, the drawn links are the raw links between two
   * existing positions: none names a missing node, none between existing nodes
   * is lost, and there are at most as many as there are connection entries.
   */
  lemma KeptLinksOfBuild(rs: seq<Record>, l: Link)
    ensures l in FilteredLinks(InitialGraph(rs)) <==> l in RawLinks(rs) && l.source < |rs| && l.target < |rs|
    ensures |FilteredLinks(InitialGraph(rs))| <= TotalConnections(rs)
  {
    BuiltIds(rs, l.source);
    BuiltIds(rs, l.target);
    RawLinkCount(rs);
  }
}
