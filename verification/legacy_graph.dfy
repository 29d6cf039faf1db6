/**
 * The older draft of the graph (frontend/react/src/components/graph.jsx).
 * It reads the bundled sample array and builds its nodes by writing `id`,
 * `size`, `color` and `group` into the sample's own record objects; its link
 * list and filter are the ones of graph.tsx, applied to those objects.
 */
module LegacyGraph {
  import opened Wrappers
  import ChangeTypes
  import opened GraphModel

  /** One element of the sample array, an object the build writes into. */
  class RecordObject {
    const changeType: string
    const descriptionText: string
    const querySelector: string
    const connections: seq<nat>
    var id: Option<nat>
    var size: Option<nat>
    var color: Option<string>
    var group: Option<int>

    /** An element as the sample array holds it: no `id`, `size`, `color` or `group` yet. */
    constructor (r: Record)
      ensures changeType == r.changeType && descriptionText == r.descriptionText
      ensures querySelector == r.querySelector && connections == r.connections
      ensures id == None && size == None && color == None && group == None
    {
      changeType, descriptionText, querySelector, connections := r.changeType, r.descriptionText, r.querySelector, r.connections;
      id, size, color, group := None, None, None, None;
    }
  }

  /** The record values the objects carry (the fields the build never writes). */
  function Snapshot(objs: seq<RecordObject>): (rs: seq<Record>)
    ensures |rs| == |objs|
    ensures forall i :: 0 <= i < |objs| ==>
      rs[i] == Record(objs[i].changeType, objs[i].descriptionText, objs[i].querySelector, objs[i].connections)
  {
    seq(|objs|, i requires 0 <= i < |objs| =>
      Record(objs[i].changeType, objs[i].descriptionText, objs[i].querySelector, objs[i].connections))
  }

  /** The ids carried by the objects that have one, in order: what `filteredNodes.some(...)` can match. */
  function ObjectIds(objs: seq<RecordObject>): (ids: seq<nat>)
    reads set o | o in objs
    ensures |ids| <= |objs|
    ensures forall x :: x in ids <==> exists k :: 0 <= k < |objs| && objs[k].id == Some(x)
  {
    if objs == [] then []
    else
      var rest := ObjectIds(objs[1..]);
      assert forall k :: 1 <= k < |objs| ==> objs[1..][k - 1] == objs[k];
      (if objs[0].id.Some? then [objs[0].id.value] else []) + rest
  }

  /**
   * The node build: walks the array in key order and writes into element `i`
   * the id `i` (the array key), size 12, the `% 6` colour and the group, then
   * returns the very same objects.
   */
  method BuildNodesInPlace(records: seq<RecordObject>) returns (nodes: seq<RecordObject>)
    requires forall i, j :: 0 <= i < j < |records| ==> records[i] != records[j]
    modifies set o | o in records
    ensures nodes == records
    ensures forall i :: 0 <= i < |records| ==> Numbered(records[i], i)
  {
    nodes := [];
    for i := 0 to |records|
      invariant nodes == records[..i]
      invariant forall j :: 0 <= j < i ==> Numbered(records[j], j)
    {
      Number(records[i], i);
      nodes := nodes + [records[i]];
    }
  }

  /** The loop body: write the id, size, colour and group into one element. */
  method Number(n: RecordObject, i: nat)
    modifies n
    ensures Numbered(n, i)
  {
    n.id, n.size := Some(i), Some(NodeSize);
    n.color, n.group := ChangeTypes.LegacyColor(n.changeType), Some(ChangeTypes.Group(n.changeType));
  }

  /** Element `j` carries what the build writes into it. */
  predicate Numbered(o: RecordObject, j: nat)
    reads o
  {
    && o.id == Some(j)
    && o.size == Some(NodeSize)
    && o.color == ChangeTypes.LegacyColor(o.changeType)
    && o.group == Some(ChangeTypes.Group(o.changeType))
  }

  /**
   * Once built, the draft's objects carry the ids graph.tsx assigns to the same
   * records, so it draws exactly the links graph.tsx draws: those whose two
   * endpoints are positions of the array, in record order.
   */
  lemma LegacyDrawsSameLinks(objs: seq<RecordObject>)
    requires forall i :: 0 <= i < |objs| ==> objs[i].id == Some(i)
    ensures KeepResolvable(RawLinks(Snapshot(objs)), ObjectIds(objs)) == FilteredLinks(InitialGraph(Snapshot(objs)))
  {
    ObjectIdsArePositions(objs);
    PositionIdsSameLinks(Snapshot(objs), ObjectIds(objs));
  }

  /** Any id list holding exactly the positions of `rs` keeps the links graph.tsx keeps. */
  lemma PositionIdsSameLinks(rs: seq<Record>, ids: seq<nat>)
    requires forall x: nat :: x in ids <==> x < |rs|
    ensures KeepResolvable(RawLinks(rs), ids) == FilteredLinks(InitialGraph(rs))
  {
    forall x: nat ensures x in Ids(BuildNodes(rs)) <==> x < |rs| { BuiltIds(rs, x); }
    SameMembersSameFilter(RawLinks(rs), ids, Ids(BuildNodes(rs)));
  }

  /** Objects numbered by position carry exactly the ids `0 .. |objs| - 1`. */
  lemma ObjectIdsArePositions(objs: seq<RecordObject>)
    requires forall i :: 0 <= i < |objs| ==> objs[i].id == Some(i)
    ensures forall x: nat :: x in ObjectIds(objs) <==> x < |objs|
  {
    var ids := ObjectIds(objs);
    forall x: nat ensures x in ids <==> x < |objs| {
      if x < |objs| {
        assert objs[x].id == Some(x);
      }
      if x in ids {
        var k :| 0 <= k < |objs| && objs[k].id == Some(x);
        assert objs[k].id == Some(k);
      }
    }
  }

  /** The filter depends only on which ids are present. */
  lemma {:induction false} SameMembersSameFilter(links: seq<Link>, a: seq<nat>, b: seq<nat>)
    requires forall x :: x in a <==> x in b
    ensures KeepResolvable(links, a) == KeepResolvable(links, b)
  {
    if links != [] { SameMembersSameFilter(links[1..], a, b); }
  }

  /**
   * The draft agrees with graph.tsx on every field of every node except the
   * colour of the sixth kind, which the draft leaves undefined.
   */
  lemma LegacyNodeMatchesTyped(objs: seq<RecordObject>, i: nat)
    requires i < |objs|
    requires objs[i].id == Some(i) && objs[i].size == Some(NodeSize)
    requires objs[i].color == ChangeTypes.LegacyColor(objs[i].changeType)
    requires objs[i].group == Some(ChangeTypes.Group(objs[i].changeType))
    ensures var n := BuildNodes(Snapshot(objs))[i];
      && objs[i].id == Some(n.id) && objs[i].size == Some(n.size) && objs[i].group == Some(n.group)
      && (objs[i].changeType != ChangeTypes.Kinds[5] ==> objs[i].color == n.color)
      && (objs[i].changeType == ChangeTypes.Kinds[5] ==> objs[i].color == None && n.color.Some?)
  {
    var ct := objs[i].changeType;
    if ct in ChangeTypes.Kinds {
      var g := ChangeTypes.Group(ct);
      ChangeTypes.GroupSpec(ct);
      ChangeTypes.LegacyColorOfKind(g);
      ChangeTypes.ColorOfKind(g);
      ChangeTypes.GroupOfKind(5);
    } else {
      ChangeTypes.UnknownKindHasNoColor(ct);
    }
  }
}
