/**
 * The interaction state graph.tsx layers over its drawing: which nodes,
 * labels and links are dimmed while a node is hovered, the hovered circle's
 * radius and stroke, the selected node, and the pinning of a dragged node.
 * graph.jsx's handlers (its lines 118-170) do the same and are modelled by
 * the same members.
 */
module GraphView {
  import opened Wrappers
  import opened GraphModel

  /** Opacity of a node, label or link that is not dimmed. */
  const Opaque: real := 1.0
  /** Opacity of a node or label dimmed while another node is hovered. */
  const DimNode: real := 0.3
  /** Opacity of a link dimmed while a node is hovered. */
  const DimLink: real := 0.1
  /** Opacity every link gets when the pointer leaves a node. */
  const RestingLink: real := 0.6
  /** Circle stroke width at rest and while hovered. */
  const RestingStroke: nat := 2
  const HoverStroke: nat := 3
  /** Zoom bounds configured with `scaleExtent([0.1, 4])`; the clamping itself happens inside d3. */
  const MinZoom: real := 0.1
  const MaxZoom: real := 4.0

  /** Some link joins `d` and `x`, in either direction. */
  ghost predicate Adjacent(links: seq<Link>, d: nat, x: nat)
  {
    exists i :: 0 <= i < |links| &&
      ((links[i].source == d && links[i].target == x) || (links[i].target == d && links[i].source == x))
  }

  /** A link one of whose endpoints is `d`. */
  predicate Incident(l: Link, d: nat)
  {
    l.source == d || l.target == d
  }

  /** What the hover keeps fully opaque: the hovered node and its neighbours. */
  ghost predicate Highlighted(links: seq<Link>, d: nat, x: nat)
  {
    x == d || Adjacent(links, d, x)
  }

  /** The set `connectedNodes` the hover handler collects, link by link. */
  function Neighbours(links: seq<Link>, d: nat): (s: set<nat>)
    ensures forall x :: x in s <==> Adjacent(links, d, x)
    decreases |links|
  {
    if links == [] then {}
    else
      var init, l := links[..|links| - 1], links[|links| - 1];
      var s := Neighbours(init, d)
        + (if l.source == d then {l.target} else {})
        + (if l.target == d then {l.source} else {});
      assert forall x :: Adjacent(links, d, x) ==> x in s by {
        forall x | Adjacent(links, d, x) ensures x in s {
          var i :| 0 <= i < |links| &&
            ((links[i].source == d && links[i].target == x) || (links[i].target == d && links[i].source == x));
          if i < |init| { assert init[i] == links[i]; }
        }
      }
      assert forall x :: x in Neighbours(init, d) ==> Adjacent(links, d, x) by {
        forall x | x in Neighbours(init, d) ensures Adjacent(links, d, x) {
          var i :| 0 <= i < |init| &&
            ((init[i].source == d && init[i].target == x) || (init[i].target == d && init[i].source == x));
          assert links[i] == init[i];
        }
      }
      s
  }

  /** The `forEach` of the hover handler, filling a set from the drawn links. */
  method CollectNeighbours(links: seq<Link>, d: nat) returns (connected: set<nat>)
    ensures connected == Neighbours(links, d)
    ensures forall x :: x in connected <==> Adjacent(links, d, x)
  {
    connected := {};
    for i := 0 to |links|
      invariant connected == Neighbours(links[..i], d)
    {
      var l := links[i];
      assert links[..i + 1][..i] == links[..i];
      if l.source == d { connected := connected + {l.target}; }
      if l.target == d { connected := connected + {l.source}; }
    }
    assert links[..|links|] == links;
  }

  /** Hover highlights are symmetric: `x` lights up under `d` exactly when `d` lights up under `x`. */
  lemma HighlightSymmetric(links: seq<Link>, d: nat, x: nat)
    ensures Highlighted(links, d, x) <==> Highlighted(links, x, d)
  {
    if Adjacent(links, d, x) {
      var i :| 0 <= i < |links| &&
        ((links[i].source == d && links[i].target == x) || (links[i].target == d && links[i].source == x));
      assert (links[i].source == x && links[i].target == d) || (links[i].target == x && links[i].source == d);
    }
  }

  /**
   * The hover is consistent: both ends of every fully opaque link are fully
   * opaque, and every fully opaque node other than the hovered one is the far
   * end of a fully opaque link.
   */
  lemma HighlightFollowsLinks(links: seq<Link>, d: nat, x: nat)
    ensures forall i :: 0 <= i < |links| && Incident(links[i], d) ==>
      Highlighted(links, d, links[i].source) && Highlighted(links, d, links[i].target)
    ensures Highlighted(links, d, x) && x != d ==>
      exists i :: 0 <= i < |links| && Incident(links[i], d) && (links[i].source == x || links[i].target == x)
  {
  }

  /**
   * The mounted graph component: the drawn nodes and links with the style
   * attributes its handlers change, and the `selectedNode` state.
   */
  class GraphView {
    const nodes: seq<Node>
    const links: seq<Link>
    var nodeOpacity: seq<real>
    var labelOpacity: seq<real>
    var linkOpacity: seq<real>
    var radius: seq<real>
    var strokeWidth: seq<nat>
    var selected: Option<Node>

    ghost predicate Valid()
      reads this
    {
      && |nodeOpacity| == |nodes|
      && |labelOpacity| == |nodes|
      && |radius| == |nodes|
      && |strokeWidth| == |nodes|
      && |linkOpacity| == |links|
    }

    /**
     * Mounting: every node is drawn, only links whose endpoints both exist are
     * drawn, circles get their size as radius and stroke 2, no opacity style is
     * set yet (so everything is opaque), and nothing is selected.
     */
    constructor (g: GraphData)
      ensures Valid()
      ensures nodes == g.nodes && links == FilteredLinks(g)
      ensures forall i :: 0 <= i < |nodes| ==>
        nodeOpacity[i] == Opaque && labelOpacity[i] == Opaque &&
        radius[i] == nodes[i].size as real && strokeWidth[i] == RestingStroke
      ensures forall i :: 0 <= i < |links| ==> linkOpacity[i] == Opaque
      ensures selected == None
    {
      nodes := g.nodes;
      links := FilteredLinks(g);
      nodeOpacity := seq(|g.nodes|, _ => Opaque);
      labelOpacity := seq(|g.nodes|, _ => Opaque);
      linkOpacity := seq(|FilteredLinks(g)|, _ => Opaque);
      radius := seq(|g.nodes|, i requires 0 <= i < |g.nodes| => g.nodes[i].size as real);
      strokeWidth := seq(|g.nodes|, _ => RestingStroke);
      selected := None;
    }

    /**
     * `mouseover` on node `k`: its circle grows to 1.2 times its size with
     * stroke 3; a node or label stays opaque iff it is the hovered node or a
     * neighbour of it over a drawn link, else 0.3; a link stays opaque iff the
     * hovered node is one of its endpoints, else 0.1.
     */
    method MouseOver(k: nat)
      requires Valid() && k < |nodes|
      modifies this
      ensures Valid()
      ensures radius == old(radius)[k := nodes[k].size as real * 1.2]
      ensures strokeWidth == old(strokeWidth)[k := HoverStroke]
      ensures forall i :: 0 <= i < |nodes| ==>
        nodeOpacity[i] == labelOpacity[i] == (if Highlighted(links, nodes[k].id, nodes[i].id) then Opaque else DimNode)
      ensures forall i :: 0 <= i < |links| ==>
        linkOpacity[i] == (if Incident(links[i], nodes[k].id) then Opaque else DimLink)
      ensures selected == old(selected)
    {
      var d := nodes[k];
      radius := radius[k := d.size as real * 1.2];
      strokeWidth := strokeWidth[k := HoverStroke];
      var connected := CollectNeighbours(links, d.id);
      nodeOpacity := seq(|nodes|, i requires 0 <= i < |nodes| =>
        if nodes[i].id in connected || nodes[i].id == d.id then Opaque else DimNode);
      linkOpacity := seq(|links|, i requires 0 <= i < |links| =>
        if links[i].source == d.id || links[i].target == d.id then Opaque else DimLink);
      labelOpacity := seq(|nodes|, i requires 0 <= i < |nodes| =>
        if nodes[i].id in connected || nodes[i].id == d.id then Opaque else DimNode);
    }

    /**
     * `mouseout` from node `k`: its circle returns to its size and stroke 2;
     * every node and label becomes opaque and every link gets opacity 0.6,
     * whatever was hovered before.
     */
    method MouseOut(k: nat)
      requires Valid() && k < |nodes|
      modifies this
      ensures Valid()
      ensures radius == old(radius)[k := nodes[k].size as real]
      ensures strokeWidth == old(strokeWidth)[k := RestingStroke]
      ensures forall i :: 0 <= i < |nodes| ==> nodeOpacity[i] == Opaque && labelOpacity[i] == Opaque
      ensures forall i :: 0 <= i < |links| ==> linkOpacity[i] == RestingLink
      ensures selected == old(selected)
    {
      radius := radius[k := nodes[k].size as real];
      strokeWidth := strokeWidth[k := RestingStroke];
      nodeOpacity := seq(|nodes|, _ => Opaque);
      linkOpacity := seq(|links|, _ => RestingLink);
      labelOpacity := seq(|nodes|, _ => Opaque);
    }

    /** `click` on node `k` selects it; the event does not reach the background, and there is no toggle. */
    method ClickNode(k: nat)
      requires Valid() && k < |nodes|
      modifies this`selected
      ensures Valid()
      ensures selected == Some(nodes[k])
    {
      selected := Some(nodes[k]);
    }

    /** `click` on the drawing's background clears the selection. */
    method ClickBackground()
      requires Valid()
      modifies this`selected
      ensures Valid()
      ensures selected == None
    {
      selected := None;
    }

    /** The details panel's Close button clears the selection. */
    method Close()
      requires Valid()
      modifies this`selected
      ensures Valid()
      ensures selected == None
    {
      selected := None;
    }
  }

  /** Clicking a node twice leaves it selected; a background click then clears it. */
  method RepeatedClick(g: GraphData, k: nat) returns (first: Option<Node>, second: Option<Node>, cleared: Option<Node>)
    requires k < |g.nodes|
    ensures first == second == Some(g.nodes[k])
    ensures cleared == None
  {
    var view := new GraphView(g);
    view.ClickNode(k);
    first := view.selected;
    view.ClickNode(k);
    second := view.selected;
    view.ClickBackground();
    cleared := view.selected;
  }

  /**
   * Hovering node `h` and then leaving node `k`: the circles' radii and strokes
   * are back to their mounted values when `h == k`, nodes and labels are
   * opaque, but links carry opacity 0.6 where they had no opacity style at
   * mount.
   */
  method HoverThenLeave(g: GraphData, h: nat, k: nat)
    returns (radius: seq<real>, stroke: seq<nat>, nodeOpacity: seq<real>, linkOpacity: seq<real>)
    requires h < |g.nodes| && k < |g.nodes|
    ensures |radius| == |stroke| == |nodeOpacity| == |g.nodes|
    ensures h == k ==> forall i :: 0 <= i < |g.nodes| ==>
      radius[i] == g.nodes[i].size as real && stroke[i] == RestingStroke
    ensures forall i :: 0 <= i < |g.nodes| ==> nodeOpacity[i] == Opaque
    ensures |linkOpacity| == |FilteredLinks(g)|
    ensures forall i :: 0 <= i < |linkOpacity| ==> linkOpacity[i] == RestingLink
  {
    var view := new GraphView(g);
    view.MouseOver(h);
    view.MouseOut(k);
    radius, stroke, nodeOpacity, linkOpacity := view.radius, view.strokeWidth, view.nodeOpacity, view.linkOpacity;
  }

  /**
   * A node object as the force simulation sees it: its position, written by the
   * simulation, and its optional pinned position `fx`/`fy`.
   */
  class SimNode {
    const id: nat
    var x: real
    var y: real
    var fx: Option<real>
    var fy: Option<real>

    constructor (id: nat, x: real, y: real)
      ensures this.id == id && this.x == x && this.y == y
      ensures fx == None && fy == None
    {
      this.id, this.x, this.y := id, x, y;
      fx, fy := None, None;
    }

    /** Drag start pins the node where it currently is. */
    method DragStarted()
      modifies this
      ensures fx == Some(x) && fy == Some(y)
      ensures x == old(x) && y == old(y)
    {
      fx := Some(x);
      fy := Some(y);
    }

    /** Each drag move pins the node at the pointer. */
    method Dragged(px: real, py: real)
      modifies this
      ensures fx == Some(px) && fy == Some(py)
      ensures x == old(x) && y == old(y)
    {
      fx := Some(px);
      fy := Some(py);
    }

    /** Drag end releases the pin. */
    method DragEnded()
      modifies this
      ensures fx == None && fy == None
      ensures x == old(x) && y == old(y)
    {
      fx := None;
      fy := None;
    }
  }

  /**
   * Dragging one node from `(x, y)` through the pointer position `(px, py)`:
   * pinned where it was, then at the pointer, then released; a second node is
   * never pinned.
   */
  method DragOneOfTwo(x: real, y: real, px: real, py: real)
    returns (atStart: (Option<real>, Option<real>), atMove: (Option<real>, Option<real>),
             atEnd: (Option<real>, Option<real>), other: (Option<real>, Option<real>))
    ensures atStart == (Some(x), Some(y))
    ensures atMove == (Some(px), Some(py))
    ensures atEnd == (None, None)
    ensures other == (None, None)
  {
    var a := new SimNode(0, x, y);
    var b := new SimNode(1, x, y);
    a.DragStarted();
    atStart := (a.fx, a.fy);
    a.Dragged(px, py);
    atMove := (a.fx, a.fy);
    a.DragEnded();
    atEnd := (a.fx, a.fy);
    other := (b.fx, b.fy);
  }
}
