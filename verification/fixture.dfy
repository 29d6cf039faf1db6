/**
 * The bundled sample input (frontend/react/src/tempJson.ts): twenty records
 * whose connections form a chain, with one entry naming a record that does
 * not exist.
 */
module Fixture {
  import opened GraphModel

  /** The twenty sample records, in array order (their `replacementHTML` is not read by the graph). */
  const Sample: seq<Record> := [
    Record("img_alt_added", "Added descriptive alt text to hero image for accessibility.", "img.hero-image", [2, 5]),
    Record("img_alt_altered", "Improved alt text on product image for better screen reader experience.", "img.product-thumbnail", [1, 3]),
    Record("img_contrast_altered", "Replaced logo with higher-contrast version for better visibility.", "img.logo", [2, 4]),
    Record("page_contrast_altered", "Applied high-contrast theme to entire page for improved readability.", "body", [3, 6]),
    Record("page_navigation_altered", "Restructured main navigation with proper ARIA labels and semantic markup.", "nav.main-nav", [1, 7]),
    Record("page_skip_to_main_added", "Added skip-to-main-content link at top of page for keyboard users.", "body", [4, 8]),
    Record("img_alt_added", "Added meaningful alt text to team photo.", "img.team-photo", [5, 9]),
    Record("img_alt_altered", "Updated alt text on search icon from 'icon' to 'Search'.", "img.icon-search", [6, 10]),
    Record("img_contrast_altered", "Enhanced contrast of data visualization image for accessibility compliance.", "img.chart-data", [7, 11]),
    Record("page_contrast_altered", "Increased text-background contrast in main content area.", ".content-area", [8, 12]),
    Record("page_navigation_altered", "Improved footer navigation semantics and labeling.", "footer nav", [9, 13]),
    Record("page_skip_to_main_added", "Inserted skip link just after top utility bar.", "#top-bar", [10, 14]),
    Record("img_alt_added", "Added detailed alt text to accessibility diagram.", "img.diagram-accessibility", [11, 15]),
    Record("img_alt_altered", "Replaced generic 'user image' alt text with user's actual name.", "img.user-avatar", [12, 16]),
    Record("img_contrast_altered", "Updated icon image to meet minimum contrast ratio requirements.", "img.button-icon", [13, 17]),
    Record("page_contrast_altered", "Adjusted label text color to improve contrast against background.", ".form-group label", [14, 18]),
    Record("page_navigation_altered", "Converted breadcrumb into proper navigation landmark with ARIA label.", ".breadcrumb", [15, 19]),
    Record("page_skip_to_main_added", "Added visually hidden skip link at start of header.", "header", [16, 20]),
    Record("img_alt_added", "Provided comprehensive alt text for complex infographic.", "img.infographic", [17, 1]),
    Record("img_alt_altered", "Enhanced logo alt text to include company tagline for context.", "img.logo-footer", [18, 2])
  ]

  /** Every sample record has exactly two connection entries. */
  lemma {:induction false} TwoEach(rs: seq<Record>)
    requires forall i :: 0 <= i < |rs| ==> |rs[i].connections| == 2
    ensures TotalConnections(rs) == 2 * |rs|
  {
    if rs != [] { TwoEach(rs[1..]); }
  }

  /** Links of records placed at `base ..` whose entries all name a position of `all` are all drawn. */
  lemma AllResolve(rs: seq<Record>, base: nat, all: seq<Record>)
    requires base + |rs| <= |all|
    requires forall i, j :: 0 <= i < |rs| && 0 <= j < |rs[i].connections| ==> rs[i].connections[j] < |all|
    ensures KeepResolvable(LinksFrom(rs, base), Ids(BuildNodes(all))) == LinksFrom(rs, base)
  {
    var links, ids := LinksFrom(rs, base), Ids(BuildNodes(all));
    forall k | 0 <= k < |links| ensures Resolves(ids, links[k]) {
      LinksFromMembership(rs, base, links[k]);
      BuiltIds(all, links[k].source);
      BuiltIds(all, links[k].target);
    }
    KeepResolvableIdentity(links, ids);
  }

  /** The shape of the sample's connection lists. */
  lemma SampleShape()
    ensures |Sample| == 20
    ensures forall i :: 0 <= i < |Sample| ==> |Sample[i].connections| == 2
    ensures forall i, j :: 0 <= i < |Sample| && 0 <= j < 2 && !(i == 17 && j == 1) ==> Sample[i].connections[j] < 20
    ensures Sample[17].connections == [16, 20]
  {
  }

  lemma SingleRecordLinks(r: Record, base: nat)
    ensures LinksFrom([r], base) == RecordLinks(base, r.connections)
  {
    assert LinksFrom([r], base) == RecordLinks(base, r.connections) + LinksFrom([], base + 1);
  }

  /** The raw links of a list, cut around the record at position `k`. */
  lemma {:induction false} SplitAround(rs: seq<Record>, k: nat)
    requires k < |rs|
    ensures RawLinks(rs) == LinksFrom(rs[..k], 0) + RecordLinks(k, rs[k].connections) + LinksFrom(rs[k + 1..], k + 1)
  {
    var front, mid, back := rs[..k], rs[k], rs[k + 1..];
    var fm := front + [mid];
    assert fm + back == rs;
    LinksFromConcat(fm, back, 0);
    LinksFromConcat(front, [mid], 0);
    SingleRecordLinks(mid, k);
  }

  /** Shape of the sample's connection lists, stated for any list of records. */
  ghost predicate ChainShape(rs: seq<Record>)
  {
    && |rs| == 20
    && (forall i :: 0 <= i < |rs| ==> |rs[i].connections| == 2)
    && (forall i, j :: 0 <= i < |rs| && 0 <= j < 2 && !(i == 17 && j == 1) ==> rs[i].connections[j] < 20)
    && rs[17].connections[1] == 20
  }

  /** Under that shape every link of records 0..16 and 18..19 is drawn. */
  lemma OuterLinksDrawn(rs: seq<Record>)
    requires ChainShape(rs)
    ensures KeepResolvable(LinksFrom(rs[..17], 0), Ids(BuildNodes(rs))) == LinksFrom(rs[..17], 0)
    ensures KeepResolvable(LinksFrom(rs[18..], 18), Ids(BuildNodes(rs))) == LinksFrom(rs[18..], 18)
  {
    var front, back := rs[..17], rs[18..];
    forall i, j | 0 <= i < |front| && 0 <= j < |front[i].connections| ensures front[i].connections[j] < 20 {
      assert front[i] == rs[i];
    }
    AllResolve(front, 0, rs);
    forall i, j | 0 <= i < |back| && 0 <= j < |back[i].connections| ensures back[i].connections[j] < 20 {
      assert back[i] == rs[18 + i];
    }
    AllResolve(back, 18, rs);
  }

  /** Under that shape only the first link of record 17 is drawn. */
  lemma MiddleLinkDropped(rs: seq<Record>)
    requires ChainShape(rs)
    ensures KeepResolvable(RecordLinks(17, rs[17].connections), Ids(BuildNodes(rs))) == [Link(17, rs[17].connections[0])]
  {
    var ids, midLinks := Ids(BuildNodes(rs)), RecordLinks(17, rs[17].connections);
    BuiltIds(rs, 17);
    BuiltIds(rs, 20);
    BuiltIds(rs, midLinks[0].target);
    assert Resolves(ids, midLinks[0]) && !Resolves(ids, midLinks[1]);
    assert midLinks[1..][1..] == [];
  }

  /** Under that shape the filter drops exactly the second link of record 17. */
  lemma ChainKept(rs: seq<Record>)
    requires ChainShape(rs)
    ensures RawLinks(rs) == LinksFrom(rs[..17], 0) + [Link(17, rs[17].connections[0]), Link(17, 20)] + LinksFrom(rs[18..], 18)
    ensures FilteredLinks(InitialGraph(rs)) == LinksFrom(rs[..17], 0) + [Link(17, rs[17].connections[0])] + LinksFrom(rs[18..], 18)
  {
    var ids := Ids(BuildNodes(rs));
    var frontLinks, midLinks, backLinks := LinksFrom(rs[..17], 0), RecordLinks(17, rs[17].connections), LinksFrom(rs[18..], 18);
    SplitAround(rs, 17);
    assert midLinks == [Link(17, rs[17].connections[0]), Link(17, 20)];
    OuterLinksDrawn(rs);
    MiddleLinkDropped(rs);
    KeepResolvableAppend(frontLinks + midLinks, backLinks, ids);
    KeepResolvableAppend(frontLinks, midLinks, ids);
  }

  /** Under that shape: 40 raw links, 39 drawn, and the one dropped is `17 -> 20`. */
  lemma ChainCounts(rs: seq<Record>)
    requires ChainShape(rs)
    ensures |RawLinks(rs)| == 40
    ensures |FilteredLinks(InitialGraph(rs))| == 39
    ensures Link(17, 20) in RawLinks(rs) && Link(17, 20) !in FilteredLinks(InitialGraph(rs))
  {
    TwoEach(rs);
    RawLinkCount(rs);
    ChainKept(rs);
    BuiltIds(rs, 20);
  }

  /** The sample yields 20 nodes and 40 raw links, of which the graph draws 39. */
  lemma SampleCounts()
    ensures |BuildNodes(Sample)| == 20
    ensures |RawLinks(Sample)| == 40
    ensures |FilteredLinks(InitialGraph(Sample))| == 39
  {
    SampleShape();
    assert ChainShape(Sample);
    ChainCounts(Sample);
  }

  /** The one link the sample's graph does not draw is `17 -> 20`. */
  lemma SampleDanglingLink()
    ensures Link(17, 20) in RawLinks(Sample) && Link(17, 20) !in FilteredLinks(InitialGraph(Sample))
  {
    SampleShape();
    assert ChainShape(Sample);
    ChainCounts(Sample);
  }
}
