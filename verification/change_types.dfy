/**
 * The six kinds of accessibility change and the group number and colour
 * the graph derives from them (frontend/react/src/components/graph.tsx and
 * its older draft graph.jsx).
 */
module ChangeTypes {
  import opened Wrappers

  /** The fixed list of change types, in the order that defines their group number. */
  const Kinds: seq<string> := [
    "img_alt_added",
    "img_alt_altered",
    "img_contrast_altered",
    "page_contrast_altered",
    "page_navigation_altered",
    "page_skip_to_main_added"
  ]

  /** The colour list: five entries for six kinds. */
  const Palette: seq<string> := ["#64748b", "#dc2626", "#2563eb", "#059669", "#7c3aed"]

  /** JavaScript's `Array.prototype.indexOf`: the first index holding `x`, or -1. */
  function IndexOf(xs: seq<string>, x: string): (r: int)
    ensures -1 <= r < |xs|
  {
    if xs == [] then -1
    else if xs[0] == x then 0
    else
      var k := IndexOf(xs[1..], x);
      if k == -1 then -1 else k + 1
  }

  /** `indexOf` finds the first occurrence, and -1 exactly when there is none. */
  lemma {:induction false} IndexOfSpec(xs: seq<string>, x: string)
    ensures IndexOf(xs, x) == -1 <==> x !in xs
    ensures IndexOf(xs, x) >= 0 ==> xs[IndexOf(xs, x)] == x && x !in xs[..IndexOf(xs, x)]
  {
    if xs != [] && xs[0] != x {
      IndexOfSpec(xs[1..], x);
      var k := IndexOf(xs[1..], x);
      if k >= 0 {
        assert xs[..k + 1] == [xs[0]] + xs[1..][..k];
      } else {
        assert xs == [xs[0]] + xs[1..];
      }
    }
  }

  /** JavaScript's `%`: the remainder of a division truncated toward zero, so it has the sign of `a`
      and its magnitude is that of `a` modulo `b`. */
  function TruncRem(a: int, b: int): (r: int)
    requires b > 0
    ensures -b < r < b
    ensures (a >= 0 ==> r >= 0) && (a <= 0 ==> r <= 0)
  {
    if a >= 0 then a % b else -((-a) % b)
  }

  /** JavaScript's `%` is odd in the dividend and agrees with the Euclidean remainder on a
      non-negative dividend. */
  lemma TruncRemSpec(a: int, b: int)
    requires b > 0
    ensures TruncRem(-a, b) == -TruncRem(a, b)
    ensures a >= 0 ==> TruncRem(a, b) == a % b
  {
  }

  /** JavaScript's `xs[i]`: `undefined` for an index outside the array, negative ones included. */
  function Lookup(xs: seq<string>, i: int): (r: Option<string>)
    ensures r.Some? <==> 0 <= i < |xs|
    ensures r.Some? ==> r.value in xs
  {
    if 0 <= i < |xs| then Some(xs[i]) else None
  }

  /** `getChangeTypeGroup`: the position of the change type in `Kinds`, -1 for an unknown one. */
  function Group(changeType: string): (g: int)
    ensures -1 <= g < |Kinds|
  {
    IndexOf(Kinds, changeType)
  }

  /** The group is -1 exactly for a change type outside the list, and otherwise a position holding it. */
  lemma GroupSpec(changeType: string)
    ensures Group(changeType) == -1 <==> changeType !in Kinds
    ensures Group(changeType) >= 0 ==> Kinds[Group(changeType)] == changeType
  {
    IndexOfSpec(Kinds, changeType);
  }

  /** `getChangeTypeColor` of graph.tsx: the palette entry at the group modulo the palette's length. */
  function Color(changeType: string): (c: Option<string>)
    ensures c.Some? ==> c.value in Palette
  {
    Lookup(Palette, TruncRem(Group(changeType), |Palette|))
  }

  /** `getChangeTypeColor` of graph.jsx: the same lookup, but modulo 6 on a five-entry palette. */
  function LegacyColor(changeType: string): (c: Option<string>)
    ensures c.Some? ==> c.value in Palette
  {
    Lookup(Palette, TruncRem(Group(changeType), 6))
  }

  /** The six kinds are pairwise distinct, so each one's group is its own position. */
  lemma GroupOfKind(i: nat)
    requires i < |Kinds|
    ensures Group(Kinds[i]) == i
  {
    IndexOfSpec(Kinds, Kinds[i]);
    assert Kinds[i] !in Kinds[..i];
  }

  /** graph.tsx's lookup for a group `g`: groups 0..4 pick their own entry, group 5 wraps round to entry 0. */
  lemma PaletteAt(g: int)
    requires -1 <= g < |Kinds|
    ensures 0 <= g < |Palette| ==> Lookup(Palette, TruncRem(g, |Palette|)) == Some(Palette[g])
    ensures g == |Palette| ==> Lookup(Palette, TruncRem(g, |Palette|)) == Some(Palette[0])
    ensures g < 0 ==> Lookup(Palette, TruncRem(g, |Palette|)) == None
  {
  }

  /** graph.jsx's lookup for a group `g`: groups 0..4 pick their own entry, others none. */
  lemma LegacyPaletteAt(g: int)
    requires -1 <= g < |Kinds|
    ensures 0 <= g < |Palette| ==> Lookup(Palette, TruncRem(g, 6)) == Some(Palette[g])
    ensures !(0 <= g < |Palette|) ==> Lookup(Palette, TruncRem(g, 6)) == None
  {
  }

  /** graph.tsx's colour in terms of the group. */
  lemma ColorByGroup(changeType: string)
    ensures 0 <= Group(changeType) < |Palette| ==> Color(changeType) == Some(Palette[Group(changeType)])
    ensures Group(changeType) == |Palette| ==> Color(changeType) == Some(Palette[0])
    ensures Group(changeType) < 0 ==> Color(changeType) == None
  {
    PaletteAt(Group(changeType));
  }

  /** graph.jsx's colour in terms of the group. */
  lemma LegacyColorByGroup(changeType: string)
    ensures 0 <= Group(changeType) < |Palette| ==> LegacyColor(changeType) == Some(Palette[Group(changeType)])
    ensures !(0 <= Group(changeType) < |Palette|) ==> LegacyColor(changeType) == None
  {
    LegacyPaletteAt(Group(changeType));
  }

  /** graph.tsx: kinds 0..4 get their own palette entry; kind 5 wraps round to kind 0's colour. */
  lemma ColorOfKind(i: nat)
    requires i < |Kinds|
    ensures i < |Palette| ==> Color(Kinds[i]) == Some(Palette[i])
    ensures i == |Palette| ==> Color(Kinds[i]) == Some(Palette[0]) == Color(Kinds[0])
  {
    GroupOfKind(i);
    ColorByGroup(Kinds[i]);
    if i == 5 {
      GroupOfKind(0);
      ColorByGroup(Kinds[0]);
    }
  }

  /** Different kinds among the first five get different colours in graph.tsx. */
  lemma ColorsDistinguishFirstFive(i: nat, j: nat)
    requires i < j < |Palette|
    ensures Color(Kinds[i]) != Color(Kinds[j])
  {
    ColorOfKind(i);
    ColorOfKind(j);
    PaletteEntriesDiffer(i, j);
  }

  /** The five palette entries are pairwise different colours. */
  lemma PaletteEntriesDiffer(i: nat, j: nat)
    requires i < |Palette| && j < |Palette| && i != j
    ensures Palette[i] != Palette[j]
  {
    // the five entries already differ in their second character
    assert Palette[0][1] == '6' && Palette[1][1] == 'd' && Palette[2][1] == '2';
    assert Palette[3][1] == '0' && Palette[4][1] == '7';
    assert Palette[i][1] != Palette[j][1];
  }

  /** graph.jsx: kinds 0..4 get the same colour as in graph.tsx, and kind 5 gets none (`undefined`). */
  lemma LegacyColorOfKind(i: nat)
    requires i < |Kinds|
    ensures i < 5 ==> LegacyColor(Kinds[i]) == Color(Kinds[i]) == Some(Palette[i])
    ensures i == 5 ==> LegacyColor(Kinds[i]) == None
  {
    GroupOfKind(i);
    LegacyColorByGroup(Kinds[i]);
    if i < 5 { ColorByGroup(Kinds[i]); }
  }

  /** A change type outside the list has group -1 and, in both drafts, no colour. */
  lemma UnknownKindHasNoColor(changeType: string)
    requires changeType !in Kinds
    ensures Group(changeType) == -1
    ensures Color(changeType) == None && LegacyColor(changeType) == None
  {
    GroupSpec(changeType);
  }
}
