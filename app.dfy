/**
 * The application layer (both the combined app and the comparison app): turning citation
 * markers in the generated comparison into links, the same-platform guard, merging the two
 * platform lists, and the platform id the QA tab derives from a display name.
 */
module App {
  import opened Wrappers
  import opened Text
  import opened Ranking
  import opened Chunking
  import opened TextProcessor
  import opened PolicyComparator

  /* ---------- citation links ---------- */

  /** What a marker becomes: `f"[{id}](#{id.lower()})"`. */
  function LinkFor(id: string): string {
    "[" + id + "](#" + Lower(id) + ")"
  }

  /** The line emitted for a citation in its platform's list: `f"<a id='{id.lower()}'></a>**[{id}]**: {text}"`. */
  function Anchor(id: string, text: string): string {
    "<a id='" + Lower(id) + "'></a>**[" + id + "]**: " + text
  }

  function IdsOf(cs: seq<Citation>): (ids: seq<string>)
    ensures |ids| == |cs| && forall k :: 0 <= k < |cs| ==> ids[k] == cs[k].id
  {
    seq(|cs|, k requires 0 <= k < |cs| => cs[k].id)
  }

  /** One `replace` per id, in dictionary order; text holding none of the markers comes out unchanged. */
  function RewriteAll(text: string, ids: seq<string>): (r: string)
    ensures (forall k :: 0 <= k < |ids| ==> !Contains(text, Marker(ids[k]))) ==> r == text
  {
    if ids == [] then text
    else
      var front := ids[..|ids| - 1];
      var last := ids[|ids| - 1];
      assert forall k :: 0 <= k < |front| ==> front[k] == ids[k];
      ReplaceAbsent(RewriteAll(text, front), Marker(last), LinkFor(last));
      Replace(RewriteAll(text, front), Marker(last), LinkFor(last))
  }

  /** The two rewrite loops: every id of the A dictionary first, then every id of the B dictionary. */
  method LinkCitations(comparison: string, citationsA: seq<Citation>, citationsB: seq<Citation>) returns (md: string)
    ensures md == RewriteAll(RewriteAll(comparison, IdsOf(citationsA)), IdsOf(citationsB))
  {
    md := LinkSide(comparison, citationsA);
    md := LinkSide(md, citationsB);
  }

  /** One of the two loops: `replace` each id's marker by its link, in dictionary order. */
  method LinkSide(text: string, citations: seq<Citation>) returns (md: string)
    ensures md == RewriteAll(text, IdsOf(citations))
  {
    md := text;
    for k := 0 to |citations|
      invariant md == RewriteAll(text, IdsOf(citations)[..k])
    {
      var id := citations[k].id;
      RewriteAllStep(text, IdsOf(citations), k);
      md := Replace(md, "[" + id + "]", "[" + id + "](#" + Lower(id) + ")");
    }
    assert IdsOf(citations)[..|citations|] == IdsOf(citations);
  }

  /** Rewriting the first k + 1 ids is rewriting the first k, then replacing the marker of id k. */
  lemma RewriteAllStep(text: string, ids: seq<string>, k: nat)
    requires k < |ids|
    ensures RewriteAll(text, ids[..k + 1]) == Replace(RewriteAll(text, ids[..k]), Marker(ids[k]), LinkFor(ids[k]))
  {
    assert ids[..k + 1][..k] == ids[..k];
  }

  /**
   * One rewrite cuts the text at its markers and puts the link in place of each: the text is
   * the parts joined by the marker, the result is the same parts joined by the link, and no
   * part holds the marker.
   */
  lemma RewriteReplacesEveryMarker(text: string, id: string)
    ensures var parts := Split(text, Marker(id));
      && Join(Marker(id), parts) == text
      && Replace(text, Marker(id), LinkFor(id)) == Join(LinkFor(id), parts)
      && forall k :: 0 <= k < |parts| ==> !Contains(parts[k], Marker(id))
  {
    SplitJoin(text, Marker(id));
    ReplaceIsJoinOfSplit(text, Marker(id), LinkFor(id));
    SplitPartsAvoidSeparator(text, Marker(id));
  }

  /** A marker of a bracket-free id occurs in another's only as the whole of it. */
  lemma MarkerOccursOnlyAsItself(x: string, y: string, i: nat)
    requires BracketFree(x) && BracketFree(y)
    ensures OccursAt(Marker(y), Marker(x), i) ==> x == y
  {
    var my, mx := Marker(y), Marker(x);
    assert forall k :: 1 <= k <= |y| ==> my[k] == y[k - 1];
    if OccursAt(my, mx, i) {
      assert my[i] == mx[0] == '[';
      assert i == 0;
      assert my[|x| + 1] == mx[|x| + 1] == ']';
      assert |x| == |y|;
      assert mx == my[i..i + |mx|] == my;
      assert x == mx[1..|x| + 1] == my[1..|y| + 1] == y;
    }
  }

  /** Because the match includes both brackets, the marker of one bracket-free id never occurs inside another's. */
  lemma MarkerNotInsideOther(x: string, y: string)
    requires BracketFree(x) && BracketFree(y) && x != y
    ensures !Contains(Marker(y), Marker(x))
  {
    forall i: nat | i <= |Marker(y)|
      ensures !OccursAt(Marker(y), Marker(x), i)
    {
      MarkerOccursOnlyAsItself(x, y, i);
    }
  }

  /** Two bracket-free markers whose occurrences in one text overlap are the same marker at the same place. */
  lemma MarkersOverlapOnlyWhenEqual(s: string, x: string, y: string, i: nat, j: nat)
    requires BracketFree(x) && BracketFree(y)
    requires OccursAt(s, Marker(y), i) && OccursAt(s, Marker(x), j)
    requires i <= j < i + |Marker(y)|
    ensures i == j && x == y
  {
    var mx, my := Marker(x), Marker(y);
    assert s[j] == mx[0] == '[';
    assert s[j] == my[j - i];
    assert forall k :: 1 <= k <= |y| ==> my[k] == y[k - 1];
    assert i == j;
    if |x| <= |y| {
      assert my[..|mx|] == s[i..i + |mx|] == mx;
      assert OccursAt(my, mx, 0);
      MarkerOccursOnlyAsItself(x, y, 0);
    } else {
      assert mx[..|my|] == s[i..i + |my|] == my;
      assert OccursAt(mx, my, 0);
      MarkerOccursOnlyAsItself(y, x, 0);
    }
  }

  /** A link begins with the marker it replaces. */
  lemma MarkerPrefixOfLink(x: string)
    ensures |Marker(x)| < |LinkFor(x)| && LinkFor(x)[..|Marker(x)|] == Marker(x)
  {
    assert LinkFor(x) == Marker(x) + ("(#" + Lower(x) + ")");
  }

  /** The link put in between two texts holds its marker where it starts. */
  lemma LinkAt(a: string, x: string, r: string)
    ensures OccursAt(a + LinkFor(x) + r, Marker(x), |a|)
  {
    var lx, mx := LinkFor(x), Marker(x);
    MarkerPrefixOfLink(x);
    assert (a + lx + r)[|a|..|a| + |mx|] == lx[..|mx|];
  }

  /** The only opening bracket of a link is its first character. */
  lemma LinkOpensOnce(x: string)
    requires BracketFree(x)
    ensures forall k :: 1 <= k < |LinkFor(x)| ==> LinkFor(x)[k] != '['
  {
    var lx := LinkFor(x);
    assert forall k :: 1 <= k <= |x| ==> lx[k] == x[k - 1];
    assert forall k :: |x| + 4 <= k < 2 * |x| + 4 ==> lx[k] == LowerChar(x[k - |x| - 4]);
  }

  /**
   * Rewriting the marker of `x` keeps every marker of another id `y` the text holds: an
   * occurrence of `[y]` cannot overlap one of `[x]`, so it lies wholly between two cuts.
   */
  lemma {:induction false} ReplaceKeepsOtherMarker(s: string, x: string, y: string)
    requires BracketFree(x) && BracketFree(y) && x != y
    requires Contains(s, Marker(y))
    ensures Contains(Replace(s, Marker(x), LinkFor(x)), Marker(y))
    decreases |s|
  {
    var mx, my, lx := Marker(x), Marker(y), LinkFor(x);
    if FindFrom(s, mx, 0).Some? {
      var p := FindFrom(s, mx, 0).value;
      ReplaceAtFirst(s, mx, lx);
      var a, rest := s[..p], s[p + |mx|..];
      var r := Replace(rest, mx, lx);
      var i: nat :| i <= |s| && OccursAt(s, my, i);
      if i + |my| <= p {
        OccursBeforeCut(a, mx, rest, lx, r, my, i);
      } else if p + |mx| <= i {
        OccursBackRight(a + mx, rest, my, i);
        ReplaceKeepsOtherMarker(rest, x, y);
        ContainsAppendLeft(a + lx, r, my);
      } else if i <= p {
        MarkersOverlapOnlyWhenEqual(s, x, y, i, p);
      } else {
        MarkersOverlapOnlyWhenEqual(s, y, x, p, i);
      }
    } else {
      ReplaceAbsent(s, mx, lx);
    }
  }

  /** No `[y]` of `a + LinkFor(x) + r` reaches into the link, given `a` ends before it and `y != x`. */
  lemma NoMarkerAcrossLink(a: string, x: string, r: string, y: string, i: nat)
    requires BracketFree(x) && BracketFree(y) && x != y
    requires OccursAt(a + LinkFor(x) + r, Marker(y), i)
    ensures i + |Marker(y)| <= |a| || |a| + |LinkFor(x)| <= i
  {
    var mx, my, lx := Marker(x), Marker(y), LinkFor(x);
    var out := a + lx + r;
    var p := |a|;
    if i <= p && p < i + |my| {
      LinkAt(a, x, r);
      MarkersOverlapOnlyWhenEqual(out, x, y, i, p);
    } else {
      NoMarkerInsideLink(a, x, r, y, i);
    }
  }

  /** No marker starts strictly inside the link, whose only `[` is its first character. */
  lemma NoMarkerInsideLink(a: string, x: string, r: string, y: string, i: nat)
    requires BracketFree(x) && OccursAt(a + LinkFor(x) + r, Marker(y), i)
    ensures !(|a| < i < |a| + |LinkFor(x)|)
  {
    var lx, out := LinkFor(x), a + LinkFor(x) + r;
    if |a| < i < |a| + |lx| {
      assert lx[i - |a|] == out[i] == Marker(y)[0];
      LinkOpensOnce(x);
      assert false;
    }
  }

  /** Putting the link in place of `[x]` between two texts free of `[y]` gives a text free of `[y]`. */
  lemma NoMarkerAroundLink(a: string, x: string, rest: string, r: string, y: string)
    requires BracketFree(x) && BracketFree(y) && x != y
    requires !Contains(a + Marker(x) + rest, Marker(y)) && !Contains(r, Marker(y))
    ensures !Contains(a + LinkFor(x) + r, Marker(y))
  {
    var mx, my, lx := Marker(x), Marker(y), LinkFor(x);
    forall i: nat | i <= |a + lx + r| && OccursAt(a + lx + r, my, i)
      ensures false
    {
      NoMarkerAcrossLink(a, x, r, y, i);
      if i + |my| <= |a| {
        OccursBeforeCut(a, lx, r, mx, rest, my, i);
      } else {
        OccursBackRight(a + lx, r, my, i);
      }
    }
  }

  /**
   * Rewriting the marker of `x` makes up no marker of another id `y`: the link's only opening
   * bracket starts `[x]`, so no `[y]` can begin in it or reach across it.
   */
  lemma {:induction false} ReplaceAddsNoOtherMarker(s: string, x: string, y: string)
    requires BracketFree(x) && BracketFree(y) && x != y
    requires !Contains(s, Marker(y))
    ensures !Contains(Replace(s, Marker(x), LinkFor(x)), Marker(y))
    decreases |s|
  {
    var mx, my, lx := Marker(x), Marker(y), LinkFor(x);
    if FindFrom(s, mx, 0).Some? {
      var p := FindFrom(s, mx, 0).value;
      ReplaceAtFirst(s, mx, lx);
      var a, rest := s[..p], s[p + |mx|..];
      if Contains(rest, my) {
        ContainsAppendLeft(a + mx, rest, my);
      }
      ReplaceAddsNoOtherMarker(rest, x, y);
      NoMarkerAroundLink(a, x, rest, Replace(rest, mx, lx), y);
    } else {
      ReplaceAbsent(s, mx, lx);
    }
  }

  /**
   * Rewriting `[A1]` leaves every `[A10]` of the text in place, and makes up none: in any
   * text, the marker of another citation of the same side occurs after the rewrite exactly
   * when it occurred before.
   */
  lemma OtherIdLeavesMarker(text: string, side: string, m: nat, n: nat)
    requires BracketFree(side) && m != n
    ensures var other := Marker(CitationId(side, n));
      Contains(Replace(text, Marker(CitationId(side, m)), LinkFor(CitationId(side, m))), other) <==>
      Contains(text, other)
  {
    CitationIdsDiffer(side, m, n);
    CitationIdsDiffer(side, n, m);
    var x, y := CitationId(side, m), CitationId(side, n);
    if Contains(text, Marker(y)) {
      ReplaceKeepsOtherMarker(text, x, y);
    } else {
      ReplaceAddsNoOtherMarker(text, x, y);
    }
  }

  /**
   * A marker whose id is in neither dictionary survives the whole rewrite, and none is made
   * up: it occurs in the rewritten text exactly when it occurred in the text.
   */
  lemma {:induction false} ForeignMarkerUnchanged(text: string, z: string, ids: seq<string>)
    requires BracketFree(z) && z !in ids
    requires forall k :: 0 <= k < |ids| ==> BracketFree(ids[k])
    ensures Contains(RewriteAll(text, ids), Marker(z)) <==> Contains(text, Marker(z))
    decreases |ids|
  {
    if ids != [] {
      var front := ids[..|ids| - 1];
      var x := ids[|ids| - 1];
      assert forall k :: 0 <= k < |front| ==> front[k] == ids[k];
      assert z !in front;
      ForeignMarkerUnchanged(text, z, front);
      var before := RewriteAll(text, front);
      assert x in ids;
      if Contains(before, Marker(z)) {
        ReplaceKeepsOtherMarker(before, x, z);
      } else {
        ReplaceAddsNoOtherMarker(before, x, z);
      }
    }
  }

  /**
   * Rewriting the marker of `x` keeps every link of another id `y` the text holds: the link's
   * only `[` is its first character, where `[y]` starts and `[x]` cannot.
   */
  lemma {:induction false} ReplaceKeepsOtherLink(s: string, x: string, y: string)
    requires BracketFree(x) && BracketFree(y) && x != y
    requires Contains(s, LinkFor(y))
    ensures Contains(Replace(s, Marker(x), LinkFor(x)), LinkFor(y))
    decreases |s|
  {
    var mx, my, lx, ly := Marker(x), Marker(y), LinkFor(x), LinkFor(y);
    if FindFrom(s, mx, 0).Some? {
      var p := FindFrom(s, mx, 0).value;
      ReplaceAtFirst(s, mx, lx);
      var a, rest := s[..p], s[p + |mx|..];
      var r := Replace(rest, mx, lx);
      var i: nat :| i <= |s| && OccursAt(s, ly, i);
      if i + |ly| <= p {
        OccursBeforeCut(a, mx, rest, lx, r, ly, i);
      } else if p + |mx| <= i {
        OccursBackRight(a + mx, rest, ly, i);
        ReplaceKeepsOtherLink(rest, x, y);
        ContainsAppendLeft(a + lx, r, ly);
      } else if i < p {
        NoOpenInsideLink(s, y, i, p);
        assert false;
      } else {
        LinkStartsWithMarker(s, y, i);
        MarkersOverlapOnlyWhenEqual(s, y, x, p, i);
      }
    } else {
      ReplaceAbsent(s, mx, lx);
    }
  }

  /** Where a link occurs, the marker it starts with occurs. */
  lemma LinkStartsWithMarker(s: string, y: string, i: nat)
    requires OccursAt(s, LinkFor(y), i)
    ensures OccursAt(s, Marker(y), i)
  {
    var ly, my := LinkFor(y), Marker(y);
    MarkerPrefixOfLink(y);
    assert s[i..i + |my|] == s[i..i + |ly|][..|my|];
  }

  /** Past its first character, an occurrence of a link holds no `[`. */
  lemma NoOpenInsideLink(s: string, y: string, i: nat, p: nat)
    requires BracketFree(y) && OccursAt(s, LinkFor(y), i) && i < p < i + |LinkFor(y)|
    ensures s[p] != '['
  {
    LinkOpensOnce(y);
    assert s[p] == s[i..i + |LinkFor(y)|][p - i];
  }

  /** Ids the rewrite can tell apart: each free of brackets, no two equal. */
  predicate DistinctLinkIds(ids: seq<string>) {
    && (forall j :: 0 <= j < |ids| ==> BracketFree(ids[j]))
    && (forall j, l :: 0 <= j < l < |ids| ==> ids[j] != ids[l])
  }

  /** Dropping the last of distinct bracket-free ids leaves distinct bracket-free ids, none of them the last. */
  lemma DistinctLinkIdsFront(ids: seq<string>)
    requires DistinctLinkIds(ids) && ids != []
    ensures var front, last := ids[..|ids| - 1], ids[|ids| - 1];
      && DistinctLinkIds(front) && BracketFree(last) && last !in front
      && forall j :: 0 <= j < |front| ==> front[j] == ids[j] && front[j] != last
  {
  }

  /**
   * With distinct bracket-free ids, the whole rewrite turns every marker the text holds into its
   * link: the marker survives the replaces before its own, which puts the link in, and the link
   * survives the replaces after it.
   */
  lemma {:induction false} MarkerBecomesLink(text: string, ids: seq<string>, k: nat)
    requires DistinctLinkIds(ids)
    requires k < |ids| && Contains(text, Marker(ids[k]))
    ensures Contains(RewriteAll(text, ids), LinkFor(ids[k]))
    decreases |ids|
  {
    var front, last := ids[..|ids| - 1], ids[|ids| - 1];
    DistinctLinkIdsFront(ids);
    var before := RewriteAll(text, front);
    if k == |ids| - 1 {
      ForeignMarkerUnchanged(text, last, front);
      ReplaceIntroduces(before, Marker(last), LinkFor(last));
    } else {
      MarkerBecomesLink(text, front, k);
      ReplaceKeepsOtherLink(before, last, ids[k]);
    }
  }

  /** Rewriting with one more id is one more replace. */
  lemma RewriteAllSnoc(text: string, ids: seq<string>, x: string)
    ensures RewriteAll(text, ids + [x]) == Replace(RewriteAll(text, ids), Marker(x), LinkFor(x))
  {
    assert (ids + [x])[..|ids|] == ids;
  }

  /** Rewriting with one list of ids and then another is rewriting with the two joined. */
  lemma {:induction false} RewriteAllAppend(text: string, ids1: seq<string>, ids2: seq<string>)
    ensures RewriteAll(RewriteAll(text, ids1), ids2) == RewriteAll(text, ids1 + ids2)
    decreases |ids2|
  {
    if ids2 == [] {
      assert ids1 + ids2 == ids1;
    } else {
      var front, last := ids2[..|ids2| - 1], ids2[|ids2| - 1];
      assert ids2 == front + [last];
      assert ids1 + ids2 == (ids1 + front) + [last];
      RewriteAllSnoc(RewriteAll(text, ids1), front, last);
      RewriteAllAppend(text, ids1, front);
      RewriteAllSnoc(text, ids1 + front, last);
    }
  }

  /** Rewriting with two lists of distinct ids, one after the other, turns each of their markers into its link. */
  lemma MarkersBecomeLinks(text: string, ids1: seq<string>, ids2: seq<string>)
    requires DistinctLinkIds(ids1 + ids2)
    ensures forall id :: id in ids1 + ids2 && Contains(text, Marker(id)) ==>
      Contains(RewriteAll(RewriteAll(text, ids1), ids2), LinkFor(id))
  {
    var ids := ids1 + ids2;
    RewriteAllAppend(text, ids1, ids2);
    forall id | id in ids && Contains(text, Marker(id))
      ensures Contains(RewriteAll(text, ids), LinkFor(id))
    {
      var k :| 0 <= k < |ids| && ids[k] == id;
      MarkerBecomesLink(text, ids, k);
    }
  }

  /** The ids of the two dictionaries, A's then B's, are bracket-free and pairwise different. */
  lemma ComparisonIdsAreDistinct(bodiesA: seq<string>, bodiesB: seq<string>)
    ensures DistinctLinkIds(IdsOf(Citations("A", bodiesA)) + IdsOf(Citations("B", bodiesB)))
  {
    var idsA, idsB := IdsOf(Citations("A", bodiesA)), IdsOf(Citations("B", bodiesB));
    var ids := idsA + idsB;
    CitationIdsAreDistinct("A", bodiesA);
    CitationIdsAreDistinct("B", bodiesB);
    LinkTargetsAreDistinct(bodiesA, bodiesB);
    forall j | 0 <= j < |ids|
      ensures BracketFree(ids[j])
    {
      if j < |idsA| {
        assert ids[j] == idsA[j];
      } else {
        assert ids[j] == idsB[j - |idsA|];
      }
    }
  }

  /**
   * After both loops every citation marker of the generated comparison, of either dictionary,
   * shows as its clickable link `[id](#lower(id))`.
   */
  lemma EveryCitationBecomesLink(comparison: string, bodiesA: seq<string>, bodiesB: seq<string>)
    ensures var idsA, idsB := IdsOf(Citations("A", bodiesA)), IdsOf(Citations("B", bodiesB));
      forall id :: id in idsA + idsB && Contains(comparison, Marker(id)) ==>
        Contains(RewriteAll(RewriteAll(comparison, idsA), idsB), LinkFor(id))
  {
    ComparisonIdsAreDistinct(bodiesA, bodiesB);
    MarkersBecomeLinks(comparison, IdsOf(Citations("A", bodiesA)), IdsOf(Citations("B", bodiesB)));
  }

  /** `lower` leaves digits alone and distributes over concatenation. */
  lemma LowerOfId(side: string, n: nat)
    ensures Lower(CitationId(side, n)) == Lower(side) + NatToString(n)
  {
    var digits := NatToString(n);
    assert forall k :: 0 <= k < |digits| ==> IsDigit(digits[k]);
    assert forall k :: 0 <= k < |CitationId(side, n)| ==> Lower(CitationId(side, n))[k] == (Lower(side) + digits)[k];
  }

  /**
   * The target of the link for id `side{n}` and the anchor emitted in its citation list are both
   * `lower(side) + str(n)`.
   */
  lemma LinkTargetIsAnchor(side: string, n: nat, text: string)
    ensures var id := CitationId(side, n);
      var target := Lower(side) + NatToString(n);
      && LinkFor(id) == Marker(id) + "(#" + target + ")"
      && Anchor(id, text) == "<a id='" + target + "'></a>**" + Marker(id) + "**: " + text
  {
    LowerOfId(side, n);
  }

  /**
   * Ids `side1{m}` and `side2{n}` with sides of one length link to different anchors unless
   * both the lowered sides and the counters agree: `A3` and `B3` differ in the side, `A1`
   * and `A10` in the counter.
   */
  lemma LinkTargetsDiffer(side1: string, side2: string, m: nat, n: nat)
    requires |side1| == |side2|
    requires Lower(side1) != Lower(side2) || m != n
    ensures Lower(CitationId(side1, m)) != Lower(CitationId(side2, n))
  {
    LowerOfId(side1, m);
    LowerOfId(side2, n);
    var t1, t2 := Lower(CitationId(side1, m)), Lower(CitationId(side2, n));
    if t1 == t2 {
      assert Lower(side1) == t1[..|side1|] == t2[..|side2|] == Lower(side2);
      assert NatToString(m) == t1[|side1|..] == t2[|side2|..] == NatToString(n);
      NatToStringInjective(m, n);
    }
  }

  /**
   * The fourteen citations of a comparison link to fourteen different anchors: no two ids
   * of the A and B dictionaries, taken together, lower to the same target.
   */
  lemma LinkTargetsAreDistinct(bodiesA: seq<string>, bodiesB: seq<string>)
    ensures var ids := IdsOf(Citations("A", bodiesA)) + IdsOf(Citations("B", bodiesB));
      forall j, k :: 0 <= j < k < |ids| ==> Lower(ids[j]) != Lower(ids[k])
  {
    var idsA, idsB := IdsOf(Citations("A", bodiesA)), IdsOf(Citations("B", bodiesB));
    var ids := idsA + idsB;
    SameSideTargetsDiffer("A", bodiesA);
    SameSideTargetsDiffer("B", bodiesB);
    CrossSideTargetsDiffer(bodiesA, bodiesB);
    forall j, k | 0 <= j < k < |ids|
      ensures Lower(ids[j]) != Lower(ids[k])
    {
      if k < |idsA| {
        assert ids[j] == idsA[j] && ids[k] == idsA[k];
      } else if j < |idsA| {
        assert ids[j] == idsA[j] && ids[k] == idsB[k - |idsA|];
      } else {
        assert ids[j] == idsB[j - |idsA|] && ids[k] == idsB[k - |idsA|];
      }
    }
  }

  /** Two citations of one side link to different anchors. */
  lemma SameSideTargetsDiffer(side: string, bodies: seq<string>)
    ensures var ids := IdsOf(Citations(side, bodies));
      forall j, k :: 0 <= j < k < |ids| ==> Lower(ids[j]) != Lower(ids[k])
  {
    var ids := IdsOf(Citations(side, bodies));
    forall j, k | 0 <= j < k < |ids|
      ensures Lower(ids[j]) != Lower(ids[k])
    {
      SameSidePairDiffers(side, bodies, j, k);
    }
  }

  /** Two citations of one side, numbered j + 1 and k + 1, link to different anchors. */
  lemma SameSidePairDiffers(side: string, bodies: seq<string>, j: nat, k: nat)
    requires j < k < |bodies|
    ensures var ids := IdsOf(Citations(side, bodies));
      Lower(ids[j]) != Lower(ids[k])
  {
    IdOfCitation(side, bodies, j);
    IdOfCitation(side, bodies, k);
    LinkTargetsDiffer(side, side, j + 1, k + 1);
  }

  /** A citation of A and one of B link to different anchors. */
  lemma CrossSideTargetsDiffer(bodiesA: seq<string>, bodiesB: seq<string>)
    ensures var idsA, idsB := IdsOf(Citations("A", bodiesA)), IdsOf(Citations("B", bodiesB));
      forall j, k :: 0 <= j < |idsA| && 0 <= k < |idsB| ==> Lower(idsA[j]) != Lower(idsB[k])
  {
    var idsA, idsB := IdsOf(Citations("A", bodiesA)), IdsOf(Citations("B", bodiesB));
    assert Lower("A") != Lower("B") by {
      assert Lower("A")[0] == 'a' && Lower("B")[0] == 'b';
    }
    forall j, k | 0 <= j < |idsA| && 0 <= k < |idsB|
      ensures Lower(idsA[j]) != Lower(idsB[k])
    {
      IdOfCitation("A", bodiesA, j);
      IdOfCitation("B", bodiesB, k);
      LinkTargetsDiffer("A", "B", j + 1, k + 1);
    }
  }

  /** The i-th id of a side's citations is the side and i + 1. */
  lemma IdOfCitation(side: string, bodies: seq<string>, i: nat)
    requires i < |bodies|
    ensures IdsOf(Citations(side, bodies))[i] == CitationId(side, i + 1)
  {
  }

  /* ---------- the comparison tab ---------- */

  /** What the comparison tab shows on success: the linked comparison and both citation lists. */
  datatype ComparisonView = ComparisonView(markdown: string, anchorsA: seq<string>, anchorsB: seq<string>)

  const SamePlatformError: string := "\U{26A0}\U{FE0F} Please select two different platforms for comparison."

  /** Why the comparison tab shows no comparison: the same-platform warning, or the comparator raised. */
  datatype ComparisonFailure = SamePlatformWarning(message: string) | ComparisonRaised(error: EmbeddingError)

  function AnchorsOf(cs: seq<Citation>): (anchors: seq<string>)
    ensures |anchors| == |cs| && forall k :: 0 <= k < |cs| ==> anchors[k] == Anchor(cs[k].id, cs[k].body)
  {
    seq(|cs|, k requires 0 <= k < |cs| => Anchor(cs[k].id, cs[k].body))
  }

  /**
   * The compare button: two different platforms are compared and their citations linked; the
   * same platform twice shows the warning and never reaches the comparator (`prompts` is the
   * trace of generation calls).  A policy with no words makes the comparator raise.
   */
  method RunComparison(platformA: string, platformB: string, policyA: string, policyB: string,
                       similarity: (string, string) -> real, generate: string -> string)
    returns (outcome: Result<ComparisonView, ComparisonFailure>, prompts: seq<string>)
    ensures var chunksA := WindowChunks(Words(policyA), ChunkSize, ChunkSize - Overlap);
      var chunksB := WindowChunks(Words(policyB), ChunkSize, ChunkSize - Overlap);
      && (outcome.Failure? <==> platformA == platformB || chunksA == [] || chunksB == [])
      && (outcome.Failure? ==> prompts == [])
      && (platformA == platformB ==> outcome == Failure(SamePlatformWarning(SamePlatformError)))
      && (platformA != platformB && (chunksA == [] || chunksB == []) ==>
            outcome == Failure(ComparisonRaised(NoChunkEmbeddings)))
      && (outcome.Success? ==>
            var citationsA := Citations("A", Bodies(chunksA, similarity));
            var citationsB := Citations("B", Bodies(chunksB, similarity));
            var prompt := ComparisonPrompt(platformA, platformB, Entries(citationsA, citationsB));
            && prompts == [prompt]
            && outcome.value.markdown == RewriteAll(RewriteAll(generate(prompt), IdsOf(citationsA)), IdsOf(citationsB))
            && outcome.value.anchorsA == AnchorsOf(citationsA)
            && outcome.value.anchorsB == AnchorsOf(citationsB))
  {
    if platformA != platformB {
      var compared;
      compared, prompts := ComparePolicies(platformA, platformB, policyA, policyB, similarity, generate);
      if compared.Failure? {
        return Failure(ComparisonRaised(NoChunkEmbeddings)), prompts;
      }
      var result := compared.value;
      var md := LinkCitations(result.comparison, result.citationsA, result.citationsB);
      outcome := Success(ComparisonView(md, AnchorsOf(result.citationsA), AnchorsOf(result.citationsB)));
    } else {
      outcome := Failure(SamePlatformWarning(SamePlatformError));
      prompts := [];
    }
  }

  /* ---------- the platform list ---------- */

  /** Python's `<` on strings: lexicographic by code point, a proper prefix first. */
  predicate StrLess(a: string, b: string)
    decreases |a|
  {
    if a == [] then b != []
    else b != [] && (a[0] < b[0] || (a[0] == b[0] && StrLess(a[1..], b[1..])))
  }

  lemma {:induction false} StrLessIrreflexive(a: string)
    ensures !StrLess(a, a)
    decreases |a|
  {
    if a != [] {
      StrLessIrreflexive(a[1..]);
    }
  }

  lemma {:induction false} StrLessTransitive(a: string, b: string, c: string)
    requires StrLess(a, b) && StrLess(b, c)
    ensures StrLess(a, c)
    decreases |a|
  {
    if a != [] && a[0] == b[0] && b[0] == c[0] {
      StrLessTransitive(a[1..], b[1..], c[1..]);
    }
  }

  lemma {:induction false} StrLessAsymmetric(a: string, b: string)
    ensures StrLess(a, b) ==> !StrLess(b, a)
    decreases |a|
  {
    if a != [] && b != [] && a[0] == b[0] {
      StrLessAsymmetric(a[1..], b[1..]);
    }
  }

  lemma {:induction false} StrLessTotal(a: string, b: string)
    requires a != b
    ensures StrLess(a, b) || StrLess(b, a)
    decreases |a|
  {
    if a != [] && b != [] && a[0] == b[0] {
      assert a == [a[0]] + a[1..] && b == [b[0]] + b[1..];
      StrLessTotal(a[1..], b[1..]);
    }
  }

  /** Strictly increasing: sorted and free of repeats. */
  predicate StrictlySorted(s: seq<string>) {
    forall i, j :: 0 <= i < j < |s| ==> StrLess(s[i], s[j])
  }

  /** Insert into a strictly sorted list, keeping one copy. */
  function InsertSorted(x: string, s: seq<string>): seq<string> {
    if s == [] then [x]
    else if x == s[0] then s
    else if StrLess(x, s[0]) then [x] + s
    else [s[0]] + InsertSorted(x, s[1..])
  }

  lemma {:induction false} InsertSortedKeepsOrder(x: string, s: seq<string>)
    requires StrictlySorted(s)
    ensures StrictlySorted(InsertSorted(x, s))
    ensures forall y :: y in InsertSorted(x, s) <==> y == x || y in s
  {
    if s != [] && x != s[0] {
      if StrLess(x, s[0]) {
        forall j | 0 < j < |s|
          ensures StrLess(x, s[j])
        {
          StrLessTransitive(x, s[0], s[j]);
        }
      } else {
        StrLessTotal(x, s[0]);
        InsertSortedKeepsOrder(x, s[1..]);
        var rest := InsertSorted(x, s[1..]);
        forall j | 0 <= j < |rest|
          ensures StrLess(s[0], rest[j])
        {
          assert rest[j] in rest;
          if rest[j] != x {
            var p :| 0 <= p < |s[1..]| && s[1..][p] == rest[j];
            assert s[p + 1] == rest[j];
          }
        }
      }
    }
  }

  /** `sorted(set(zs))`, by successive insertion. */
  function SortedSet(zs: seq<string>): seq<string> {
    if zs == [] then [] else InsertSorted(zs[|zs| - 1], SortedSet(zs[..|zs| - 1]))
  }

  lemma {:induction false} SortedSetIsSortedSet(zs: seq<string>)
    ensures StrictlySorted(SortedSet(zs))
    ensures forall y :: y in SortedSet(zs) <==> y in zs
    decreases |zs|
  {
    if zs != [] {
      var front := zs[..|zs| - 1];
      SortedSetIsSortedSet(front);
      InsertSortedKeepsOrder(zs[|zs| - 1], SortedSet(front));
      assert zs == front + [zs[|zs| - 1]];
    }
  }

  /** There is only one strictly sorted list of given members: the sorted set union is determined. */
  lemma {:induction false} StrictlySortedUnique(a: seq<string>, b: seq<string>)
    requires StrictlySorted(a) && StrictlySorted(b)
    requires forall y :: y in a <==> y in b
    ensures a == b
    decreases |a|
  {
    assert a != [] ==> a[0] in b;
    assert b != [] ==> b[0] in a;
    if a != [] && b != [] {
      var i :| 0 <= i < |a| && a[i] == b[0];
      var j :| 0 <= j < |b| && b[j] == a[0];
      assert i == 0 || StrLess(a[0], b[0]);
      assert j == 0 || StrLess(b[0], a[0]);
      StrLessAsymmetric(a[0], b[0]);
      StrLessIrreflexive(a[0]);
      assert a[0] == b[0];
      forall y
        ensures y in a[1..] <==> y in b[1..]
      {
        if y in a[1..] {
          var p :| 0 <= p < |a[1..]| && a[1..][p] == y;
          assert StrLess(a[0], a[p + 1]);
          StrLessIrreflexive(y);
          assert y in a;
          var q :| 0 <= q < |b| && b[q] == y;
          assert q != 0;
          assert b[1..][q - 1] == y;
        }
        if y in b[1..] {
          var p :| 0 <= p < |b[1..]| && b[1..][p] == y;
          assert StrLess(b[0], b[p + 1]);
          StrLessIrreflexive(y);
          assert y in b;
          var q :| 0 <= q < |a| && a[q] == y;
          assert q != 0;
          assert a[1..][q - 1] == y;
        }
      }
      StrictlySortedUnique(a[1..], b[1..]);
      assert a == [a[0]] + a[1..] && b == [b[0]] + b[1..];
    }
  }

  /**
   * The platform list: the comparison list if it has entries and the QA/summary list is empty…
   * as written, the QA/summary list when the comparison list is empty, their sorted set union
   * when both have entries, and the comparison list as it was otherwise; None stops the app.
   */
  function MergePlatforms(platforms: seq<string>, allPlatforms: seq<string>): (r: Option<seq<string>>)
    ensures r.None? <==> platforms == [] && allPlatforms == []
    ensures platforms == [] && allPlatforms != [] ==> r == Some(allPlatforms)
    ensures platforms != [] && allPlatforms == [] ==> r == Some(platforms)
    ensures platforms != [] && allPlatforms != [] ==>
      && r.Some? && StrictlySorted(r.value)
      && forall y :: y in r.value <==> y in platforms || y in allPlatforms
  {
    SortedSetIsSortedSet(platforms + allPlatforms);
    assert platforms != [] ==> platforms[0] in platforms + allPlatforms;
    var merged :=
      if platforms == [] && allPlatforms != [] then allPlatforms
      else if allPlatforms != [] then SortedSet(platforms + allPlatforms)
      else platforms;
    if merged == [] then None else Some(merged)
  }

  /* ---------- the QA platform id ---------- */

  /** `name.lower().replace(" ", "_")`: the name's length, each space turned into "_" and each ASCII capital lowered. */
  function PlatformId(name: string): (id: string)
    ensures |id| == |name|
    ensures forall i :: 0 <= i < |name| ==> id[i] == if name[i] == ' ' then '_' else LowerChar(name[i])
  {
    ReplaceCharPointwise(Lower(name), ' ', '_');
    Replace(Lower(name), " ", "_")
  }

  /** Replacing a one-character pattern by one character acts on each position alone. */
  lemma {:induction false} ReplaceCharPointwise(s: string, c: char, d: char)
    ensures |Replace(s, [c], [d])| == |s|
    ensures forall i :: 0 <= i < |s| ==> Replace(s, [c], [d])[i] == if s[i] == c then d else s[i]
    decreases |s|
  {
    match FindFrom(s, [c], 0)
    case None =>
      NoCharBefore(s, c, |s|);
    case Some(p) =>
      var rest := s[p + 1..];
      ReplaceCharPointwise(rest, c, d);
      var r := Replace(s, [c], [d]);
      assert r == s[..p] + [d] + Replace(rest, [c], [d]);
      assert s[p..p + 1] == [c];
      NoCharBefore(s, c, p);
  }

  /** No one-character match before `p` means no `c` before `p`. */
  lemma NoCharBefore(s: string, c: char, p: nat)
    requires p <= |s| && forall j: nat :: j < p ==> !OccursAt(s, [c], j)
    ensures forall i :: 0 <= i < p ==> s[i] != c
  {
    forall i | 0 <= i < p
      ensures s[i] != c
    {
      assert !OccursAt(s, [c], i);
      assert s[i..i + 1] == [s[i]];
    }
  }

}
