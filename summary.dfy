/**
 * The policy summariser: paragraph chunking under a character budget, retrieval of the chunks
 * nearest to each of seven fixed questions, and the assembly of the summary and its references
 * from one generated answer per question that retrieved something.
 */
module Summary {
  import opened Wrappers
  import opened Text
  import opened Ranking

  const ParagraphSeparator: string := "\n\n"
  const DefaultMaxChars: int := 1000
  const DefaultMinWords: int := 4

  /* ---------- paragraphs ---------- */

  /** `[p.strip() for p in parts]`. */
  function StripAll(parts: seq<string>): (ps: seq<string>)
    ensures |ps| == |parts|
    ensures forall k :: 0 <= k < |ps| ==> ps[k] == Strip(parts[k])
  {
    seq(|parts|, k requires 0 <= k < |parts| => Strip(parts[k]))
  }

  lemma StripAllStripped(parts: seq<string>)
    ensures forall k :: 0 <= k < |parts| ==> IsStripped(StripAll(parts)[k])
  {
  }

  /** Stripping parts that are already stripped changes nothing. */
  lemma StripAllOfStripped(parts: seq<string>)
    requires forall k :: 0 <= k < |parts| ==> IsStripped(parts[k])
    ensures StripAll(parts) == parts
  {
  }

  /** `[p for p in ps if len(p.split()) >= min_words]`. */
  function LongEnough(ps: seq<string>, minWords: int): (kept: seq<string>)
    ensures |kept| <= |ps|
  {
    if ps == [] then []
    else (if |Words(ps[0])| >= minWords then [ps[0]] else []) + LongEnough(ps[1..], minWords)
  }

  /** The filter keeps only paragraphs with at least `minWords` words, and every such paragraph. */
  lemma {:induction false} LongEnoughKeepsExactly(ps: seq<string>, minWords: int)
    ensures var kept := LongEnough(ps, minWords);
      && (forall k :: 0 <= k < |kept| ==> kept[k] in ps && |Words(kept[k])| >= minWords)
      && (forall p :: p in ps && |Words(p)| >= minWords ==> p in kept)
    decreases |ps|
  {
    if ps != [] {
      var head := if |Words(ps[0])| >= minWords then [ps[0]] else [];
      var rest := LongEnough(ps[1..], minWords);
      var kept := LongEnough(ps, minWords);
      LongEnoughKeepsExactly(ps[1..], minWords);
      LongEnoughFirst(ps, minWords);
      forall k | 0 <= k < |kept|
        ensures kept[k] in ps && |Words(kept[k])| >= minWords
      {
        if k >= |head| {
          assert kept[k] == rest[k - |head|];
          assert rest[k - |head|] in ps[1..];
        }
      }
      forall p | p in ps && |Words(p)| >= minWords
        ensures p in kept
      {
        if p != ps[0] {
          assert p in ps[1..];
          assert p in rest;
        }
      }
    }
  }

  /** A single paragraph is kept exactly when it has enough words. */
  lemma LongEnoughSingle(p: string, minWords: int)
    ensures LongEnough([p], minWords) == if |Words(p)| >= minWords then [p] else []
  {
    assert [p][1..] == [];
  }

  /**
   * The filter keeps order and multiplicity: it distributes over concatenation, so with
   * LongEnoughSingle it is determined paragraph by paragraph.
   */
  lemma {:induction false} LongEnoughKeepsOrder(a: seq<string>, b: seq<string>, minWords: int)
    ensures LongEnough(a + b, minWords) == LongEnough(a, minWords) + LongEnough(b, minWords)
    decreases |a|
  {
    if a == [] {
      assert a + b == b;
    } else {
      var head := if |Words(a[0])| >= minWords then [a[0]] else [];
      var x, y := LongEnough(a[1..], minWords), LongEnough(b, minWords);
      assert (a + b)[0] == a[0] && (a + b)[1..] == a[1..] + b;
      LongEnoughFirst(a + b, minWords);
      LongEnoughFirst(a, minWords);
      LongEnoughKeepsOrder(a[1..], b, minWords);
      assert head + (x + y) == (head + x) + y;
    }
  }

  /** The filter decides the first paragraph, then goes on with the rest. */
  lemma LongEnoughFirst(ps: seq<string>, minWords: int)
    requires ps != []
    ensures LongEnough(ps, minWords) ==
      (if |Words(ps[0])| >= minWords then [ps[0]] else []) + LongEnough(ps[1..], minWords)
  {
  }

  lemma {:induction false} LongEnoughKeepsStripped(ps: seq<string>, minWords: int)
    requires forall k :: 0 <= k < |ps| ==> IsStripped(ps[k])
    ensures forall k :: 0 <= k < |LongEnough(ps, minWords)| ==> IsStripped(LongEnough(ps, minWords)[k])
  {
    if ps != [] {
      LongEnoughKeepsStripped(ps[1..], minWords);
    }
  }

  /**
   * The paragraphs `chunk_text_by_paragraph` packs: the parts of `text.split("\n\n")`,
   * stripped, without those of fewer than `min_words` words.
   */
  function Paragraphs(text: string, minWords: int): (paras: seq<string>)
    ensures forall k :: 0 <= k < |paras| ==> IsStripped(paras[k]) && |Words(paras[k])| >= minWords
  {
    var raw := StripAll(Split(text, ParagraphSeparator));
    StripAllStripped(Split(text, ParagraphSeparator));
    LongEnoughKeepsStripped(raw, minWords);
    LongEnoughKeepsExactly(raw, minWords);
    LongEnough(raw, minWords)
  }

  /** Only stripped parts of the split are kept, and every one with enough words is. */
  lemma ParagraphsFilter(text: string, minWords: int)
    ensures forall k :: 0 <= k < |Paragraphs(text, minWords)| ==>
      Paragraphs(text, minWords)[k] in StripAll(Split(text, ParagraphSeparator))
    ensures forall p :: p in StripAll(Split(text, ParagraphSeparator)) && |Words(p)| >= minWords ==>
      p in Paragraphs(text, minWords)
  {
    var raw := StripAll(Split(text, ParagraphSeparator));
    assert Paragraphs(text, minWords) == LongEnough(raw, minWords);
    LongEnoughKeepsExactly(raw, minWords);
  }

  /* ---------- greedy packing ---------- */

  /** The buffer `current_chunk` holds after taking the paragraphs of `g`: each followed by "\n". */
  function Buffer(g: seq<string>): (b: string)
    ensures g != [] ==> b != [] && b[|b| - 1] == '\n'
  {
    if g == [] then "" else Buffer(g[..|g| - 1]) + g[|g| - 1] + "\n"
  }

  /** The fit test: `len(current_chunk) + len(para) + 2 < max_chars`. */
  predicate Fits(buffer: string, para: string, maxChars: int) {
    |buffer| + |para| + 2 < maxChars
  }

  /**
   * Reference definition of the packing, paragraph by paragraph: a paragraph joins the last
   * group when it fits that group's buffer, and opens a new group otherwise.
   */
  function Groups(paras: seq<string>, maxChars: int): (groups: seq<seq<string>>)
    decreases |paras|
  {
    if paras == [] then []
    else
      var prev := Groups(paras[..|paras| - 1], maxChars);
      var p := paras[|paras| - 1];
      if prev != [] && Fits(Buffer(prev[|prev| - 1]), p, maxChars) then
        prev[..|prev| - 1] + [prev[|prev| - 1] + [p]]
      else
        prev + [[p]]
  }

  /** One chunk per group: its buffer, stripped. */
  function ChunksOf(groups: seq<seq<string>>): (chunks: seq<string>)
    ensures |chunks| == |groups|
  {
    seq(|groups|, j requires 0 <= j < |groups| => Strip(Buffer(groups[j])))
  }

  /**
   * What greedy packing means: the groups, in order, are the paragraphs; no group is empty;
   * every paragraph after the first of its group fitted the buffer before it; and the first
   * paragraph of every later group did not fit the previous group's whole buffer.
   */
  predicate GreedyPacking(groups: seq<seq<string>>, paras: seq<string>, maxChars: int) {
    && Concat(groups) == paras
    && NonEmptyGroups(groups)
    && JoinsFit(groups, maxChars)
    && BreaksOverflow(groups, maxChars)
  }

  predicate NonEmptyGroups(groups: seq<seq<string>>) {
    forall j :: 0 <= j < |groups| ==> groups[j] != []
  }

  /** Every paragraph after the first of its group fitted the buffer before it. */
  predicate JoinsFit(groups: seq<seq<string>>, maxChars: int) {
    forall j, i :: 0 <= j < |groups| && 0 < i < |groups[j]| ==> Fits(Buffer(groups[j][..i]), groups[j][i], maxChars)
  }

  /** The first paragraph of every later group did not fit the previous group's whole buffer. */
  predicate BreaksOverflow(groups: seq<seq<string>>, maxChars: int) {
    forall j :: 0 < j < |groups| ==> groups[j] != [] && !Fits(Buffer(groups[j - 1]), groups[j][0], maxChars)
  }

  /* The four parts of greedy packing, one step at a time. */

  lemma JoinsFitExtendLast(prev: seq<seq<string>>, p: string, maxChars: int)
    requires prev != [] && JoinsFit(prev, maxChars) && Fits(Buffer(prev[|prev| - 1]), p, maxChars)
    ensures JoinsFit(prev[..|prev| - 1] + [prev[|prev| - 1] + [p]], maxChars)
  {
    var l := |prev| - 1;
    var last := prev[l] + [p];
    var groups := prev[..l] + [last];
    forall j, i | 0 <= j < |groups| && 0 < i < |groups[j]|
      ensures Fits(Buffer(groups[j][..i]), groups[j][i], maxChars)
    {
      if j < l {
        assert groups[j] == prev[j];
      } else if i < |prev[l]| {
        assert last[..i] == prev[l][..i];
      } else {
        assert last[..i] == prev[l];
      }
    }
  }

  lemma BreaksExtendLast(prev: seq<seq<string>>, p: string, maxChars: int)
    requires prev != [] && NonEmptyGroups(prev) && BreaksOverflow(prev, maxChars)
    ensures NonEmptyGroups(prev[..|prev| - 1] + [prev[|prev| - 1] + [p]])
    ensures BreaksOverflow(prev[..|prev| - 1] + [prev[|prev| - 1] + [p]], maxChars)
  {
    var l := |prev| - 1;
    var groups := prev[..l] + [prev[l] + [p]];
    forall j | 0 <= j < |groups|
      ensures groups[j] != [] && (0 < j ==> groups[j - 1] == prev[j - 1] && groups[j][0] == prev[j][0])
    {
      if j < l {
        assert groups[j] == prev[j];
      }
    }
  }

  lemma JoinsFitOpen(prev: seq<seq<string>>, p: string, maxChars: int)
    requires JoinsFit(prev, maxChars)
    ensures JoinsFit(prev + [[p]], maxChars)
  {
    var groups := prev + [[p]];
    forall j, i | 0 <= j < |groups| && 0 < i < |groups[j]|
      ensures Fits(Buffer(groups[j][..i]), groups[j][i], maxChars)
    {
      assert j < |prev| && groups[j] == prev[j];
    }
  }

  lemma BreaksOpen(prev: seq<seq<string>>, p: string, maxChars: int)
    requires NonEmptyGroups(prev) && BreaksOverflow(prev, maxChars)
    requires prev != [] ==> !Fits(Buffer(prev[|prev| - 1]), p, maxChars)
    ensures NonEmptyGroups(prev + [[p]]) && BreaksOverflow(prev + [[p]], maxChars)
  {
    var groups := prev + [[p]];
    assert forall j :: 0 <= j < |prev| ==> groups[j] == prev[j];
  }

  lemma JoinsFitShorten(groups: seq<seq<string>>, maxChars: int)
    requires groups != [] && |groups[|groups| - 1]| > 1 && JoinsFit(groups, maxChars)
    ensures var last := groups[|groups| - 1];
      JoinsFit(groups[..|groups| - 1] + [last[..|last| - 1]], maxChars)
  {
    var l, last := |groups| - 1, groups[|groups| - 1];
    var shorter := last[..|last| - 1];
    var front2 := groups[..l] + [shorter];
    forall j, i | 0 <= j < |front2| && 0 < i < |front2[j]|
      ensures Fits(Buffer(front2[j][..i]), front2[j][i], maxChars)
    {
      if j == l {
        assert shorter[..i] == last[..i];
        assert shorter[i] == last[i];
      } else {
        assert front2[j] == groups[j];
      }
    }
  }

  lemma BreaksShorten(groups: seq<seq<string>>, maxChars: int)
    requires groups != [] && |groups[|groups| - 1]| > 1
    requires NonEmptyGroups(groups) && BreaksOverflow(groups, maxChars)
    ensures var last := groups[|groups| - 1];
      var front2 := groups[..|groups| - 1] + [last[..|last| - 1]];
      NonEmptyGroups(front2) && BreaksOverflow(front2, maxChars)
  {
    var l, last := |groups| - 1, groups[|groups| - 1];
    var front2 := groups[..l] + [last[..|last| - 1]];
    forall j | 0 <= j < |front2|
      ensures front2[j] != [] && (0 < j ==> front2[j - 1] == groups[j - 1] && front2[j][0] == groups[j][0])
    {
      if j < l {
        assert front2[j] == groups[j];
      }
    }
  }

  lemma GreedyPrefix(groups: seq<seq<string>>, maxChars: int, n: nat)
    requires n <= |groups| && NonEmptyGroups(groups) && JoinsFit(groups, maxChars) && BreaksOverflow(groups, maxChars)
    ensures NonEmptyGroups(groups[..n]) && JoinsFit(groups[..n], maxChars) && BreaksOverflow(groups[..n], maxChars)
  {
    var front := groups[..n];
    forall j | 0 <= j < n
      ensures front[j] == groups[j]
    {
    }
  }

  /** Adding a paragraph that fits to the last greedy group keeps the grouping greedy. */
  lemma GreedyJoinLast(prev: seq<seq<string>>, ps: seq<string>, p: string, maxChars: int)
    requires GreedyPacking(prev, ps, maxChars) && prev != []
    requires Fits(Buffer(prev[|prev| - 1]), p, maxChars)
    ensures GreedyPacking(prev[..|prev| - 1] + [prev[|prev| - 1] + [p]], ps + [p], maxChars)
  {
    JoinsFitExtendLast(prev, p, maxChars);
    BreaksExtendLast(prev, p, maxChars);
    ConcatExtendLast(prev, p);
  }

  /** Opening a new group with a paragraph that does not fit keeps the grouping greedy. */
  lemma GreedyOpenGroup(prev: seq<seq<string>>, ps: seq<string>, p: string, maxChars: int)
    requires GreedyPacking(prev, ps, maxChars)
    requires prev != [] ==> !Fits(Buffer(prev[|prev| - 1]), p, maxChars)
    ensures GreedyPacking(prev + [[p]], ps + [p], maxChars)
  {
    JoinsFitOpen(prev, p, maxChars);
    BreaksOpen(prev, p, maxChars);
    ConcatSnoc(prev, [p]);
  }

  lemma {:induction false} GroupsIsGreedy(paras: seq<string>, maxChars: int)
    ensures GreedyPacking(Groups(paras, maxChars), paras, maxChars)
    decreases |paras|
  {
    if paras != [] {
      var ps, p := paras[..|paras| - 1], paras[|paras| - 1];
      GroupsIsGreedy(ps, maxChars);
      var prev := Groups(ps, maxChars);
      assert paras == ps + [p];
      if prev != [] && Fits(Buffer(prev[|prev| - 1]), p, maxChars) {
        GreedyJoinLast(prev, ps, p, maxChars);
      } else {
        GreedyOpenGroup(prev, ps, p, maxChars);
      }
    }
  }

  /** A greedy grouping whose last group is a single paragraph: the other groups pack the other paragraphs. */
  lemma GreedyDropLastGroup(groups: seq<seq<string>>, paras: seq<string>, maxChars: int)
    requires GreedyPacking(groups, paras, maxChars) && groups != [] && |groups[|groups| - 1]| == 1
    ensures paras != [] && groups[|groups| - 1] == [paras[|paras| - 1]]
    ensures GreedyPacking(groups[..|groups| - 1], paras[..|paras| - 1], maxChars)
  {
    ConcatDropSingle(groups);
    GreedyPrefix(groups, maxChars, |groups| - 1);
  }

  /** The paragraphs of groups whose last group is one paragraph: the other groups' paragraphs, then it. */
  lemma ConcatDropSingle(groups: seq<seq<string>>)
    requires groups != [] && |groups[|groups| - 1]| == 1
    ensures var l, all := |groups| - 1, Concat(groups);
      && all != [] && groups[l] == [all[|all| - 1]]
      && Concat(groups[..l]) == all[..|all| - 1]
  {
    var l := |groups| - 1;
    var front, x := Concat(groups[..l]), groups[l][0];
    assert groups[..l] + [groups[l]] == groups;
    ConcatSnoc(groups[..l], groups[l]);
    assert groups[l] == [x];
    assert (front + [x])[..|front|] == front;
  }

  /** The paragraphs of groups whose last group loses its last paragraph: all but the last one. */
  lemma ConcatShorten(groups: seq<seq<string>>)
    requires groups != [] && groups[|groups| - 1] != []
    ensures var l, last, all := |groups| - 1, groups[|groups| - 1], Concat(groups);
      && all != [] && last[|last| - 1] == all[|all| - 1]
      && Concat(groups[..l] + [last[..|last| - 1]]) == all[..|all| - 1]
  {
    var l := |groups| - 1;
    var last := groups[l];
    var shorter := last[..|last| - 1];
    var front := Concat(groups[..l]) + shorter;
    assert Concat(groups) == front + [last[|last| - 1]] by {
      ConcatSnoc(groups[..l], last);
      assert groups[..l] + [last] == groups;
      assert shorter + [last[|last| - 1]] == last;
    }
    ConcatSnoc(groups[..l], shorter);
  }

  /** A greedy grouping without the last paragraph of a longer last group is a greedy grouping of the other paragraphs. */
  lemma GreedyDropLastParagraph(groups: seq<seq<string>>, paras: seq<string>, maxChars: int)
    requires GreedyPacking(groups, paras, maxChars) && groups != [] && |groups[|groups| - 1]| > 1
    ensures var l, last := |groups| - 1, groups[|groups| - 1];
      && paras != [] && last[|last| - 1] == paras[|paras| - 1]
      && GreedyPacking(groups[..l] + [last[..|last| - 1]], paras[..|paras| - 1], maxChars)
  {
    ConcatShorten(groups);
    JoinsFitShorten(groups, maxChars);
    BreaksShorten(groups, maxChars);
  }

  /** A greedy grouping ending in a one-paragraph group, whose other groups are the reference packing, is the reference packing. */
  lemma UniqueAfterGroup(groups: seq<seq<string>>, paras: seq<string>, maxChars: int)
    requires GreedyPacking(groups, paras, maxChars) && groups != [] && paras != []
    requires groups[|groups| - 1] == [paras[|paras| - 1]]
    requires groups[..|groups| - 1] == Groups(paras[..|paras| - 1], maxChars)
    ensures groups == Groups(paras, maxChars)
  {
    var l := |groups| - 1;
    assert l > 0 ==> !Fits(Buffer(groups[l - 1]), groups[l][0], maxChars);
    assert groups[..l] + [groups[l]] == groups;
  }

  /** Groups, when the last paragraph fits the last group of the others' packing. */
  lemma GroupsJoinStep(paras: seq<string>, maxChars: int)
    requires paras != []
    requires var prev := Groups(paras[..|paras| - 1], maxChars);
      prev != [] && Fits(Buffer(prev[|prev| - 1]), paras[|paras| - 1], maxChars)
    ensures var prev := Groups(paras[..|paras| - 1], maxChars);
      Groups(paras, maxChars) == prev[..|prev| - 1] + [prev[|prev| - 1] + [paras[|paras| - 1]]]
  {
  }

  /** Putting back the last element of the last group restores the groups. */
  lemma RegrowLast<T>(groups: seq<seq<T>>, prev: seq<seq<T>>, x: T)
    requires groups != [] && groups[|groups| - 1] != []
    requires var last := groups[|groups| - 1];
      prev == groups[..|groups| - 1] + [last[..|last| - 1]] && x == last[|last| - 1]
    ensures prev[..|prev| - 1] + [prev[|prev| - 1] + [x]] == groups
  {
    var l, last := |groups| - 1, groups[|groups| - 1];
    assert prev[..l] == groups[..l];
    assert last[..|last| - 1] + [x] == last;
    assert groups[..l] + [last] == groups;
  }

  /** A greedy grouping whose last group, shortened by its last paragraph, gives the reference packing, is the reference packing. */
  lemma UniqueAfterParagraph(groups: seq<seq<string>>, paras: seq<string>, maxChars: int)
    requires GreedyPacking(groups, paras, maxChars) && groups != [] && paras != []
    requires var last := groups[|groups| - 1];
      && |last| > 1 && last[|last| - 1] == paras[|paras| - 1]
      && groups[..|groups| - 1] + [last[..|last| - 1]] == Groups(paras[..|paras| - 1], maxChars)
    ensures groups == Groups(paras, maxChars)
  {
    var last := groups[|groups| - 1];
    var prev := Groups(paras[..|paras| - 1], maxChars);
    assert Fits(Buffer(prev[|prev| - 1]), paras[|paras| - 1], maxChars) by {
      assert prev[|prev| - 1] == last[..|last| - 1];
      assert JoinsFit(groups, maxChars);
      assert Fits(Buffer(last[..|last| - 1]), last[|last| - 1], maxChars);
    }
    GroupsJoinStep(paras, maxChars);
    RegrowLast(groups, prev, paras[|paras| - 1]);
  }

  /** Greedy packing leaves no choice: any greedy grouping of the paragraphs is the reference one. */
  lemma {:induction false} GreedyPackingIsUnique(groups: seq<seq<string>>, paras: seq<string>, maxChars: int)
    requires GreedyPacking(groups, paras, maxChars)
    ensures groups == Groups(paras, maxChars)
    decreases |paras|
  {
    if groups != [] {
      var l, last := |groups| - 1, groups[|groups| - 1];
      if |last| == 1 {
        GreedyDropLastGroup(groups, paras, maxChars);
        GreedyPackingIsUnique(groups[..l], paras[..|paras| - 1], maxChars);
        UniqueAfterGroup(groups, paras, maxChars);
      } else {
        GreedyDropLastParagraph(groups, paras, maxChars);
        GreedyPackingIsUnique(groups[..l] + [last[..|last| - 1]], paras[..|paras| - 1], maxChars);
        UniqueAfterParagraph(groups, paras, maxChars);
      }
    }
  }

  /* ---------- the chunker ---------- */

  /** The loop state after some paragraphs: the closed chunks, and the open group's buffer. */
  predicate Packed(chunks: seq<string>, current: string, groups: seq<seq<string>>) {
    if groups == [] then chunks == [] && current == ""
    else
      && groups[|groups| - 1] != []
      && chunks == ChunksOf(groups[..|groups| - 1])
      && current == Buffer(groups[|groups| - 1])
  }

  /** The reference packing of one paragraph more. */
  lemma GroupsNext(paras: seq<string>, i: nat, maxChars: int)
    requires i < |paras|
    ensures var prev := Groups(paras[..i], maxChars);
      var p := paras[i];
      Groups(paras[..i + 1], maxChars) ==
        if prev != [] && Fits(Buffer(prev[|prev| - 1]), p, maxChars) then prev[..|prev| - 1] + [prev[|prev| - 1] + [p]]
        else prev + [[p]]
  {
    assert paras[..i + 1][..i] == paras[..i];
  }

  /** The paragraph fits: it joins the open group and is appended to the buffer. */
  lemma PackJoin(chunks: seq<string>, current: string, groups: seq<seq<string>>, p: string)
    requires Packed(chunks, current, groups) && groups != []
    ensures var l := |groups| - 1;
      Packed(chunks, current + p + "\n", groups[..l] + [groups[l] + [p]])
  {
    var l := |groups| - 1;
    var g := groups[l] + [p];
    assert (groups[..l] + [g])[..l] == groups[..l];
    assert g[..|g| - 1] == groups[l];
  }

  /** The paragraph opens a new group: the open buffer, if any, is closed as a chunk. */
  lemma PackOpen(chunks: seq<string>, current: string, groups: seq<seq<string>>, p: string)
    requires Packed(chunks, current, groups)
    ensures Packed(if current != "" then chunks + [Strip(current)] else chunks, p + "\n", groups + [[p]])
  {
    assert Buffer([p]) == p + "\n" by {
      assert [p][..0] == [];
    }
    if groups != [] {
      PackOpenAfter(chunks, current, groups, p);
    }
  }

  /** PackOpen when a group is open: its buffer is non-empty and becomes the next chunk. */
  lemma PackOpenAfter(chunks: seq<string>, current: string, groups: seq<seq<string>>, p: string)
    requires Packed(chunks, current, groups) && groups != [] && Buffer([p]) == p + "\n"
    ensures current != ""
    ensures Packed(chunks + [Strip(current)], p + "\n", groups + [[p]])
  {
    var l := |groups| - 1;
    assert (groups + [[p]])[..l + 1] == groups;
    assert groups[..l] + [groups[l]] == groups;
    ChunksOfSnoc(groups[..l], groups[l]);
  }

  /** One paragraph more, in the loop's own terms: its two branches are the reference's two cases. */
  lemma PackParagraph(paras: seq<string>, i: nat, maxChars: int, chunks: seq<string>, current: string)
    requires i < |paras| && Packed(chunks, current, Groups(paras[..i], maxChars))
    ensures Fits(current, paras[i], maxChars) ==>
      Packed(chunks, current + paras[i] + "\n", Groups(paras[..i + 1], maxChars))
    ensures !Fits(current, paras[i], maxChars) ==>
      Packed(if current != "" then chunks + [Strip(current)] else chunks, paras[i] + "\n", Groups(paras[..i + 1], maxChars))
  {
    var prev := Groups(paras[..i], maxChars);
    GroupsNext(paras, i, maxChars);
    if prev != [] && Fits(current, paras[i], maxChars) {
      PackJoin(chunks, current, prev, paras[i]);
    } else {
      PackOpen(chunks, current, prev, paras[i]);
    }
  }

  /** After the last paragraph, closing the open buffer (if any) yields every chunk. */
  lemma PackDone(chunks: seq<string>, current: string, groups: seq<seq<string>>)
    requires Packed(chunks, current, groups)
    ensures (if current != "" then chunks + [Strip(current)] else chunks) == ChunksOf(groups)
  {
    if groups != [] {
      var l := |groups| - 1;
      assert current != "";
      assert groups[..l] + [groups[l]] == groups;
      ChunksOfSnoc(groups[..l], groups[l]);
    }
  }

  /** Closing one group more adds its stripped buffer as the last chunk. */
  lemma ChunksOfSnoc(front: seq<seq<string>>, g: seq<string>)
    ensures ChunksOf(front + [g]) == ChunksOf(front) + [Strip(Buffer(g))]
  {
    var all := front + [g];
    var before, after := ChunksOf(front), ChunksOf(all);
    assert |after| == |before| + 1;
    forall j | 0 <= j < |before|
      ensures after[j] == before[j]
    {
      assert all[j] == front[j];
    }
    assert after[|before|] == Strip(Buffer(g));
    assert after == before + [Strip(Buffer(g))];
  }

  /**
   * `chunk_text_by_paragraph`: pack the paragraphs greedily into a buffer, each followed by
   * "\n", closing the buffer as a stripped chunk whenever the next paragraph does not fit.
   */
  method ChunkByParagraph(text: string, maxChars: int, minWords: int) returns (chunks: seq<string>)
    ensures chunks == ChunksOf(Groups(Paragraphs(text, minWords), maxChars))
  {
    chunks := PackParagraphs(Paragraphs(text, minWords), maxChars);
  }

  /**
   * `chunk_text_by_paragraph(policy_text)` with its defaults, as the summariser calls it: no
   * chunks exactly when no paragraph has four words, and every chunk is the paragraphs of its
   * group joined by "\n" and is not empty.
   */
  method ChunkPolicy(text: string) returns (chunks: seq<string>)
    ensures chunks == ChunksOf(Groups(Paragraphs(text, DefaultMinWords), DefaultMaxChars))
    ensures chunks == [] <==> Paragraphs(text, DefaultMinWords) == []
    ensures var groups := Groups(Paragraphs(text, DefaultMinWords), DefaultMaxChars);
      |chunks| == |groups| && forall j :: 0 <= j < |chunks| ==> chunks[j] == Join("\n", groups[j]) && chunks[j] != []
  {
    chunks := ChunkByParagraph(text, DefaultMaxChars, DefaultMinWords);
    ParagraphChunksCoverParagraphs(text, DefaultMaxChars, DefaultMinWords);
    ChunkIsJoinedParagraphs(text, DefaultMaxChars, DefaultMinWords);
  }

  /** The packing loop of `chunk_text_by_paragraph`, over the kept paragraphs. */
  method PackParagraphs(paragraphs: seq<string>, maxChars: int) returns (chunks: seq<string>)
    requires forall k :: 0 <= k < |paragraphs| ==> IsStripped(paragraphs[k])
    ensures chunks == ChunksOf(Groups(paragraphs, maxChars))
  {
    chunks := [];
    var current := "";
    for i := 0 to |paragraphs|
      invariant Packed(chunks, current, Groups(paragraphs[..i], maxChars))
    {
      var para := paragraphs[i];
      ghost var groups := Groups(paragraphs[..i + 1], maxChars);
      PackParagraph(paragraphs, i, maxChars, chunks, current);
      if |current| + |para| + 2 < maxChars {
        var stripped := Strip(para);
        assert stripped == para;
        assert Packed(chunks, current + para + "\n", groups);
        current := current + stripped + "\n";
      } else {
        assert Packed(if current != "" then chunks + [Strip(current)] else chunks, para + "\n", groups);
        if current != "" {
          chunks := chunks + [Strip(current)];
        }
        current := para + "\n";
      }
    }
    assert paragraphs[..|paragraphs|] == paragraphs;
    PackDone(chunks, current, Groups(paragraphs, maxChars));
    if current != "" {
      chunks := chunks + [Strip(current)];
    }
  }

  /* ---------- what the chunks are ---------- */

  lemma {:induction false} BufferIsJoin(g: seq<string>)
    requires g != []
    ensures Buffer(g) == Join("\n", g) + "\n"
    decreases |g|
  {
    var front := g[..|g| - 1];
    if front != [] {
      BufferIsJoin(front);
      JoinSnoc("\n", front, g[|g| - 1]);
      assert front + [g[|g| - 1]] == g;
    }
  }

  lemma JoinOfStrippedIsStripped(g: seq<string>)
    requires g != [] && forall k :: 0 <= k < |g| ==> g[k] != [] && IsStripped(g[k])
    ensures Join("\n", g) != [] && IsStripped(Join("\n", g))
  {
    JoinEnds("\n", g);
    assert IsStripped(g[0]) && IsStripped(g[|g| - 1]);
  }

  /**
   * With `min_words >= 1` every paragraph is non-empty, so each chunk is its paragraphs joined
   * by "\n", and no chunk is empty.
   */
  lemma ChunkIsJoinedParagraphs(text: string, maxChars: int, minWords: int)
    requires 1 <= minWords
    ensures var groups := Groups(Paragraphs(text, minWords), maxChars);
      forall j :: 0 <= j < |groups| ==> ChunksOf(groups)[j] == Join("\n", groups[j]) && ChunksOf(groups)[j] != []
  {
    var paras := Paragraphs(text, minWords);
    var groups := Groups(paras, maxChars);
    GroupsIsGreedy(paras, maxChars);
    forall j | 0 <= j < |groups|
      ensures ChunksOf(groups)[j] == Join("\n", groups[j]) && ChunksOf(groups)[j] != []
    {
      var g := groups[j];
      forall k | 0 <= k < |g|
        ensures g[k] != [] && IsStripped(g[k])
      {
        ConcatInGroup(groups, j, k);
        assert g[k] in paras;
      }
      BufferIsJoin(g);
      JoinOfStrippedIsStripped(g);
      StripDropsNewline(Join("\n", g));
    }
  }

  /** A paragraph of a group is one of the concatenated paragraphs. */
  lemma {:induction false} ConcatInGroup(groups: seq<seq<string>>, j: nat, k: nat)
    requires j < |groups| && k < |groups[j]|
    ensures groups[j][k] in Concat(groups)
    decreases |groups|
  {
    var l := |groups| - 1;
    assert Concat(groups) == Concat(groups[..l]) + groups[l];
    if j < l {
      ConcatInGroup(groups[..l], j, k);
    } else {
      assert Concat(groups)[|Concat(groups[..l])| + k] == groups[j][k];
    }
  }

  /** A chunk holding two or more paragraphs is shorter than the budget by more than two characters. */
  lemma PackedChunkFitsBudget(groups: seq<seq<string>>, paras: seq<string>, maxChars: int, j: nat)
    requires GreedyPacking(groups, paras, maxChars) && j < |groups| && 2 <= |groups[j]|
    ensures |ChunksOf(groups)[j]| + 2 < maxChars
  {
    var g := groups[j];
    var k := |g| - 1;
    assert Fits(Buffer(g[..k]), g[k], maxChars);
    assert Buffer(g) == Buffer(g[..k]) + g[k] + "\n";
    StripShortensTrailingSpace(Buffer(g[..k]) + g[k], '\n');
    assert Buffer(g[..k]) + g[k] + "\n" == (Buffer(g[..k]) + g[k]) + ['\n'];
  }

  lemma {:induction false} BufferLength(g: seq<string>)
    ensures |Buffer(g)| >= |g|
    decreases |g|
  {
    if g != [] {
      BufferLength(g[..|g| - 1]);
    }
  }

  /** A paragraph too long to share the budget (`len(p) + 3 >= max_chars`) is a chunk of its own, never split. */
  lemma OversizedParagraphIsAlone(groups: seq<seq<string>>, paras: seq<string>, maxChars: int, j: nat, i: nat)
    requires GreedyPacking(groups, paras, maxChars) && j < |groups| && i < |groups[j]|
    requires |groups[j][i]| + 3 >= maxChars
    ensures groups[j] == [groups[j][i]]
  {
    var g := groups[j];
    BufferLength(g[..i]);
    assert i == 0;
    assert g[..1][..0] == [];
    assert Buffer(g[..1]) == g[0] + "\n";
    assert |g| == 1;
  }

  lemma ConcatOfNonEmptyGroups(groups: seq<seq<string>>)
    requires NonEmptyGroups(groups)
    ensures Concat(groups) == [] <==> groups == []
  {
    if groups != [] {
      assert |Concat(groups)| == |Concat(groups[..|groups| - 1])| + |groups[|groups| - 1]|;
    }
  }

  /** The chunker's output as the greedy packing promises it: every paragraph in one chunk, in order. */
  lemma ParagraphChunksCoverParagraphs(text: string, maxChars: int, minWords: int)
    ensures var paras := Paragraphs(text, minWords);
      var groups := Groups(paras, maxChars);
      && GreedyPacking(groups, paras, maxChars)
      && |ChunksOf(groups)| == |groups|
      && (paras == [] <==> ChunksOf(groups) == [])
  {
    var paras := Paragraphs(text, minWords);
    GroupsIsGreedy(paras, maxChars);
    ConcatOfNonEmptyGroups(Groups(paras, maxChars));
  }

  const ExampleFirst: string := "Para one about cookies."
  const ExampleSecond: string := "Para two about data sharing."
  const ExampleThird: string := "Short."

  /** No character of `s` starts a blank line. */
  predicate NoNewline(s: string) {
    forall i :: 0 <= i < |s| ==> s[i] != '\n'
  }

  /** Text without newlines, joined at blank lines, is cut back into those texts. */
  lemma SplitThree(p1: string, p2: string, p3: string)
    requires NoNewline(p1) && NoNewline(p2) && NoNewline(p3)
    ensures Split(p1 + ParagraphSeparator + p2 + ParagraphSeparator + p3, ParagraphSeparator) == [p1, p2, p3]
  {
    var sep := ParagraphSeparator;
    var rest := p2 + sep + p3;
    AppendAssoc(p1 + sep, p2, sep);
    AppendAssoc(p1 + sep, p2 + sep, p3);
    SplitAfterLine(p1, rest);
    SplitTwo(p2, p3);
    assert [p1] + [p2, p3] == [p1, p2, p3];
  }

  /** Two texts without newlines, joined at a blank line, are cut back into those texts. */
  lemma SplitTwo(p1: string, p2: string)
    requires NoNewline(p1) && NoNewline(p2)
    ensures Split(p1 + ParagraphSeparator + p2, ParagraphSeparator) == [p1, p2]
  {
    SplitAfterLine(p1, p2);
    assert ParagraphSeparator[0] == '\n';
    SplitWithout(p2, ParagraphSeparator);
  }

  /** A text without newlines followed by a blank line is cut first right after it. */
  lemma SplitAfterLine(a: string, b: string)
    requires NoNewline(a)
    ensures Split(a + ParagraphSeparator + b, ParagraphSeparator) == [a] + Split(b, ParagraphSeparator)
  {
    assert ParagraphSeparator[0] == '\n';
    SplitAfter(a, ParagraphSeparator, b);
  }

  /** Stripped texts without newlines, joined at blank lines, are cut and stripped back into those texts. */
  lemma StripSplitThree(p1: string, p2: string, p3: string)
    requires NoNewline(p1) && NoNewline(p2) && NoNewline(p3)
    requires IsStripped(p1) && IsStripped(p2) && IsStripped(p3)
    ensures StripAll(Split(p1 + ParagraphSeparator + p2 + ParagraphSeparator + p3, ParagraphSeparator)) == [p1, p2, p3]
  {
    SplitThree(p1, p2, p3);
    StripAllOfStripped([p1, p2, p3]);
  }

  /** Each of the first paragraph's pieces is a word. */
  lemma ExampleFirstAreWords()
    ensures AllWords(["Para", "one", "about", "cookies."])
  {
    PrintableIsWord("Para");
    PrintableIsWord("one");
    PrintableIsWord("about");
    PrintableIsWord("cookies.");
  }

  /** The first paragraph's pieces joined by single spaces, one piece at a time. */
  lemma ExampleFirstJoined()
    ensures Join(" ", ["Para", "one", "about", "cookies."]) == "Para" + " " + ("one" + " " + ("about" + " " + "cookies."))
  {
    assert ["Para", "one", "about", "cookies."] == ["Para"] + (["one"] + (["about"] + ["cookies."]));
    JoinCons(" ", "about", ["cookies."]);
    JoinCons(" ", "one", ["about"] + ["cookies."]);
    JoinCons(" ", "Para", ["one"] + (["about"] + ["cookies."]));
  }

  /** The first paragraph spelled as its pieces and the spaces between them. */
  lemma ExampleFirstSpelled()
    ensures ExampleFirst == "Para" + " " + ("one" + " " + ("about" + " " + "cookies."))
  {
  }

  /** The example's first paragraph has four words. */
  lemma ExampleFirstWords()
    ensures |Words(ExampleFirst)| == 4
  {
    var w := ["Para", "one", "about", "cookies."];
    ExampleFirstJoined();
    ExampleFirstSpelled();
    ExampleFirstAreWords();
    WordsOfJoin(w);
  }

  /** Each of the second paragraph's pieces is a word. */
  lemma ExampleSecondAreWords()
    ensures AllWords(["Para", "two", "about", "data", "sharing."])
  {
    PrintableIsWord("Para");
    PrintableIsWord("two");
    PrintableIsWord("about");
    PrintableIsWord("data");
    PrintableIsWord("sharing.");
  }

  /** The second paragraph's pieces joined by single spaces, one piece at a time. */
  lemma ExampleSecondJoined()
    ensures Join(" ", ["Para", "two", "about", "data", "sharing."]) == "Para" + " " + ("two" + " " + ("about" + " " + ("data" + " " + "sharing.")))
  {
    assert ["Para", "two", "about", "data", "sharing."] == ["Para"] + (["two"] + (["about"] + (["data"] + ["sharing."])));
    JoinCons(" ", "data", ["sharing."]);
    JoinCons(" ", "about", ["data"] + ["sharing."]);
    JoinCons(" ", "two", ["about"] + (["data"] + ["sharing."]));
    JoinCons(" ", "Para", ["two"] + (["about"] + (["data"] + ["sharing."])));
  }

  /** The second paragraph spelled as its pieces and the spaces between them. */
  lemma ExampleSecondSpelled()
    ensures ExampleSecond == "Para" + " " + ("two" + " " + ("about" + " " + ("data" + " " + "sharing.")))
  {
  }

  /** The example's second paragraph has five words. */
  lemma ExampleSecondWords()
    ensures |Words(ExampleSecond)| == 5
  {
    var w := ["Para", "two", "about", "data", "sharing."];
    ExampleSecondJoined();
    ExampleSecondSpelled();
    ExampleSecondAreWords();
    WordsOfJoin(w);
  }

  /** The third paragraph is its pieces joined by single spaces. */
  lemma ExampleThirdJoined()
    ensures Join(" ", ["Short."]) == ExampleThird
  {
  }

  /** The example's third paragraph is one word. */
  lemma ExampleThirdWords()
    ensures |Words(ExampleThird)| == 1
  {
    var w := ["Short."];
    ExampleThirdJoined();
    WordsOfJoin(w);
  }

  /** Two paragraphs whose buffer fits the budget form one chunk: the first, a line break, the second. */
  lemma TwoParagraphsShareChunk(p1: string, p2: string, maxChars: int)
    requires IsStripped(p1) && IsStripped(p2) && p1 != [] && p2 != []
    requires |p1| + 1 + |p2| + 2 < maxChars
    ensures ChunksOf(Groups([p1, p2], maxChars)) == [p1 + "\n" + p2]
  {
    TwoParagraphsOneGroup(p1, p2, maxChars);
    BufferOfTwo(p1, p2);
    assert ChunksOf([[p1, p2]])[0] == Strip(Buffer([p1, p2]));
  }

  /** The second paragraph fits the first's buffer, so both land in one group. */
  lemma TwoParagraphsOneGroup(p1: string, p2: string, maxChars: int)
    requires |p1| + 1 + |p2| + 2 < maxChars
    ensures Groups([p1, p2], maxChars) == [[p1, p2]]
  {
    var paras := [p1, p2];
    assert paras[..1] == [p1] && paras[..1][..0] == [];
    assert Groups(paras[..1], maxChars) == [[p1]];
    assert Buffer([p1]) == p1 + "\n" by {
      assert [p1][..0] == [];
    }
    assert paras[|paras| - 1] == p2 && Fits(Buffer([p1]), p2, maxChars);
    assert [[p1]][..0] == [] && [p1] + [p2] == [p1, p2];
  }

  /** The buffer of two stripped paragraphs strips back to them joined by one line break. */
  lemma BufferOfTwo(p1: string, p2: string)
    requires IsStripped(p1) && IsStripped(p2) && p1 != [] && p2 != []
    ensures Strip(Buffer([p1, p2])) == p1 + "\n" + p2
  {
    assert Buffer([p1, p2]) == p1 + "\n" + p2 + "\n" by {
      assert [p1][..0] == [];
      assert Buffer([p1]) == p1 + "\n";
      assert [p1, p2][..1] == [p1];
    }
    assert IsStripped(p1 + "\n" + p2) by {
      JoinEnds("\n", [p1, p2]);
      assert Join("\n", [p1, p2]) == p1 + "\n" + p2 by {
        assert [p1, p2][1..] == [p2];
      }
    }
    StripDropsNewline(p1 + "\n" + p2);
  }

  /** Of three paragraphs cut at blank lines, the two long enough are kept and the short third is dropped. */
  lemma ThirdParagraphDropped(p1: string, p2: string, p3: string, minWords: int)
    requires NoNewline(p1) && NoNewline(p2) && NoNewline(p3)
    requires IsStripped(p1) && IsStripped(p2) && IsStripped(p3)
    requires |Words(p1)| >= minWords && |Words(p2)| >= minWords && |Words(p3)| < minWords
    ensures Paragraphs(p1 + ParagraphSeparator + p2 + ParagraphSeparator + p3, minWords) == [p1, p2]
  {
    StripSplitThree(p1, p2, p3);
    LongEnoughDropsThird(p1, p2, p3, minWords);
  }

  lemma LongEnoughDropsThird(p1: string, p2: string, p3: string, minWords: int)
    requires |Words(p1)| >= minWords && |Words(p2)| >= minWords && |Words(p3)| < minWords
    ensures LongEnough([p1, p2, p3], minWords) == [p1, p2]
  {
    assert LongEnough([p3], minWords) == [] by {
      assert [p3][1..] == [];
    }
    assert LongEnough([p2, p3], minWords) == [p2] by {
      assert [p2, p3][1..] == [p3];
    }
    assert [p1, p2, p3][1..] == [p2, p3];
  }

  /** The three example paragraphs are single stripped lines, and the first two fit 100 characters. */
  lemma ExampleShapes()
    ensures NoNewline(ExampleFirst) && NoNewline(ExampleSecond) && NoNewline(ExampleThird)
    ensures IsStripped(ExampleFirst) && IsStripped(ExampleSecond) && IsStripped(ExampleThird)
    ensures |ExampleFirst| + 1 + |ExampleSecond| + 2 < 100
  {
  }

  /**
   * Three paragraphs, the last of one word, with min_words 4 and max_chars 100: the short one is
   * dropped, and the other two share one chunk, since 24 + 28 + 2 < 100 passes the fit test.
   */
  lemma ThreeParagraphsMakeOneChunk()
    ensures var text := ExampleFirst + ParagraphSeparator + ExampleSecond + ParagraphSeparator + ExampleThird;
      ChunksOf(Groups(Paragraphs(text, 4), 100)) == [ExampleFirst + "\n" + ExampleSecond]
  {
    var p1, p2, p3 := ExampleFirst, ExampleSecond, ExampleThird;
    ExampleShapes();
    ExampleFirstWords();
    ExampleSecondWords();
    ExampleThirdWords();
    ThirdParagraphDropped(p1, p2, p3, 4);
    TwoParagraphsShareChunk(p1, p2, 100);
  }

  /* ---------- retrieval ---------- */

  const RetrievalTopK: int := 8
  const SimilarityThreshold: real := 0.001

  /**
   * `retrieve_relevant_chunks`, selection only: the chunks at RetrievedIndices, in ranking order.
   * `scores[i]` is the cosine similarity of chunk i to the question, given.
   */
  function RetrieveRelevantChunks(chunks: seq<string>, scores: seq<real>, asc: seq<nat>, topK: int, threshold: real): (r: seq<string>)
    requires |scores| == |chunks| && IsArgsort(asc, scores)
    ensures var idx := RetrievedIndices(asc, scores, topK, threshold);
      |r| == |idx| && forall k :: 0 <= k < |r| ==> r[k] == chunks[idx[k]]
  {
    var idx := RetrievedIndices(asc, scores, topK, threshold);
    seq(|idx|, k requires 0 <= k < |idx| => chunks[idx[k]])
  }

  /** The chunks retrieved for one question, with the defaults top_k = 8 and threshold = 0.001. */
  function Relevant(chunks: seq<string>, similarity: (string, string) -> real, question: string): (r: seq<string>)
    ensures |r| <= RetrievalTopK && forall k :: 0 <= k < |r| ==> r[k] in chunks
  {
    var scores := Similarities(similarity, question, chunks);
    RetrieveRelevantChunks(chunks, scores, Argsort(scores), RetrievalTopK, SimilarityThreshold)
  }

  /* ---------- the summary ---------- */

  /** `QUESTIONS`: seven (heading, question) pairs, in the order a to g. */
  const QuestionA: (string, string) := ("a. Type of data collected", "What types of data are collected?")
  const QuestionB: (string, string) := ("b. Purpose of data collection", "What is the purpose of collecting data?")
  const QuestionC: (string, string) := ("c. Data sharing and disclosure", "How is data shared or disclosed?")
  const QuestionD: (string, string) := ("d. User rights and choices", "What rights or choices do users have?")
  const QuestionE: (string, string) := ("e. Data storage and security", "How is data stored and protected?")
  const QuestionF: (string, string) := ("f. Use of cookies and tracking technologies", "How are cookies or tracking technologies used?")
  const QuestionG: (string, string) := ("g. Other important information", "Is there any other important info, such as children\U{2019}s privacy or policy changes?")
  const Questions: seq<(string, string)> := [QuestionA, QuestionB, QuestionC, QuestionD, QuestionE, QuestionF, QuestionG]

  function PromptHead(company: string): string {
    PromptLead + company + PromptInstructions
  }

  const PromptLead: string := "\nYou are a legal assistant AI summarizing a privacy policy for "

  const PromptInstructions: string :=
    ".\nAnswer the following question **only based on the provided text below**.\n"
    + "If the answer is not directly mentioned, say \"Not mentioned.\"\n\nQuestion: "

  const PromptMiddle: string := "\n\nText:\n\"\"\"\n"
  const PromptTail: string :=
    "\n\"\"\"\nPlease Provide a logical and organized answer grounded in the original text and do not fabricate information.\n"

  /** The generation prompt for one question over its combined context: it names the company and carries the question and the context. */
  function SummaryPrompt(company: string, question: string, context: string): (prompt: string)
    ensures Contains(prompt, company) && Contains(prompt, question) && Contains(prompt, context)
  {
    var head := PromptHead(company);
    assert Contains(head, company) by {
      ContainsSelf(company);
      ContainsAppendLeft(PromptLead, company, company);
      ContainsAppendRight(PromptLead + company, PromptInstructions, company);
    }
    var prompt := head + question + PromptMiddle + context + PromptTail;
    FramedCarriesBoth(head, question, PromptMiddle, context, PromptTail);
    ContainsTransitive(prompt, head, company);
    prompt
  }

  /** A text made of some head, the question, some middle, a context and some tail carries the head, the question and the context. */
  lemma FramedCarriesBoth(head: string, question: string, middle: string, context: string, tail: string)
    ensures var text := head + question + middle + context + tail;
      Contains(text, head) && Contains(text, question) && Contains(text, context)
  {
    var text := head + question + middle + context + tail;
    assert text[..|head|] == head;
    assert text[|head|..|head| + |question|] == question;
    assert text[|head| + |question| + |middle|..|head| + |question| + |middle| + |context|] == context;
    assert OccursAt(text, head, 0);
    assert OccursAt(text, question, |head|);
    assert OccursAt(text, context, |head| + |question| + |middle|);
  }

  /** A text made of some head, the question, some middle, the joined chunks and some tail carries them all. */
  lemma FramedCarries(head: string, question: string, middle: string, relevant: seq<string>, tail: string)
    ensures var text := head + question + middle + Join("\n\n", relevant) + tail;
      && Contains(text, question)
      && forall k :: 0 <= k < |relevant| ==> Contains(text, relevant[k])
  {
    var context := Join("\n\n", relevant);
    var front := head + question + middle;
    assert Contains(front, question) by {
      ContainsSelf(question);
      ContainsAppendLeft(head, question, question);
      ContainsAppendRight(head + question, middle, question);
    }
    assert Contains(front + context + tail, question) by {
      ContainsAppendRight(front, context, question);
      ContainsAppendRight(front + context, tail, question);
    }
    forall k | 0 <= k < |relevant|
      ensures Contains(front + context + tail, relevant[k])
    {
      JoinContainsEach("\n\n", relevant, k);
      ContainsAppendLeft(front, context, relevant[k]);
      ContainsAppendRight(front + context, tail, relevant[k]);
    }
  }

  /** The prompt carries the question, and every retrieved chunk through the "\n\n"-joined context. */
  lemma SummaryPromptCarries(company: string, question: string, relevant: seq<string>)
    ensures var prompt := SummaryPrompt(company, question, Join("\n\n", relevant));
      && Contains(prompt, question)
      && forall k :: 0 <= k < |relevant| ==> Contains(prompt, relevant[k])
  {
    FramedCarries(PromptHead(company), question, PromptMiddle, relevant, PromptTail);
  }

  /** What one question contributes: its section, its references, and the prompt sent for it, if any. */
  datatype Answered = Answered(section: string, reference: string, prompt: Option<string>)

  /** A summary section: the heading, a line break, the text. */
  function Section(heading: string, text: string): (section: string)
    ensures |section| > |heading| && section[..|heading| + 1] == heading + "\n"
  {
    var section := heading + "\n" + text;
    assert section[..|heading| + 1] == heading + "\n";
    section
  }

  /** A reference block: "References for", the heading, a colon and a line break, the text. */
  function ReferenceBlock(heading: string, text: string): string {
    "References for " + heading + ":\n" + text
  }

  const NotMentioned: string := "Not mentioned."
  const NoneFound: string := "None found."

  /**
   * What one question contributes: a section under its heading, "Not mentioned." with "None
   * found." and no prompt exactly when nothing was retrieved. Otherwise the one prompt sent is
   * the summary prompt over the retrieved chunks joined by blank lines, carrying the question
   * and every chunk; the section is the stripped reply to that prompt, and the references list
   * every retrieved chunk.
   */
  function AnswerQuestion(company: string, heading: string, question: string, relevant: seq<string>,
                          generate: string -> string): (a: Answered)
    ensures |a.section| > |heading| && a.section[..|heading| + 1] == heading + "\n"
    ensures a.prompt.None? <==> relevant == []
    ensures relevant == [] ==>
      a.section == Section(heading, NotMentioned) && a.reference == ReferenceBlock(heading, NoneFound)
    ensures relevant != [] ==>
      && a.prompt.Some? && Contains(a.prompt.value, question)
      && (forall i :: 0 <= i < |relevant| ==> Contains(a.prompt.value, relevant[i]) && Contains(a.reference, relevant[i]))
      && a.reference == ReferenceBlock(heading, Join("\n---\n", relevant))
    ensures relevant != [] ==>
      && a.prompt == Some(SummaryPrompt(company, question, Join("\n\n", relevant)))
      && a.section == Section(heading, Strip(generate(a.prompt.value)))
  {
    if relevant == [] then
      Answered(Section(heading, NotMentioned), ReferenceBlock(heading, NoneFound), None)
    else
      var prompt := SummaryPrompt(company, question, Join("\n\n", relevant));
      SummaryPromptCarries(company, question, relevant);
      ReferenceBlockCarries(heading, relevant);
      Answered(Section(heading, Strip(generate(prompt))), ReferenceBlock(heading, Join("\n---\n", relevant)), Some(prompt))
  }

  /** The reference block lists every retrieved chunk. */
  lemma ReferenceBlockCarries(heading: string, relevant: seq<string>)
    ensures forall i :: 0 <= i < |relevant| ==> Contains(ReferenceBlock(heading, Join("\n---\n", relevant)), relevant[i])
  {
    var head := "References for " + heading + ":\n";
    forall i | 0 <= i < |relevant|
      ensures Contains(head + Join("\n---\n", relevant), relevant[i])
    {
      JoinContainsEach("\n---\n", relevant, i);
      ContainsAppendLeft(head, Join("\n---\n", relevant), relevant[i]);
    }
  }

  /** The loop body for each (heading, question) pair, in order; `generate` stands for the generation model. */
  function AnswersTo(chunks: seq<string>, company: string, questions: seq<(string, string)>,
                     similarity: (string, string) -> real, generate: string -> string): (answers: seq<Answered>)
    ensures |answers| == |questions|
  {
    seq(|questions|, k requires 0 <= k < |questions| =>
      AnswerQuestion(company, questions[k].0, questions[k].1, Relevant(chunks, similarity, questions[k].1), generate))
  }

  /** The loop body for each of the seven questions, in order. */
  function Answers(chunks: seq<string>, company: string, similarity: (string, string) -> real,
                   generate: string -> string): (answers: seq<Answered>)
    ensures |answers| == |Questions|
  {
    AnswersTo(chunks, company, Questions, similarity, generate)
  }

  function Sections(answers: seq<Answered>): (r: seq<string>)
    ensures |r| == |answers|
  {
    seq(|answers|, k requires 0 <= k < |answers| => answers[k].section)
  }

  function ReferencesOf(answers: seq<Answered>): (r: seq<string>)
    ensures |r| == |answers|
  {
    seq(|answers|, k requires 0 <= k < |answers| => answers[k].reference)
  }

  /** The prompts actually sent, in question order. */
  function Prompts(answers: seq<Answered>): (ps: seq<string>)
    ensures |ps| <= |answers|
  {
    if answers == [] then []
    else
      var last := answers[|answers| - 1];
      Prompts(answers[..|answers| - 1]) + (if last.prompt.Some? then [last.prompt.value] else [])
  }

  /** Every prompt sent is some answer's, and every answer's prompt is sent. */
  lemma {:induction false} PromptsAreTheCalls(answers: seq<Answered>)
    ensures forall p :: p in Prompts(answers) <==> exists k :: 0 <= k < |answers| && answers[k].prompt == Some(p)
    decreases |answers|
  {
    if answers != [] {
      var front := answers[..|answers| - 1];
      var last := answers[|answers| - 1];
      var ps := Prompts(answers);
      PromptsAreTheCalls(front);
      assert ps == Prompts(front) + (if last.prompt.Some? then [last.prompt.value] else []);
      forall p | p in ps
        ensures exists k :: 0 <= k < |answers| && answers[k].prompt == Some(p)
      {
        if p in Prompts(front) {
          var k :| 0 <= k < |front| && front[k].prompt == Some(p);
          assert answers[k].prompt == Some(p);
        } else {
          assert answers[|answers| - 1].prompt == Some(p);
        }
      }
      forall p | exists k :: 0 <= k < |answers| && answers[k].prompt == Some(p)
        ensures p in ps
      {
        var k :| 0 <= k < |answers| && answers[k].prompt == Some(p);
        if k < |front| {
          assert front[k].prompt == Some(p);
        }
      }
    }
  }

  /** No prompt is sent exactly when no answer has one, and one per answer exactly when every answer has one. */
  lemma {:induction false} PromptsCount(answers: seq<Answered>)
    ensures Prompts(answers) == [] <==> forall k :: 0 <= k < |answers| ==> answers[k].prompt.None?
    ensures |Prompts(answers)| == |answers| <==> forall k :: 0 <= k < |answers| ==> answers[k].prompt.Some?
    decreases |answers|
  {
    if answers != [] {
      var front := answers[..|answers| - 1];
      var last := answers[|answers| - 1];
      PromptsCount(front);
      assert forall k :: 0 <= k < |front| ==> front[k] == answers[k];
      assert Prompts(answers) == Prompts(front) + (if last.prompt.Some? then [last.prompt.value] else []);
    }
  }

  /** One question more: each of the three lists the loop keeps grows by that question's part. */
  lemma AnswersSnoc(answers: seq<Answered>, k: nat)
    requires k < |answers|
    ensures Sections(answers[..k + 1]) == Sections(answers[..k]) + [answers[k].section]
    ensures ReferencesOf(answers[..k + 1]) == ReferencesOf(answers[..k]) + [answers[k].reference]
    ensures Prompts(answers[..k + 1]) ==
      Prompts(answers[..k]) + (if answers[k].prompt.Some? then [answers[k].prompt.value] else [])
  {
    assert answers[..k + 1][..k] == answers[..k];
  }

  /**
   * The loop body for one question: retrieve; with nothing retrieved record "Not mentioned." and
   * "None found." and send nothing; otherwise send one prompt and record the stripped reply and
   * the retrieved chunks.
   */
  method AnswerOne(policyChunks: seq<string>, company: string, heading: string, question: string,
                   similarity: (string, string) -> real, generate: string -> string) returns (a: Answered)
    ensures a == AnswerQuestion(company, heading, question, Relevant(policyChunks, similarity, question), generate)
  {
    var relevant := Relevant(policyChunks, similarity, question);
    if relevant == [] {
      a := Answered(Section(heading, NotMentioned), ReferenceBlock(heading, NoneFound), None);
    } else {
      var prompt := SummaryPrompt(company, question, Join("\n\n", relevant));
      var response := generate(prompt);
      a := Answered(Section(heading, Strip(response)), ReferenceBlock(heading, Join("\n---\n", relevant)), Some(prompt));
    }
  }

  /** The loop over the questions: one section and one reference block per question, and a prompt for each that retrieved something. */
  method AnswerEach(policyChunks: seq<string>, company: string, questions: seq<(string, string)>,
                    similarity: (string, string) -> real, generate: string -> string)
    returns (finalSummary: seq<string>, refs: seq<string>, prompts: seq<string>)
    ensures var answers := AnswersTo(policyChunks, company, questions, similarity, generate);
      && finalSummary == Sections(answers)
      && refs == ReferencesOf(answers)
      && prompts == Prompts(answers)
  {
    finalSummary, refs, prompts := [], [], [];
    ghost var answers := AnswersTo(policyChunks, company, questions, similarity, generate);
    for k := 0 to |questions|
      invariant finalSummary == Sections(answers[..k])
      invariant refs == ReferencesOf(answers[..k])
      invariant prompts == Prompts(answers[..k])
    {
      var a := AnswerOne(policyChunks, company, questions[k].0, questions[k].1, similarity, generate);
      assert a == answers[k];
      AnswersSnoc(answers, k);
      finalSummary := finalSummary + [a.section];
      refs := refs + [a.reference];
      if a.prompt.Some? {
        prompts := prompts + [a.prompt.value];
      }
    }
    assert answers[..|questions|] == answers;
  }

  /** What `rag_summarize_with_similarity` returns: the joined summary, the joined references and the URL. */
  datatype Summarized = Summarized(summary: string, references: string, url: string)

  /**
   * `rag_summarize_with_similarity`: for each question in order, retrieve; with nothing retrieved
   * record "Not mentioned." and send nothing; otherwise send one prompt and record the stripped
   * reply and the retrieved chunks.  `prompts` is the trace of the generation calls made.  With
   * no chunk at all, the first retrieval's cosine similarity raises before any generation call.
   */
  method RagSummarize(policyChunks: seq<string>, company: string, originalUrl: string,
                      similarity: (string, string) -> real, generate: string -> string)
    returns (outcome: Result<Summarized, EmbeddingError>, prompts: seq<string>)
    ensures outcome.Failure? <==> policyChunks == []
    ensures outcome.Failure? ==> prompts == []
    ensures outcome.Success? ==> var answers := Answers(policyChunks, company, similarity, generate);
      && outcome.value.summary == Join("\n\n", Sections(answers))
      && outcome.value.references == Join("\n\n", ReferencesOf(answers))
      && outcome.value.url == originalUrl
      && prompts == Prompts(answers)
  {
    // With no chunk at all the first question's similarity raises; nothing has been generated yet.
    if policyChunks == [] {
      return Failure(NoChunkEmbeddings), [];
    }
    var finalSummary, refs;
    finalSummary, refs, prompts := AnswerEach(policyChunks, company, Questions, similarity, generate);
    outcome := Success(Summarized(Join("\n\n", finalSummary), Join("\n\n", refs), originalUrl));
  }

  /** Every section and every reference block appears in the joined summary and references. */
  lemma SummaryCarriesEverySection(chunks: seq<string>, company: string, similarity: (string, string) -> real,
                                   generate: string -> string, k: nat)
    requires k < |Questions|
    ensures var answers := Answers(chunks, company, similarity, generate);
      && Contains(Join("\n\n", Sections(answers)), answers[k].section)
      && Contains(Join("\n\n", ReferencesOf(answers)), answers[k].reference)
  {
    var answers := Answers(chunks, company, similarity, generate);
    JoinContainsEach("\n\n", Sections(answers), k);
    JoinContainsEach("\n\n", ReferencesOf(answers), k);
  }
}
