/**
 * The policy comparator: for each of seven fixed aspects, retrieve the top sliding-window
 * chunks of both policies, file them as citations A1..A7 and B1..B7, and send one prompt
 * carrying every aspect's texts and citation markers to the generation model.
 */
module PolicyComparator {
  import opened Wrappers
  import opened Text
  import opened Ranking
  import opened Chunking
  import opened TextProcessor

  /** The aspects compared, in order. */
  const Aspects: seq<string> := [
    "Data Collection",
    "Data Sharing",
    "User Rights",
    "Cookies",
    "Third-party Data",
    "Data Retention",
    "Security Measures"
  ]

  /** The retrieval query of `get_relevant_sections`. */
  function RetrievalQuery(aspect: string): string {
    "Find information about " + aspect + " in privacy policy"
  }

  /** A citation id, `f"A{n}"` or `f"B{n}"`. */
  function CitationId(side: string, n: nat): string {
    side + NatToString(n)
  }

  /** The marker the prompt carries for a citation id. */
  function Marker(id: string): string {
    "[" + id + "]"
  }

  /** `id` holds neither bracket. */
  predicate BracketFree(id: string) {
    forall i :: 0 <= i < |id| ==> id[i] != '[' && id[i] != ']'
  }

  /** One entry of a citation dictionary, in insertion order. */
  datatype Citation = Citation(id: string, body: string)

  /** One entry of `comparison_data`. */
  datatype AspectEntry = AspectEntry(aspect: string, textA: string, textB: string, citationA: string, citationB: string)

  function ChunkTexts(results: seq<RelevantChunk>): (texts: seq<string>)
    ensures |texts| == |results| && forall k :: 0 <= k < |texts| ==> texts[k] == results[k].chunk
  {
    seq(|results|, k requires 0 <= k < |results| => results[k].chunk)
  }

  /** `get_relevant_sections`: FindRelevantChunks for the aspect's query, with top_k = 3. */
  function RelevantSections(chunks: seq<string>, similarity: (string, string) -> real, aspect: string): seq<RelevantChunk> {
    var scores := Similarities(similarity, RetrievalQuery(aspect), chunks);
    Selected(chunks, scores, TopIndices(Argsort(scores), scores, DefaultTopK))
  }

  /** For each aspect, in order, the retrieved chunk texts joined by one space. */
  function Bodies(chunks: seq<string>, similarity: (string, string) -> real): (bodies: seq<string>)
    ensures |bodies| == |Aspects|
  {
    seq(|Aspects|, i requires 0 <= i < |Aspects| => Join(" ", ChunkTexts(RelevantSections(chunks, similarity, Aspects[i]))))
  }

  /** The citation dictionary of one side: body i (from 0) filed under id `side{i+1}`. */
  function Citations(side: string, bodies: seq<string>): (cs: seq<Citation>)
    ensures |cs| == |bodies|
  {
    seq(|bodies|, i requires 0 <= i < |bodies| => Citation(CitationId(side, i + 1), bodies[i]))
  }

  /** `comparison_data` built from the two citation dictionaries. */
  function Entries(citationsA: seq<Citation>, citationsB: seq<Citation>): (es: seq<AspectEntry>)
    requires |citationsA| == |Aspects| && |citationsB| == |Aspects|
    ensures |es| == |Aspects|
  {
    seq(|Aspects|, i requires 0 <= i < |Aspects| =>
      AspectEntry(Aspects[i], citationsA[i].body, citationsB[i].body, Marker(citationsA[i].id), Marker(citationsB[i].id)))
  }

  /* ---------- the prompt ---------- */

  /** The fixed head of the prompt, naming both platforms in the table header. */
  function Header(platformA: string, platformB: string): string {
    HeaderIntro(platformA, platformB) + TableHeader(platformA, platformB) + HeaderRest
  }

  function HeaderIntro(platformA: string, platformB: string): string {
    IntroLead + platformA + " and " + platformB + IntroTrail
  }

  const IntroLead: string := "\nCompare the privacy policies of "

  const IntroTrail: string :=
    " based on the following extracted sections.\nCreate a detailed comparison table with citations to support each point.\n\n"
    + "Format your response exactly as follows:\n"

  const HeaderRest: string :=
    "\n|---------------|--------------|--------------|\n"
    + "[Table content with citations in format [A1], [B1], etc. Citations must appear exactly once per aspect at the end of each description.]\n\n"
    + "Do NOT generate a summary line of citations at the start or end of your response.\n\n"
    + "Use these sections to create your comparison:\n"

  function TableHeader(platformA: string, platformB: string): string {
    "| Privacy Aspect | " + platformA + " | " + platformB + " |"
  }

  /** The first `+=` of one loop pass: the aspect's heading. */
  function AspectHeading(aspect: string): string {
    "\n\n" + aspect + ":\n"
  }

  /** The second and third `+=`: one platform's text followed by its marker. */
  function PlatformLine(platform: string, text: string, citation: string): string {
    platform + ": " + text + " " + citation + "\n"
  }

  /** What one loop pass of `_build_comparison_prompt` appends for one entry. */
  function AspectSection(platformA: string, platformB: string, e: AspectEntry): string {
    AspectHeading(e.aspect) + PlatformLine(platformA, e.textA, e.citationA) + PlatformLine(platformB, e.textB, e.citationB)
  }

  function SectionsText(platformA: string, platformB: string, entries: seq<AspectEntry>): string {
    if entries == [] then ""
    else SectionsText(platformA, platformB, entries[..|entries| - 1]) + AspectSection(platformA, platformB, entries[|entries| - 1])
  }

  function ComparisonPrompt(platformA: string, platformB: string, entries: seq<AspectEntry>): string {
    Header(platformA, platformB) + SectionsText(platformA, platformB, entries)
  }

  /** The three `+=` of one loop pass append exactly the entry's section. */
  lemma AppendSection(head: string, platformA: string, platformB: string, entries: seq<AspectEntry>, i: nat, before: string)
    requires i < |entries| && before == head + SectionsText(platformA, platformB, entries[..i])
    ensures before + AspectHeading(entries[i].aspect)
      + PlatformLine(platformA, entries[i].textA, entries[i].citationA)
      + PlatformLine(platformB, entries[i].textB, entries[i].citationB)
      == head + SectionsText(platformA, platformB, entries[..i + 1])
  {
    assert entries[..i + 1][..i] == entries[..i];
    assert SectionsText(platformA, platformB, entries[..i + 1])
      == SectionsText(platformA, platformB, entries[..i]) + AspectSection(platformA, platformB, entries[i]);
  }

  /** `_build_comparison_prompt`: the header, then one section per entry, grown with `+=`. */
  method BuildComparisonPrompt(platformA: string, platformB: string, entries: seq<AspectEntry>) returns (prompt: string)
    ensures prompt == ComparisonPrompt(platformA, platformB, entries)
  {
    var head := Header(platformA, platformB);
    prompt := head;
    for i := 0 to |entries|
      invariant prompt == head + SectionsText(platformA, platformB, entries[..i])
    {
      AppendSection(head, platformA, platformB, entries, i, prompt);
      prompt := prompt + AspectHeading(entries[i].aspect);
      prompt := prompt + PlatformLine(platformA, entries[i].textA, entries[i].citationA);
      prompt := prompt + PlatformLine(platformB, entries[i].textB, entries[i].citationB);
    }
    assert entries[..|entries|] == entries;
  }

  /* ---------- the comparison ---------- */

  /** `get_relevant_sections`: the query for the aspect, answered by `find_relevant_chunks` with its default top_k. */
  method GetRelevantSections(aspect: string, chunks: seq<string>, similarity: (string, string) -> real)
    returns (results: Result<seq<RelevantChunk>, EmbeddingError>)
    ensures results.Failure? <==> chunks == []
    ensures results.Success? ==> results.value == RelevantSections(chunks, similarity, aspect)
  {
    results := FindRelevantChunks(RetrievalQuery(aspect), chunks, similarity, DefaultTopK);
  }

  /** The citation the i-th pass files, under the counter `n == i + 1`. */
  lemma FiledCitation(side: string, chunks: seq<string>, similarity: (string, string) -> real, i: nat,
                      filed: seq<Citation>, n: nat, results: seq<RelevantChunk>)
    requires i < |Aspects| && n == i + 1 && results == RelevantSections(chunks, similarity, Aspects[i])
    requires filed == Citations(side, Bodies(chunks, similarity))[..i]
    ensures filed + [Citation(CitationId(side, n), Join(" ", ChunkTexts(results)))]
      == Citations(side, Bodies(chunks, similarity))[..i + 1]
  {
    var bodies := Bodies(chunks, similarity);
    assert bodies[i] == Join(" ", ChunkTexts(results));
    CitationSnoc(side, bodies, i);
  }

  lemma CitationSnoc(side: string, bodies: seq<string>, i: nat)
    requires i < |bodies|
    ensures Citations(side, bodies)[..i] + [Citation(CitationId(side, i + 1), bodies[i])] == Citations(side, bodies)[..i + 1]
  {
    TakeSnoc(Citations(side, bodies), i);
  }

  /** The entry the i-th pass appends to `comparison_data`. */
  lemma FiledEntry(allA: seq<Citation>, allB: seq<Citation>, i: nat, data: seq<AspectEntry>)
    requires |allA| == |Aspects| && |allB| == |Aspects| && i < |Aspects|
    requires data == Entries(allA, allB)[..i]
    ensures data + [AspectEntry(Aspects[i], allA[i].body, allB[i].body, Marker(allA[i].id), Marker(allB[i].id))]
      == Entries(allA, allB)[..i + 1]
  {
    assert Entries(allA, allB)[..i + 1] == Entries(allA, allB)[..i] + [Entries(allA, allB)[i]];
  }

  lemma FiledAll(allA: seq<Citation>, allB: seq<Citation>)
    requires |allA| == |Aspects| && |allB| == |Aspects|
    ensures allA[..|Aspects|] == allA && allB[..|Aspects|] == allB
    ensures Entries(allA, allB)[..|Aspects|] == Entries(allA, allB)
  {
  }

  /**
   * The aspect loop of `compare_policies_gemini`: for each aspect retrieve from A, then from B,
   * file citation `A{n}` and `B{n}` with counters starting at 1, and record the entry.  The first
   * retrieval from a side without chunks raises.
   */
  method FileAspects(chunksA: seq<string>, chunksB: seq<string>, similarity: (string, string) -> real)
    returns (filed: Result<(seq<Citation>, seq<Citation>, seq<AspectEntry>), EmbeddingError>)
    ensures filed.Failure? <==> chunksA == [] || chunksB == []
    ensures filed.Success? ==>
      var allA := Citations("A", Bodies(chunksA, similarity));
      var allB := Citations("B", Bodies(chunksB, similarity));
      filed.value == (allA, allB, Entries(allA, allB))
  {
    ghost var allA := Citations("A", Bodies(chunksA, similarity));
    ghost var allB := Citations("B", Bodies(chunksB, similarity));
    var comparisonData: seq<AspectEntry> := [];
    var citationsA: seq<Citation>, citationsB: seq<Citation> := [], [];
    var counterA, counterB := 1, 1;
    for i := 0 to |Aspects|
      invariant counterA == i + 1 && counterB == i + 1
      invariant citationsA == allA[..i] && citationsB == allB[..i]
      invariant comparisonData == Entries(allA, allB)[..i]
      invariant i > 0 ==> chunksA != [] && chunksB != []
    {
      var aspect := Aspects[i];
      var foundA := GetRelevantSections(aspect, chunksA, similarity);
      if foundA.Failure? {
        return Failure(foundA.error);
      }
      var foundB := GetRelevantSections(aspect, chunksB, similarity);
      if foundB.Failure? {
        return Failure(foundB.error);
      }
      var relevantA, relevantB := foundA.value, foundB.value;
      FiledCitation("A", chunksA, similarity, i, citationsA, counterA, relevantA);
      FiledCitation("B", chunksB, similarity, i, citationsB, counterB, relevantB);
      FiledEntry(allA, allB, i, comparisonData);
      citationsA := citationsA + [Citation(CitationId("A", counterA), Join(" ", ChunkTexts(relevantA)))];
      citationsB := citationsB + [Citation(CitationId("B", counterB), Join(" ", ChunkTexts(relevantB)))];
      comparisonData := comparisonData + [AspectEntry(aspect, citationsA[i].body, citationsB[i].body,
                                                      Marker(citationsA[i].id), Marker(citationsB[i].id))];
      counterA := counterA + 1;
      counterB := counterB + 1;
    }
    FiledAll(allA, allB);
    filed := Success((citationsA, citationsB, comparisonData));
  }

  /** What `compare_policies_gemini` returns: the generated comparison and both citation dictionaries. */
  datatype Compared = Compared(comparison: string, citationsA: seq<Citation>, citationsB: seq<Citation>)

  /**
   * `compare_policies_gemini`, given both policies' texts: chunk both, then for each aspect
   * retrieve from both, file citation `A{n}` and `B{n}` with counters starting at 1, and record
   * the entry; then build the prompt and make exactly one generation call (`prompts` is the trace).
   * A policy without words has no chunk, and the first retrieval from it raises before any
   * generation call.
   */
  method ComparePolicies(platformA: string, platformB: string, policyA: string, policyB: string,
                         similarity: (string, string) -> real, generate: string -> string)
    returns (outcome: Result<Compared, EmbeddingError>, prompts: seq<string>)
    ensures var chunksA := WindowChunks(Words(policyA), ChunkSize, ChunkSize - Overlap);
      var chunksB := WindowChunks(Words(policyB), ChunkSize, ChunkSize - Overlap);
      && (outcome.Failure? <==> chunksA == [] || chunksB == [])
      && (outcome.Failure? ==> prompts == [])
      && (outcome.Success? ==>
            && outcome.value.citationsA == Citations("A", Bodies(chunksA, similarity))
            && outcome.value.citationsB == Citations("B", Bodies(chunksB, similarity))
            && prompts == [ComparisonPrompt(platformA, platformB, Entries(outcome.value.citationsA, outcome.value.citationsB))]
            && outcome.value.comparison == generate(prompts[0]))
  {
    var chunksA := CreateChunks(policyA);
    var chunksB := CreateChunks(policyB);
    var filed := FileAspects(chunksA, chunksB, similarity);
    if filed.Failure? {
      return Failure(filed.error), [];
    }
    var (citationsA, citationsB, comparisonData) := filed.value;
    var prompt := BuildComparisonPrompt(platformA, platformB, comparisonData);
    var comparison := generate(prompt);
    prompts := [prompt];
    outcome := Success(Compared(comparison, citationsA, citationsB));
  }

  /* ---------- what the bookkeeping promises ---------- */

  lemma CitationIdInjective(side: string, m: nat, n: nat)
    requires CitationId(side, m) == CitationId(side, n)
    ensures m == n
  {
    assert NatToString(m) == CitationId(side, m)[|side|..];
    assert NatToString(n) == CitationId(side, n)[|side|..];
    NatToStringInjective(m, n);
  }

  /** Ids of different counters differ, and contain no bracket when the side does not. */
  lemma CitationIdsDiffer(side: string, m: nat, n: nat)
    requires BracketFree(side)
    ensures m != n ==> CitationId(side, m) != CitationId(side, n)
    ensures BracketFree(CitationId(side, m))
  {
    if CitationId(side, m) == CitationId(side, n) {
      CitationIdInjective(side, m, n);
    }
    var digits := NatToString(m);
    assert forall k :: 0 <= k < |digits| ==> IsDigit(digits[k]);
  }

  /** The i-th citation (from 0) of a side has id `side{i+1}`; the ids are pairwise distinct and bracket-free. */
  lemma CitationIdsAreDistinct(side: string, bodies: seq<string>)
    requires BracketFree(side)
    ensures var cs := Citations(side, bodies);
      && (forall i :: 0 <= i < |cs| ==> cs[i].id == side + NatToString(i + 1) && BracketFree(cs[i].id))
      && (forall i, j :: 0 <= i < j < |cs| ==> cs[i].id != cs[j].id)
  {
    var cs := Citations(side, bodies);
    forall i, j | 0 <= i < |cs| && 0 <= j < |cs|
      ensures i != j ==> cs[i].id != cs[j].id
      ensures BracketFree(cs[i].id)
    {
      assert cs[i].id == CitationId(side, i + 1) && cs[j].id == CitationId(side, j + 1);
      CitationIdsDiffer(side, i + 1, j + 1);
    }
  }

  /** Each citation body is the space-joined chunk texts of a top-3 ranking of the chunks for the aspect's query. */
  lemma CitationBodiesAreRankings(side: string, chunks: seq<string>, similarity: (string, string) -> real, i: nat)
    requires i < |Aspects|
    ensures var scores := Similarities(similarity, RetrievalQuery(Aspects[i]), chunks);
      var results := RelevantSections(chunks, similarity, Aspects[i]);
      && IsTopRanking(results, chunks, scores, DefaultTopK)
      && Citations(side, Bodies(chunks, similarity))[i].body == Join(" ", ChunkTexts(results))
  {
    var scores := Similarities(similarity, RetrievalQuery(Aspects[i]), chunks);
    SelectedIsTopRanking(chunks, scores, Argsort(scores), DefaultTopK);
  }

  /** Entry i carries aspect i, the bodies filed under its two ids, and exactly their markers. */
  lemma EntriesMatchCitations(citationsA: seq<Citation>, citationsB: seq<Citation>, i: nat)
    requires |citationsA| == |Aspects| && |citationsB| == |Aspects| && i < |Aspects|
    ensures var e := Entries(citationsA, citationsB)[i];
      && e.aspect == Aspects[i]
      && e.textA == citationsA[i].body && e.textB == citationsB[i].body
      && e.citationA == "[" + citationsA[i].id + "]" && e.citationB == "[" + citationsB[i].id + "]"
  {
  }

  lemma {:induction false} SectionsTextCarries(platformA: string, platformB: string, entries: seq<AspectEntry>, i: nat)
    requires i < |entries|
    ensures Contains(SectionsText(platformA, platformB, entries), AspectSection(platformA, platformB, entries[i]))
    decreases |entries|
  {
    var front := entries[..|entries| - 1];
    var section := AspectSection(platformA, platformB, entries[|entries| - 1]);
    if i < |front| {
      SectionsTextCarries(platformA, platformB, front, i);
      assert front[i] == entries[i];
      ContainsAppendRight(SectionsText(platformA, platformB, front), section, AspectSection(platformA, platformB, entries[i]));
    } else {
      ContainsSelf(section);
      ContainsAppendLeft(SectionsText(platformA, platformB, front), section, section);
    }
  }

  /** A platform line carries its text and its marker. */
  lemma PlatformLineCarries(platform: string, text: string, citation: string)
    ensures Contains(PlatformLine(platform, text, citation), text)
    ensures Contains(PlatformLine(platform, text, citation), citation)
  {
    var lead := platform + ": ";
    ContainsSelf(text);
    ContainsAppendLeft(lead, text, text);
    ContainsAppendRight(lead + text, " ", text);
    ContainsAppendRight(lead + text + " ", citation, text);
    ContainsAppendRight(lead + text + " " + citation, "\n", text);
    ContainsSelf(citation);
    ContainsAppendLeft(lead + text + " ", citation, citation);
    ContainsAppendRight(lead + text + " " + citation, "\n", citation);
  }

  /** A section carries its entry's aspect, both texts and both markers. */
  lemma AspectSectionCarries(platformA: string, platformB: string, e: AspectEntry)
    ensures var s := AspectSection(platformA, platformB, e);
      Contains(s, e.citationA) && Contains(s, e.citationB) && Contains(s, e.textA) && Contains(s, e.textB)
  {
    var heading := AspectHeading(e.aspect);
    var lineA := PlatformLine(platformA, e.textA, e.citationA);
    var lineB := PlatformLine(platformB, e.textB, e.citationB);
    PlatformLineCarries(platformA, e.textA, e.citationA);
    PlatformLineCarries(platformB, e.textB, e.citationB);
    ContainsAppendLeft(heading, lineA, e.textA);
    ContainsAppendRight(heading + lineA, lineB, e.textA);
    ContainsAppendLeft(heading, lineA, e.citationA);
    ContainsAppendRight(heading + lineA, lineB, e.citationA);
    ContainsAppendLeft(heading + lineA, lineB, e.textB);
    ContainsAppendLeft(heading + lineA, lineB, e.citationB);
  }

  /** The prompt names both platforms in its table header. */
  lemma PromptNamesPlatforms(platformA: string, platformB: string, entries: seq<AspectEntry>)
    ensures Contains(ComparisonPrompt(platformA, platformB, entries), TableHeader(platformA, platformB))
  {
    var intro := HeaderIntro(platformA, platformB);
    var table := TableHeader(platformA, platformB);
    ContainsSelf(table);
    ContainsAppendLeft(intro, table, table);
    ContainsAppendRight(intro + table, HeaderRest, table);
    ContainsAppendRight(Header(platformA, platformB), SectionsText(platformA, platformB, entries), table);
  }

  /** The prompt carries every entry's section, both its texts and both its markers. */
  lemma PromptCarriesEntries(platformA: string, platformB: string, entries: seq<AspectEntry>, i: nat)
    requires i < |entries|
    ensures var prompt := ComparisonPrompt(platformA, platformB, entries);
      && Contains(prompt, AspectSection(platformA, platformB, entries[i]))
      && Contains(prompt, entries[i].citationA) && Contains(prompt, entries[i].citationB)
      && Contains(prompt, entries[i].textA) && Contains(prompt, entries[i].textB)
  {
    var prompt := ComparisonPrompt(platformA, platformB, entries);
    var section := AspectSection(platformA, platformB, entries[i]);
    SectionsTextCarries(platformA, platformB, entries, i);
    ContainsAppendLeft(Header(platformA, platformB), SectionsText(platformA, platformB, entries), section);
    AspectSectionCarries(platformA, platformB, entries[i]);
    ContainsTransitive(prompt, section, entries[i].citationA);
    ContainsTransitive(prompt, section, entries[i].citationB);
    ContainsTransitive(prompt, section, entries[i].textA);
    ContainsTransitive(prompt, section, entries[i].textB);
  }
}
