# Privacy-policy RAG text handling, modelled in Dafny

This project models the text-handling half of a privacy-policy assistant that answers
questions about a policy, summarises it, and compares two policies, each by
retrieval-augmented generation. It covers:

- the three chunkers:
  - fixed 500-word windows for question answering;
  - sliding windows of 200 words, advancing by 150, for the comparison;
  - greedy paragraph packing under a character budget for the summary;
- the top-k selections over a score vector;
- the comparison's citation bookkeeping (`A1..A7`, `B1..B7`) and its prompt;
- the rewriting of `[id]` markers into `[id](#lower(id))` links, and the same-platform guard;
- the summary's per-question assembly, where a question with no retrieved chunk gets
  "Not mentioned." and no generation call;
- the answer extraction from the generation service's JSON reply;
- the stage order of the question-answering pipeline;
- the platform-list merge and the platform id of the application.

The embedding model, the vector index, the HTTP downloads and the generation model are
parameters. A similarity is a function `(query, chunk) -> real`. The vector search is a
function from chunks and question to labels. The generator is a function `prompt -> text`.
The summary and comparison pipelines return the list of prompts they sent, so "no generation
call" is the statement `prompts == []` there. In the question-answering pipeline the one
generation call is its last stage, so an error in an earlier stage means no call.

Modules, one per source file or shared piece:

| file | module | models |
|---|---|---|
| `wrappers.dfy` | `Wrappers` | Option / Result, for raised exceptions |
| `text.dfy` | `Text` | Python's `str.split()`, `split(sep)`, `strip`, `join`, `replace`, `lower`, `str(n)` |
| `ranking.dfy` | `Ranking` | `numpy.argsort`, Python slicing, the two top-k selections |
| `chunking.dfy` | `Chunking` | the word-window loop both word chunkers share |
| `text_processor.dfy` | `TextProcessor` | `src/comparison/src/text_processor.py` |
| `qa.dfy` | `Qa` | `src/qa/qa.py` |
| `summary.dfy` | `Summary` | `src/summary/summary.py` |
| `policy_comparator.dfy` | `PolicyComparator` | `src/comparison/src/policy_comparator.py` |
| `app.dfy` | `App` | `app.py` and `src/comparison/app.py` (the two share the rewrite and the guard) |

Behaviour of the code worth knowing:

- The chunkers return an empty list for an empty or all-whitespace text. They do not raise.
- With no chunk at all, the summary and the comparison raise at their first similarity
  computation, before any generation call. Encoding an empty list gives an empty one-axis
  array, and sklearn's `cosine_similarity` and `np.dot` reject it. The model returns
  `NoChunkEmbeddings` there. This is read from the libraries' documented checks.
- The sliding-window step is the fixed 150. There is no check that the overlap is smaller than the window.
- The summary only retrieves per question. Every question goes through the same top-8 and
  threshold selection over all the chunks.
- Ties between equal scores are not broken by chunk index. `numpy.argsort` promises no tie
  order, so every selection is proved for any valid argsort.
- The summary's threshold is strict (`>`), and it filters after the truncation to top k.
- The paragraphs "Para one about cookies.", "Para two about data sharing." and "Short.",
  with min_words 4 and max_chars 100, give one chunk. The short one is dropped, and the
  other two are packed together because 24 + 28 + 2 < 100 passes the fit test
  (`Summary.ThreeParagraphsMakeOneChunk`).
- In `find_relevant_chunks`, `top_k = 0` returns every chunk, because `a[-0:]` is the whole array.

## Model

| member | source | states |
|---|---|---|
| `Text.Words` | src/qa/qa.py:70 | `str.split()` yields only non-empty runs of non-whitespace characters |
| `Text.WordsOfJoin` | src/qa/qa.py:70-73 | splitting the space-joined words of a window gives the same words back |
| `Text.Split` | src/summary/summary.py:25 | `text.split(sep)` always gives at least one part |
| `Text.SplitAbsent` | src/summary/summary.py:25 | a text without the separator is its own single part |
| `Text.SplitJoin` | src/summary/summary.py:25 | joining the parts of `text.split("\n\n")` with the separator gives the text back |
| `Text.SplitPartsAvoidSeparator` | src/summary/summary.py:25 | no part of the split contains the separator |
| `Text.SplitAfter` | src/summary/summary.py:25 | a text cut at a first separator splits into the part before it, then the split of the rest |
| `Text.Strip` | src/summary/summary.py:25 | `p.strip()` neither starts nor ends with whitespace, is no longer than `p`, and leaves a stripped text as it is |
| `Text.ReplaceAbsent` | app.py:371-374 | a text without the pattern is left unchanged |
| `Text.ReplaceIntroduces` | app.py:371-374 | a text that contains the pattern contains the replacement afterwards |
| `Text.ReplaceIsJoinOfSplit` | app.py:371-374 | `str.replace` puts the replacement exactly where `split` cuts, at leftmost non-overlapping matches |
| `Text.NatToStringInjective` | src/comparison/src/policy_comparator.py:49-50 | different counters give different decimal spellings, so `A{n}` keys never collide |
| `Text.Lower` | app.py:373 | the lowered text has the same length and lowers each ASCII capital in place |
| `Ranking.Argsort` | src/comparison/src/text_processor.py:29 | result is a valid `argsort`: each index once, scores non-decreasing |
| `Ranking.RankingPrefix` | src/comparison/src/text_processor.py:29 | any prefix of the reversed argsort has distinct indices and non-increasing scores, and no index outside it scores higher |
| `Ranking.AboveOfDescendingIsPrefix` | src/summary/summary.py:87 | on a descending ranking, the threshold filter keeps a prefix and drops only scores at or below the threshold |
| `Ranking.TopIndices` | src/comparison/src/text_processor.py:29 | `argsort[-top_k:][::-1]` keeps min(top_k, n) indices for top_k >= 1, all of them for top_k = 0 or top_k >= n; they are distinct, descending, and dominate every omitted index |
| `Ranking.RetrievedFacts` | src/summary/summary.py:86-87 | the thresholded top-k slice of a descending ranking is its own prefix, and every cut index scores at or below the threshold |
| `Ranking.RetrievedIndices` | src/summary/summary.py:86-87 | at most top_k indices, each scoring strictly above the threshold, descending, a prefix of the ranking; every top-k index left out is at or below the threshold |
| `Chunking.WindowChunks` | src/comparison/src/text_processor.py:16-18 | no more chunks than words, and no chunks exactly when there are no words |
| `Chunking.Windows` | src/qa/qa.py:72-74 | the `for i in range(0, len(words), step)` loop appending `' '.join(words[i:i+size])` builds exactly the reference window chunking |
| `Chunking.WindowChunksShape` | src/comparison/src/text_processor.py:16-18 | chunk k splits into `words[k*step : k*step+size]`, and there is one chunk per start below the word count |
| `Chunking.ChunkCount` | src/comparison/src/text_processor.py:13-20 | the chunk count is ceil(n / step); no words give no chunks |
| `Chunking.ChunkSizes` | src/qa/qa.py:72-73 | every chunk has 1 to size words, and every chunk but the last has at least step words (exactly m when size = step = m) |
| `Chunking.ConsecutiveChunksOverlap` | src/comparison/src/text_processor.py:16-17 | chunk k+1 begins with the words chunk k holds after its first 150 (its last 50, or all of chunk k+1 when that is shorter) |
| `Chunking.EveryWordCovered` | src/comparison/src/text_processor.py:16-18 | word j is word j mod step of chunk j div step, so every word lies in some chunk |
| `Chunking.WindowChunksRoundTrip` | src/qa/qa.py:70-74 | without overlap, the chunks' words concatenated are exactly the text's words |
| `TextProcessor.CreateChunks` | src/comparison/src/text_processor.py:12-20 | the chunks are exactly the 200/150 window chunking of the text's words: one per start below the word count, each splitting back into its window |
| `TextProcessor.SelectedIsTopRanking` | src/comparison/src/text_processor.py:29-37 | the entries hold in-range, distinct indices with their own chunk and score, non-increasing, and no omitted chunk scores higher |
| `TextProcessor.CollectEntries` | src/comparison/src/text_processor.py:31-37 | the append loop gives, in order, one entry per top index with that index's chunk and score |
| `TextProcessor.FindRelevantChunks` | src/comparison/src/text_processor.py:25-39 | with no chunks the similarity raises; otherwise the append loop returns the entries for the top-k indices, a top ranking of the chunks for the query |
| `Qa.LoadPolicyLink` | src/qa/qa.py:41-53 | succeeds exactly when the decoded JSON is a string, and returns that string; a missing file or a non-string raises |
| `Qa.LoadDocument` | src/qa/qa.py:55-63 | succeeds exactly on status 200, with the body |
| `Qa.ChunkText` | src/qa/qa.py:65-76 | a size of 0 raises as `range()` does, a negative size yields no chunks, and otherwise the chunks are the window chunking with size and step both max_chunk_size |
| `Qa.PickChunks` | src/qa/qa.py:99 | `chunks[i]` for each label, negative labels counting from the end; a label outside -n..n-1 raises |
| `Qa.GenerationInput` | src/qa/qa.py:108-109 | the input carries the question and every chunk, and ends with the chunks joined by spaces after "question: " + q + " context: " |
| `Qa.ExtractAnswer` | src/qa/qa.py:136-147 | a non-200 status raises with that status; any returned answer is truthy, never an empty string |
| `Qa.ExtractAnswerFollowsPath` | src/qa/qa.py:142-147 | with all the `.get` defaults, an answer is returned exactly when status is 200 and `candidates[0].content.parts[0].text` is present and non-empty, and it is that text |
| `Qa.ExtractAnswerOfReply` | src/qa/qa.py:142-147 | a well-formed reply with non-empty text gives that text; with empty text it raises |
| `Qa.LookupFindsLast` | src/qa/qa.py:142-143 | a key lookup in a decoded object finds the last member with that key |
| `Qa.RunQa` | src/qa/qa.py:180-187 | the stages run link, fetch, chunk, index, retrieve, generate in order; an error stops in the stage that raised it; success returns the answer for the fetched document and the link |
| `Qa.AnswerDocument` | src/qa/qa.py:183-186 | the stages after the download give exactly the answer the chunks, the search and the reply determine |
| `Summary.Paragraphs` | src/summary/summary.py:25-27 | every kept paragraph is stripped and has at least min_words words |
| `Summary.StripAllOfStripped` | src/summary/summary.py:25 | stripping parts that are already stripped changes none of them |
| `Summary.LongEnough` | src/summary/summary.py:27 | keeps no more paragraphs than it is given |
| `Summary.LongEnoughKeepsExactly` | src/summary/summary.py:27 | keeps only paragraphs with at least min_words words, and every such paragraph |
| `Summary.ParagraphsFilter` | src/summary/summary.py:25-27 | the paragraphs are stripped parts of the split, and every stripped part with enough words is one |
| `Summary.LongEnoughKeepsOrder` | src/summary/summary.py:27 | the filter of two lists joined is the two filters joined, so the kept paragraphs stay in text order |
| `Summary.GroupsIsGreedy` | src/summary/summary.py:32-42 | the packing holds every kept paragraph once, in order; each later paragraph of a chunk fitted; the first paragraph of each later chunk failed the fit test against the previous buffer |
| `Summary.GreedyPackingIsUnique` | src/summary/summary.py:32-42 | any grouping with those greedy properties is the reference packing |
| `Summary.PackParagraphs` | src/summary/summary.py:29-42 | the loop over `current_chunk` yields one stripped buffer per group of the reference packing |
| `Summary.ChunkByParagraph` | src/summary/summary.py:24-48 | `chunk_text_by_paragraph` is the packing of the kept paragraphs |
| `Summary.ChunkPolicy` | src/summary/summary.py:143 | with the defaults max_chars 1000 and min_words 4, there are no chunks exactly when no paragraph qualifies, and each chunk is its group's paragraphs joined by "\n" and is not empty |
| `Summary.ChunkIsJoinedParagraphs` | src/summary/summary.py:34-42 | with min_words >= 1, each chunk is its paragraphs joined by "\n" and is not empty |
| `Summary.PackedChunkFitsBudget` | src/summary/summary.py:33-34 | a chunk of two or more paragraphs is shorter than max_chars - 2 |
| `Summary.OversizedParagraphIsAlone` | src/summary/summary.py:33-38 | a paragraph with len + 3 >= max_chars is a chunk on its own, never split |
| `Summary.ParagraphChunksCoverParagraphs` | src/summary/summary.py:27-42 | the packing is greedy, and there are no chunks exactly when no paragraph qualifies |
| `Summary.TwoParagraphsShareChunk` | src/summary/summary.py:32-42 | two stripped paragraphs with len1 + 1 + len2 + 2 < max_chars make one chunk, joined by "\n" |
| `Summary.ThirdParagraphDropped` | src/summary/summary.py:25-27 | of three single-line paragraphs separated by "\n\n", a last one with too few words is dropped and the other two are kept in order |
| `Summary.ThreeParagraphsMakeOneChunk` | src/summary/summary.py:24-48 | "Para one about cookies.", "Para two about data sharing.", "Short." with min_words 4 and max_chars 100 give the single chunk of the first two |
| `Summary.RetrieveRelevantChunks` | src/summary/summary.py:77-87 | returns the chunks at the retrieved indices, in ranking order |
| `Summary.SummaryPrompt` | src/summary/summary.py:108-121 | the prompt names the company and carries the question and the whole context |
| `Summary.SummaryPromptCarries` | src/summary/summary.py:108-121 | the prompt carries the question and every retrieved chunk |
| `Summary.AnswerQuestion` | src/summary/summary.py:103-125 | no retrieved chunk gives "Not mentioned." with "None found." and no prompt; otherwise the one prompt sent is the summary prompt over the chunks joined by "\n\n", carrying the question and every chunk, the section is the heading, "\n" and the stripped reply to that prompt, and the references list the chunks joined by "\n---\n" |
| `Summary.AnswerOne` | src/summary/summary.py:100-125 | one loop turn gives the answer for the question's retrieved chunks |
| `Summary.AnswerEach` | src/summary/summary.py:98-125 | the loop over the questions gives the sections, the reference blocks and the prompts of the answers, in question order |
| `Summary.PromptsAreTheCalls` | src/summary/summary.py:103-123 | the prompts sent are exactly those of the answers that made a generation call |
| `Summary.PromptsCount` | src/summary/summary.py:103-123 | no prompt is sent exactly when no question retrieved a chunk, and one per question exactly when every question did |
| `Summary.RagSummarize` | src/summary/summary.py:91-127 | with no chunks the first similarity raises and nothing is generated; otherwise one section and one reference block per question a to g, joined by "\n\n", and exactly one prompt per question that retrieved something |
| `Summary.SummaryCarriesEverySection` | src/summary/summary.py:127 | every section and reference block appears in the joined output |
| `PolicyComparator.GetRelevantSections` | src/comparison/src/policy_comparator.py:26-32 | with no chunks the similarity raises; otherwise top-3 retrieval for "Find information about {aspect} in privacy policy" |
| `PolicyComparator.BuildComparisonPrompt` | src/comparison/src/policy_comparator.py:74-94 | the `+=` loop yields the header then, per entry in order, "\n\n{aspect}:\n{a}: {textA} [Ai]\n{b}: {textB} [Bi]\n" |
| `PolicyComparator.FileAspects` | src/comparison/src/policy_comparator.py:41-61 | the aspect loop raises exactly when a side has no chunks; otherwise it files the citations `A1..A7`, `B1..B7` and the entries that pair them |
| `PolicyComparator.ComparePolicies` | src/comparison/src/policy_comparator.py:34-72 | an empty policy on either side raises before any generation call; otherwise citations are A1..A7 and B1..B7 over both policies' 200/150 chunks, comparison data pairs them, exactly one generation call is made, and the maps are returned unchanged |
| `PolicyComparator.CitationIdsAreDistinct` | src/comparison/src/policy_comparator.py:43-61 | the i-th citation id is side + str(i+1); ids are distinct and bracket-free |
| `PolicyComparator.CitationBodiesAreRankings` | src/comparison/src/policy_comparator.py:49-50 | each body is the space-joined chunk texts of a top-3 ranking for the aspect's query |
| `PolicyComparator.EntriesMatchCitations` | src/comparison/src/policy_comparator.py:52-58 | entry i carries aspect i, the two stored bodies, and the markers "[Ai]" and "[Bi]" |
| `PolicyComparator.PromptNamesPlatforms` | src/comparison/src/policy_comparator.py:80-81 | the prompt contains the table header naming both platforms |
| `PolicyComparator.PromptCarriesEntries` | src/comparison/src/policy_comparator.py:89-92 | the prompt contains every entry's section, both texts and both markers |
| `App.LinkCitations` | app.py:369-380 | the two loops apply one replace per A id, then one per B id |
| `App.LinkSide` | app.py:370-374 | one loop applies, in order, one replace per id of the dictionary |
| `App.RewriteReplacesEveryMarker` | app.py:371-374 | each marker occurrence becomes the link, and nothing else changes |
| `App.RewriteAll` | app.py:369-380 | text holding none of the markers comes out unchanged |
| `App.MarkerNotInsideOther` | app.py:371-379 | the bracketed marker of one id never occurs inside another id's marker |
| `App.ReplaceKeepsOtherMarker` | app.py:371-374 | rewriting one bracket-free id keeps every occurrence of another id's marker |
| `App.ReplaceAddsNoOtherMarker` | app.py:371-374 | rewriting one bracket-free id creates no marker of another id |
| `App.OtherIdLeavesMarker` | src/comparison/app.py:50-59 | in any text, rewriting `[A1]` leaves `[A10]` (any other id of the side) present exactly when it was |
| `App.ForeignMarkerUnchanged` | app.py:369-380 | in any text, after the whole rewrite a marker whose id is in no map is present exactly when it was before |
| `App.ReplaceKeepsOtherLink` | app.py:371-374 | rewriting one bracket-free id keeps every link of another id the text holds |
| `App.RewriteAllAppend` | app.py:369-380 | the A loop followed by the B loop is one rewrite over the A ids then the B ids |
| `App.MarkerBecomesLink` | app.py:369-380 | with distinct bracket-free ids, every marker of an id that the text holds is present as that id's link after the whole rewrite |
| `App.MarkersBecomeLinks` | app.py:369-380 | after two rewrite loops over distinct bracket-free ids, each marker the text held is present as its link |
| `App.ComparisonIdsAreDistinct` | src/comparison/src/policy_comparator.py:49-50 | the A ids followed by the B ids are bracket-free and pairwise different |
| `App.EveryCitationBecomesLink` | src/comparison/app.py:48-60 | after both loops, every `[id]` of either dictionary that the generated comparison holds appears as its link `[id](#lower(id))` |
| `App.LinkTargetIsAnchor` | app.py:373-394 | the link target and the emitted anchor id are both lower(side) + str(n) |
| `App.LinkTargetsDiffer` | src/comparison/app.py:53-70 | two citation ids on sides of equal length link to different anchors unless both the lowered side and the number agree |
| `App.SameSideTargetsDiffer` | src/comparison/app.py:50-70 | two citations of one side link to different anchors |
| `App.CrossSideTargetsDiffer` | src/comparison/app.py:50-70 | a citation of A and one of B link to different anchors |
| `App.LinkTargetsAreDistinct` | src/comparison/app.py:50-70 | all ids of the A and B maps have pairwise different lowered link targets, so no two citations share an anchor |
| `App.RunComparison` | src/comparison/app.py:41-74 | equal platforms give the error and no generation call; an empty policy raises with no generation call; otherwise the linked comparison and both anchor lists |
| `App.SortedSetIsSortedSet` | app.py:245 | `sorted(set(xs))` is strictly increasing and has exactly the members of xs |
| `App.StrictlySortedUnique` | app.py:245 | two strictly sorted lists with the same members are equal |
| `App.MergePlatforms` | app.py:242-250 | empty first list uses the second; both non-empty give the sorted set union; both empty stop the app |
| `App.PlatformId` | app.py:276 | the QA platform id is the name lowercased with each space turned into "_" |

## Left out

- Embeddings and similarity: the SentenceTransformer encoding, sklearn cosine and `np.dot`
  are one given function from query and chunk to a real score. Scores are not computed.
- The FAISS index build and search are one given function from chunks and question to labels.
  The model does model what `chunks[i]` does with those labels.
- Floating point: scores are `real`, and the float32 conversions and L2 normalisation are not modelled.
- `numpy.argsort` tie order is not modelled. The pipelines use one valid argsort. The
  properties hold for every valid argsort.
- Network I/O: the downloads are given responses. The generation calls are a given function,
  so errors raised by the generation library in the summary and comparison are not modelled.
  Timeouts are not modelled; the code sets none.
- The JSON payload that wraps the question-answering input (system instruction and headers) is
  not modelled. Only the user text and the response parsing are.
- `load_policy_link`'s file reading is a given function. A missing or undecodable file is one
  error, `LinkFileMissing`.
- CSV, pandas and file loading are not modelled: `policy_loader.py`, `get_file_name.py`,
  `summarize_policy_for_platform`, the CSV lookups in `app.py`, and the DataFrame row selection
  in `compare_policies_gemini`. The comparison takes the two policy texts directly.
- The Streamlit layout, widgets and CSS, the argparse and dotenv setup, `print` progress
  messages, and the commented-out code are not modelled.
- `Text.IsWhitespace` is the fixed set of characters CPython's `str.isspace()` accepts. The
  proofs rely only on ' ' and '\n' being in it and on digits, letters and brackets not being in it.
- `App.PlatformId`: lowers the ASCII letters of the display name only, as `Text.Lower` does, and keeps the length. Python's `str.lower()` also lowers other Unicode capitals, and for some (such as 'İ') returns two characters. Platform names come from the CSV and from file names, so for a name with non-ASCII capitals the model's id differs from the code's.
- `Text.Lower`: lowers the ASCII letters only. Python's `str.lower()` also lowers other
  Unicode letters. Citation ids are ASCII.
- `Summary.Relevant` is the retrieval with the defaults (top_k 8, threshold 0.001). Its own
  contract states only the bound and membership. The ordering and threshold facts are
  `Ranking.RetrievedIndices`.
- The question-answering tab of `app.py` (lines 272-296) repeats the stages of `main`. Only
  its platform-id normalisation is modelled separately.
