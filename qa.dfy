/**
 * The question-answering pipeline: read the policy's link, download the policy text, cut it
 * into fixed-size word chunks, retrieve the chunks nearest to the question, and ask the
 * generation service once.  The link file, the download, the vector search and the
 * generation service are parameters (oracles); what the pipeline does with their answers is
 * modelled.
 */
module Qa {
  import opened Wrappers
  import opened Text
  import opened Chunking

  /** The exceptions the pipeline raises, one per cause. */
  datatype QaError =
    | LinkFileMissing               // the policy's link file cannot be opened or decoded
    | InvalidLinkFormat             // the link file holds JSON that is not a string
    | DocumentNotLoaded(status: int)
    | StepZero                      // `range(0, n, 0)`
    | EmptyIndex                    // no chunk to embed: the embedding matrix has no second axis
    | ChunkIndexOutOfRange(position: int)
    | ApiFailed(status: int)
    | MalformedResponse             // `.get` or `[0]` applied to a value that has neither
    | NoAnswer

  /** The stages of the pipeline, in the order it runs them. */
  datatype Stage = LinkStage | FetchStage | ChunkStage | IndexStage | RetrieveStage | GenerateStage

  const QaStages: seq<Stage> := [LinkStage, FetchStage, ChunkStage, IndexStage, RetrieveStage, GenerateStage]

  /** The stage whose step raises each error. */
  function RaisedBy(e: QaError): Stage {
    match e
    case LinkFileMissing => LinkStage
    case InvalidLinkFormat => LinkStage
    case DocumentNotLoaded(_) => FetchStage
    case StepZero => ChunkStage
    case EmptyIndex => IndexStage
    case ChunkIndexOutOfRange(_) => RetrieveStage
    case ApiFailed(_) => GenerateStage
    case MalformedResponse => GenerateStage
    case NoAnswer => GenerateStage
  }

  const MaxChunkSize: nat := 500
  const TopK: nat := 3

  /** An HTTP response: its status code and its decoded body. */
  datatype Http<T> = Http(status: int, body: T)

  /** A decoded JSON value; an object keeps its members in document order. */
  datatype Json =
    | JNull
    | JBool(b: bool)
    | JNum(x: real)
    | JStr(s: string)
    | JArr(items: seq<Json>)
    | JObj(fields: seq<(string, Json)>)

  /* ---------- loading ---------- */

  /** `load_policy_link`: the link file must hold a JSON string. */
  function LoadPolicyLink(data: Option<Json>): (r: Result<string, QaError>)
    ensures r.Success? <==> data.Some? && data.value.JStr?
    ensures r.Success? ==> data == Some(JStr(r.value))
    ensures data.None? ==> r == Failure(LinkFileMissing)
    ensures data.Some? && !data.value.JStr? ==> r == Failure(InvalidLinkFormat)
  {
    match data
    case None => Failure(LinkFileMissing)
    case Some(JStr(href)) => Success(href)
    case Some(_) => Failure(InvalidLinkFormat)
  }

  /** `load_document`: anything but status 200 is an error. */
  function LoadDocument(response: Http<string>): (r: Result<string, QaError>)
    ensures r.Success? <==> response.status == 200
    ensures r.Success? ==> r.value == response.body
    ensures r.Failure? ==> r.error == DocumentNotLoaded(response.status)
  {
    if response.status != 200 then Failure(DocumentNotLoaded(response.status)) else Success(response.body)
  }

  /* ---------- chunking ---------- */

  /**
   * `chunk_text`: the words of `text`, cut every `max_chunk_size` words and re-joined by single
   * spaces.  A step of 0 raises; a negative step gives an empty range, so no chunks.
   */
  method ChunkText(text: string, maxChunkSize: int) returns (r: Result<seq<string>, QaError>)
    ensures maxChunkSize == 0 <==> r == Failure(StepZero)
    ensures maxChunkSize < 0 ==> r == Success([])
    ensures 0 < maxChunkSize ==> r.Success? && r.value == WindowChunks(Words(text), maxChunkSize, maxChunkSize)
  {
    if maxChunkSize == 0 {
      return Failure(StepZero);
    }
    if maxChunkSize < 0 {
      return Success([]);
    }
    var chunks := Windows(Words(text), maxChunkSize, maxChunkSize);
    return Success(chunks);
  }

  /* ---------- retrieval ---------- */

  /**
   * `chunks[i]` for a label the vector search returned: Python counts a negative index from the
   * end (the search pads with -1 when it has fewer than `TopK` vectors, which picks the last
   * chunk again), and anything outside -n..n-1 raises.
   */
  function PickChunks(chunks: seq<string>, labels: seq<int>): (r: Result<seq<string>, QaError>)
    ensures r.Success? <==> forall k :: 0 <= k < |labels| ==> -|chunks| <= labels[k] < |chunks|
    ensures r.Success? ==> |r.value| == |labels| && forall k :: 0 <= k < |labels| ==>
      r.value[k] == chunks[if labels[k] < 0 then labels[k] + |chunks| else labels[k]]
    ensures r.Failure? ==> exists k :: 0 <= k < |labels| && r.error == ChunkIndexOutOfRange(labels[k])
  {
    if labels == [] then Success([])
    else
      var l := labels[0];
      if l < -|chunks| || |chunks| <= l then Failure(ChunkIndexOutOfRange(l))
      else
        var rest :- PickChunks(chunks, labels[1..]);
        Success([chunks[if l < 0 then l + |chunks| else l]] + rest)
  }

  /* ---------- generation ---------- */

  /**
   * The user content sent to the generation service: the question, then the chunks joined by
   * spaces.  The question and every retrieved chunk reach the service verbatim.
   */
  function GenerationInput(question: string, contextChunks: seq<string>): (input: string)
    ensures Contains(input, question)
    ensures forall k :: 0 <= k < |contextChunks| ==> Contains(input, contextChunks[k])
    ensures 20 + |question| <= |input| && input[20 + |question|..] == Join(" ", contextChunks)
  {
    LabelledCarries(question, contextChunks);
    "question: " + question + " context: " + Join(" ", contextChunks)
  }

  /** The labelled text carries the question and every chunk, the chunks after the first 20 + |question| characters. */
  lemma LabelledCarries(question: string, contextChunks: seq<string>)
    ensures var input := "question: " + question + " context: " + Join(" ", contextChunks);
      && Contains(input, question)
      && (forall k :: 0 <= k < |contextChunks| ==> Contains(input, contextChunks[k]))
      && input[20 + |question|..] == Join(" ", contextChunks)
  {
    var context := Join(" ", contextChunks);
    var front := "question: " + question + " context: ";
    assert Contains(front, question) by {
      ContainsSelf(question);
      ContainsAppendLeft("question: ", question, question);
      ContainsAppendRight("question: " + question, " context: ", question);
    }
    ContainsAppendRight(front, context, question);
    forall k | 0 <= k < |contextChunks|
      ensures Contains(front + context, contextChunks[k])
    {
      JoinContainsEach(" ", contextChunks, k);
      ContainsAppendLeft(front, context, contextChunks[k]);
    }
    assert |front| == 20 + |question|;
  }

  /** The value of `key` in a decoded object: with a repeated key the last member wins. */
  function Lookup(fields: seq<(string, Json)>, key: string): Option<Json> {
    if fields == [] then None
    else if fields[|fields| - 1].0 == key then Some(fields[|fields| - 1].1)
    else Lookup(fields[..|fields| - 1], key)
  }

  /** A decoded object keeps the last of duplicate members: the lookup finds the last member named `key`. */
  lemma {:induction false} LookupFindsLast(fields: seq<(string, Json)>, key: string)
    ensures Lookup(fields, key).Some? <==> exists i :: 0 <= i < |fields| && fields[i].0 == key
    ensures Lookup(fields, key).Some? ==>
      exists i :: 0 <= i < |fields| && fields[i] == (key, Lookup(fields, key).value) &&
        forall j :: i < j < |fields| ==> fields[j].0 != key
  {
    if fields != [] {
      var n := |fields| - 1;
      if fields[n].0 == key {
        assert fields[n] == (key, Lookup(fields, key).value);
      } else {
        var front := fields[..n];
        LookupFindsLast(front, key);
        assert forall i :: 0 <= i < n ==> front[i] == fields[i];
        if Lookup(fields, key).Some? {
          var i :| 0 <= i < |front| && front[i] == (key, Lookup(front, key).value) &&
            forall j :: i < j < |front| ==> front[j].0 != key;
          assert fields[i] == (key, Lookup(fields, key).value);
        }
      }
    }
  }

  /** `value.get(key, default)`: only an object has `.get`. */
  function Get(v: Json, key: string, default: Json): Result<Json, QaError> {
    match v
    case JObj(fields) => Success(match Lookup(fields, key) case Some(x) => x case None => default)
    case _ => Failure(MalformedResponse)
  }

  /** `value[0]`: the first item of a list or the first character of a string. */
  function First(v: Json): Result<Json, QaError> {
    match v
    case JArr(items) => if items == [] then Failure(MalformedResponse) else Success(items[0])
    case JStr(s) => if s == [] then Failure(MalformedResponse) else Success(JStr([s[0]]))
    case _ => Failure(MalformedResponse)
  }

  /** Python truthiness of a decoded value (`not answer`). */
  predicate Truthy(v: Json) {
    match v
    case JNull => false
    case JBool(b) => b
    case JNum(x) => x != 0.0
    case JStr(s) => s != []
    case JArr(items) => items != []
    case JObj(fields) => fields != []
  }

  /** `result.get("candidates", [{}])[0]`. */
  function CandidateOf(result: Json): Result<Json, QaError> {
    var candidates :- Get(result, "candidates", JArr([JObj([])]));
    First(candidates)
  }

  /** `candidate.get("content", {}).get("parts", [{}])[0].get("text")`. */
  function AnswerOf(candidate: Json): Result<Json, QaError> {
    var content :- Get(candidate, "content", JObj([]));
    var parts :- Get(content, "parts", JArr([JObj([])]));
    var part :- First(parts);
    Get(part, "text", JNull)
  }

  /** The answer `generate_answer` returns: status 200, then the candidate, then its text, then non-empty. */
  function ExtractAnswer(response: Http<Json>): (r: Result<Json, QaError>)
    ensures response.status != 200 ==> r == Failure(ApiFailed(response.status))
    ensures r.Success? ==> Truthy(r.value)
  {
    if response.status != 200 then Failure(ApiFailed(response.status))
    else
      var candidate :- CandidateOf(response.body);
      var answer :- AnswerOf(candidate);
      if Truthy(answer) then Success(answer) else Failure(NoAnswer)
  }

  /** A member of an object, if the value is an object that has it. */
  function Field(v: Json, key: string): Option<Json> {
    if v.JObj? then Lookup(v.fields, key) else None
  }

  /** The first item, if the value is a non-empty list. */
  function Head(v: Json): Option<Json> {
    if v.JArr? && v.items != [] then Some(v.items[0]) else None
  }

  /* Reference reading of the response: every member on the path present, with no defaults. */

  function CandidatePath(body: Json): Option<Json> {
    var candidates :- Field(body, "candidates");
    Head(candidates)
  }

  function TextPath(candidate: Json): Option<Json> {
    var content :- Field(candidate, "content");
    var parts :- Field(content, "parts");
    var part :- Head(parts);
    Field(part, "text")
  }

  function AnswerPath(body: Json): Option<Json> {
    var candidate :- CandidatePath(body);
    TextPath(candidate)
  }

  /** `.get` with a default: it fails on a non-object, else gives the member or the default. */
  lemma GetIsField(v: Json, key: string, default: Json)
    ensures Get(v, key, default).Success? <==> v.JObj?
    ensures v.JObj? ==> Get(v, key, default).value == (if Field(v, key).Some? then Field(v, key).value else default)
  {
  }

  /** `[0]` agrees with the path on a non-empty list; on anything else that it accepts, the value is a string. */
  lemma FirstIsHead(v: Json)
    ensures Head(v).Some? ==> First(v) == Success(Head(v).value)
    ensures First(v).Success? && Head(v).None? ==> v.JStr? && First(v).value.JStr?
  {
  }

  /** The candidate read with its default is the one on the path, or the default `{}`, or one character. */
  lemma CandidateOfFollowsPath(body: Json)
    ensures CandidatePath(body).Some? ==> CandidateOf(body) == Success(CandidatePath(body).value)
    ensures CandidateOf(body).Success? && CandidatePath(body).None? ==>
      CandidateOf(body).value == JObj([]) || CandidateOf(body).value.JStr?
  {
    GetIsField(body, "candidates", JArr([JObj([])]));
    if body.JObj? {
      var candidates := Get(body, "candidates", JArr([JObj([])])).value;
      FirstIsHead(candidates);
    }
  }

  /** From the parts on, with defaults: the text read agrees with the path whenever it is truthy. */
  lemma PartsFollowPath(content: Json)
    requires content.JObj?
    ensures var parts := Get(content, "parts", JArr([JObj([])])).value;
      var viaDefaults := (var part :- First(parts); Get(part, "text", JNull));
      var viaPath := (var ps :- Field(content, "parts"); var part :- Head(ps); Field(part, "text"));
      && (viaDefaults.Success? && Truthy(viaDefaults.value) <==> viaPath.Some? && Truthy(viaPath.value))
      && (viaDefaults.Success? && Truthy(viaDefaults.value) ==> viaDefaults.value == viaPath.value)
  {
    GetIsField(content, "parts", JArr([JObj([])]));
    var parts := Get(content, "parts", JArr([JObj([])])).value;
    FirstIsHead(parts);
    if First(parts).Success? {
      GetIsField(First(parts).value, "text", JNull);
    }
  }

  /** The text read with defaults agrees with the path whenever it is truthy, and only then. */
  lemma AnswerOfFollowsPath(candidate: Json)
    ensures AnswerOf(candidate).Success? && Truthy(AnswerOf(candidate).value) <==>
      TextPath(candidate).Some? && Truthy(TextPath(candidate).value)
    ensures AnswerOf(candidate).Success? && Truthy(AnswerOf(candidate).value) ==>
      AnswerOf(candidate).value == TextPath(candidate).value
  {
    GetIsField(candidate, "content", JObj([]));
    if candidate.JObj? {
      var content := Get(candidate, "content", JObj([])).value;
      GetIsField(content, "parts", JArr([JObj([])]));
      if content.JObj? {
        PartsFollowPath(content);
      }
    }
  }

  /** The defaults never produce an answer: an answer is found exactly when the whole path is present. */
  lemma ExtractAnswerFollowsPath(response: Http<Json>)
    ensures ExtractAnswer(response).Success? <==>
      response.status == 200 && AnswerPath(response.body).Some? && Truthy(AnswerPath(response.body).value)
    ensures ExtractAnswer(response).Success? ==> ExtractAnswer(response).value == AnswerPath(response.body).value
  {
    var body := response.body;
    CandidateOfFollowsPath(body);
    if CandidateOf(body).Success? {
      AnswerOfFollowsPath(CandidateOf(body).value);
    }
    if CandidatePath(body).Some? {
      AnswerOfFollowsPath(CandidatePath(body).value);
    }
  }

  /** A well-formed reply with text `t`. */
  function Reply(t: string): Json {
    JObj([("candidates", JArr([ReplyCandidate(t)]))])
  }

  function ReplyCandidate(t: string): Json {
    JObj([("content", JObj([("parts", JArr([JObj([("text", JStr(t))])]))]))])
  }

  /** Round trip: the text of a well-formed reply is the answer, unless it is empty. */
  lemma ExtractAnswerOfReply(t: string)
    ensures t != [] ==> ExtractAnswer(Http(200, Reply(t))) == Success(JStr(t))
    ensures t == [] ==> ExtractAnswer(Http(200, Reply(t))) == Failure(NoAnswer)
  {
    assert CandidateOf(Reply(t)) == Success(ReplyCandidate(t));
    assert AnswerOf(ReplyCandidate(t)) == Success(JStr(t));
  }

  /* ---------- the pipeline ---------- */

  /** The answer the pipeline derives from a downloaded policy text, as a value. */
  function AnswerFor(
    document: string,
    question: string,
    search: (seq<string>, string) -> seq<int>,
    post: string -> Http<Json>): Result<Json, QaError>
  {
    var chunks := WindowChunks(Words(document), MaxChunkSize, MaxChunkSize);
    if chunks == [] then Failure(EmptyIndex)
    else
      var relevant :- PickChunks(chunks, search(chunks, question));
      ExtractAnswer(post(GenerationInput(question, relevant)))
  }

  /**
   * `main`: link, download, chunk (500 words), index, retrieve (3 labels), generate.  Returns the
   * answer and the policy's link.  `stages` lists the stages entered, in order; an error stops
   * the pipeline in the stage that raised it.
   */
  method RunQa(
    companyName: string,
    question: string,
    linkFile: string -> Option<Json>,
    fetch: string -> Http<string>,
    search: (seq<string>, string) -> seq<int>,
    post: string -> Http<Json>)
    returns (stages: seq<Stage>, result: Result<(Json, string), QaError>)
    ensures 1 <= |stages| <= |QaStages| && stages == QaStages[..|stages|]
    ensures result.Success? ==> stages == QaStages
    ensures result.Failure? ==> RaisedBy(result.error) == stages[|stages| - 1]
    ensures linkFile(companyName).None? ==> result == Failure(LinkFileMissing)
    ensures result.Success? ==>
      && linkFile(companyName) == Some(JStr(result.value.1))
      && fetch(result.value.1).status == 200
      && AnswerFor(fetch(result.value.1).body, question, search, post) == Success(result.value.0)
  {
    stages := [LinkStage];
    var link := LoadPolicyLink(linkFile(companyName));
    if link.Failure? {
      return stages, Failure(link.error);
    }
    var href := link.value;

    stages := stages + [FetchStage];
    var document := LoadDocument(fetch(href));
    if document.Failure? {
      return stages, Failure(document.error);
    }
    var later, answer := AnswerDocument(document.value, question, search, post);
    stages := stages + later;
    if answer.Failure? {
      return stages, Failure(answer.error);
    }
    return stages, Success((answer.value, href));
  }

  /** The stages of `main` after the download. */
  method AnswerDocument(
    document: string,
    question: string,
    search: (seq<string>, string) -> seq<int>,
    post: string -> Http<Json>)
    returns (stages: seq<Stage>, answer: Result<Json, QaError>)
    ensures 1 <= |stages| <= 4 && stages == QaStages[2..2 + |stages|]
    ensures answer.Success? ==> stages == QaStages[2..]
    ensures answer.Failure? ==> RaisedBy(answer.error) == stages[|stages| - 1]
    ensures answer == AnswerFor(document, question, search, post)
  {
    stages := [ChunkStage];
    var chunked := ChunkText(document, MaxChunkSize);
    var chunks := chunked.value;

    stages := stages + [IndexStage];
    if chunks == [] {
      return stages, Failure(EmptyIndex);
    }

    stages := stages + [RetrieveStage];
    var relevant := PickChunks(chunks, search(chunks, question));
    if relevant.Failure? {
      return stages, Failure(relevant.error);
    }

    stages := stages + [GenerateStage];
    answer := ExtractAnswer(post(GenerationInput(question, relevant.value)));
  }
}
