/**
 * query_engine.py: the three-tier router. A query is first matched against
 * the curated question/answer dataset (Tier 1); when that misses, a
 * policy-like query is answered by the language model over retrieved
 * document context (Tier 3, RAG), and anything else by the language model
 * alone (Tier 2). The embedder, both FAISS searches and the language model
 * are functions held by a `Backend`; the router is the pure decision around
 * them.
 */
module Router {
  import opened Wrappers
  import opened StringOps
  import Formatter
  import Retriever

  // ---------------------------------------------------------------- policy detector

  /** The words that mark a query as being about regulation or policy, in source order. */
  const PolicyKeywords: seq<string> := [
    "regulatory", "framework", "compliance",
    "classification", "provisioning",
    "guidelines", "policy", "supervisory",
    "prudential", "reporting"
  ]

  /** `is_policy_query`: some keyword occurs in the lower-cased query. */
  function IsPolicyQuery(query: string): (policy: bool)
    ensures policy <==> exists k :: 0 <= k < |PolicyKeywords| && Contains(Lower(query), PolicyKeywords[k])
  {
    ContainsAny(Lower(query), PolicyKeywords)
  }

  /** The empty query is never a policy query. */
  lemma EmptyQueryNotPolicy()
    ensures !IsPolicyQuery("")
  {
    var l := Lower("");
    assert l == [];
    forall k | 0 <= k < |PolicyKeywords|
      ensures !Contains(l, PolicyKeywords[k])
    {
      assert |PolicyKeywords[k]| > 0;
    }
  }

  /** The detector ignores ASCII case. */
  lemma PolicyIgnoresCase(query: string)
    ensures IsPolicyQuery(Lower(query)) == IsPolicyQuery(query)
    ensures IsPolicyQuery(Upper(query)) == IsPolicyQuery(query)
  {
    LowerUpper(query);
  }

  /** Text added before or after a policy query keeps it a policy query. */
  lemma PolicyExtends(query: string, before: string, after: string)
    requires IsPolicyQuery(query)
    ensures IsPolicyQuery(before + query + after)
  {
    var k :| 0 <= k < |PolicyKeywords| && Contains(Lower(query), PolicyKeywords[k]);
    LowerAppend(before, query);
    LowerAppend(before + query, after);
    ContainsAppend(Lower(before), Lower(query), PolicyKeywords[k]);
    ContainsAppend(Lower(before + query), Lower(after), PolicyKeywords[k]);
  }

  /** A query about a policy, written in any case, is detected. */
  lemma PolicyExample()
    ensures IsPolicyQuery("Explain the KYC POLICY")
  {
    var q := "Explain the KYC POLICY";
    assert Lower(q)[16..22] == "policy";
    ContainsAt(Lower(q), "policy", 16);
  }

  /** A plain customer question is not a policy query. */
  lemma NonPolicyExample()
    ensures !IsPolicyQuery("What is my EMI?")
  {
    var l := Lower("What is my EMI?");
    assert l == "what is my emi?";
    forall k | 0 <= k < |PolicyKeywords|
      ensures !Contains(l, PolicyKeywords[k])
    {
      var kw := PolicyKeywords[k];
      var c := if 'r' in kw then 'r' else if 'c' in kw then 'c' else if 'p' in kw then 'p' else 'g';
      MissingCharNotContained(l, kw, c);
    }
  }

  // ---------------------------------------------------------------- Tier 1

  /** The default cut-off for a dataset match; a score equal to it matches. */
  const Tier1Threshold: real := 0.74

  /** One entry of the curated dataset. */
  datatype QaRecord = QaRecord(instruction: string, input: string, output: string)

  datatype Tier = Dataset | Fallback

  /** The dictionary `tier1_response` returns: its tier, its answer and the score. */
  datatype Tier1Result = Tier1Result(tier: Tier, response: Option<string>, score: real)

  /**
   * `tier1_response` given the nearest dataset entry and its score: a match
   * when the score reaches the threshold, with that entry's stored answer;
   * otherwise a miss with no answer. The score is reported as found.
   */
  function Tier1Response(data: seq<QaRecord>, score: real, index: nat, threshold: real): (r: Tier1Result)
    requires score >= threshold ==> index < |data|
    ensures r.score == score
    ensures r.tier == Dataset <==> score >= threshold
    ensures r.tier == Dataset ==> r.response == Some(data[index].output)
    ensures r.tier == Fallback ==> r.response == None
  {
    if score >= threshold then Tier1Result(Dataset, Some(data[index].output), score)
    else Tier1Result(Fallback, None, score)
  }

  /** The threshold is inclusive: a score exactly at it is a match. */
  lemma Tier1BoundaryMatches(data: seq<QaRecord>, index: nat)
    requires index < |data|
    ensures Tier1Response(data, Tier1Threshold, index, Tier1Threshold) ==
      Tier1Result(Dataset, Some(data[index].output), Tier1Threshold)
  {
  }

  // ---------------------------------------------------------------- the router

  const Tier1Source: string := "Tier 1 (Dataset)"
  const RagSource: string := "Tier 3 (RAG)"
  const ModelSource: string := "Tier 2 (TinyLlama)"

  /**
   * What the router consults: the dataset and the nearest-entry search over
   * it, the RAG documents and the three-nearest search over them, and
   * `generate_response` of app/slm_engine.py as a map from user text to answer.
   */
  datatype Backend = Backend(
    data: seq<QaRecord>,
    datasetSearch: string -> (real, nat),
    documents: seq<string>,
    documentSearch: string -> (seq<real>, seq<nat>),
    generate: string -> string)

  /**
   * The searches the router consults for this query answer with positions
   * inside their corpora: the dataset hit when it is a match, and the three
   * document hits when the document search is reached at all (a dataset
   * miss on a policy-like query).
   */
  predicate Serves(b: Backend, query: string) {
    && (b.datasetSearch(query).0 >= Tier1Threshold ==> b.datasetSearch(query).1 < |b.data|)
    && (b.datasetSearch(query).0 < Tier1Threshold && IsPolicyQuery(query) ==>
          Retriever.ValidHits(b.documentSearch(query).0, b.documentSearch(query).1, |b.documents|))
  }

  /** Tier 1 for this query, with the default threshold. */
  function Tier1(b: Backend, query: string): Tier1Result
    requires Serves(b, query)
  {
    Tier1Response(b.data, b.datasetSearch(query).0, b.datasetSearch(query).1, Tier1Threshold)
  }

  /** `retrieve_context` for this query, with the default threshold. */
  function Retrieve(b: Backend, query: string): Retriever.Retrieval
    requires Retriever.ValidHits(b.documentSearch(query).0, b.documentSearch(query).1, |b.documents|)
  {
    Retriever.Retrieved(b.documentSearch(query).0, b.documentSearch(query).1, b.documents, Retriever.RagThreshold)
  }

  /**
   * The backend's generator is `generate_response` over the language model
   * `decode`: the chat prompt through the model, then the formatter.
   */
  ghost predicate GeneratesWith(b: Backend, decode: string -> string) {
    forall userText :: b.generate(userText) == Formatter.Format(decode(Formatter.Prompt(userText)))
  }

  /** Python truthiness of the retrieved context: present and not empty. */
  predicate Truthy(context: Option<string>) {
    context.Some? && context.value != []
  }

  /** The text the model is asked about on the RAG route. */
  function RagPrompt(context: string, query: string): (prompt: string)
    ensures StartsWith(prompt, "Context: " + context)
    ensures |query| <= |prompt| && prompt[|prompt| - |query|..] == query
  {
    "Context: " + context + "\n\nQuestion: " + query
  }

  /** An invocation of one of the services, with its argument. */
  datatype Call = SearchDataset(query: string) | RetrieveContext(query: string) | GenerateResponse(userText: string)

  /** The answer, the label naming where it came from, and the services invoked in order. */
  datatype Routed = Routed(response: string, source: string, calls: seq<Call>)

  /** `get_final_response`. */
  function GetFinalResponse(b: Backend, query: string): (r: Routed)
    requires Serves(b, query)
    ensures r.source == Tier1Source || r.source == RagSource || r.source == ModelSource
    ensures |r.calls| >= 1 && r.calls[0] == SearchDataset(query)
  {
    var t1 := Tier1(b, query);
    if t1.tier == Dataset then
      Routed(t1.response.value, Tier1Source, [SearchDataset(query)])
    else if IsPolicyQuery(query) then
      var retrieval := Retrieve(b, query);
      if Truthy(retrieval.context) then
        var prompt := RagPrompt(retrieval.context.value, query);
        Routed(b.generate(prompt), RagSource, [SearchDataset(query), RetrieveContext(query), GenerateResponse(prompt)])
      else
        Routed(b.generate(query), ModelSource, [SearchDataset(query), RetrieveContext(query), GenerateResponse(query)])
    else
      Routed(b.generate(query), ModelSource, [SearchDataset(query), GenerateResponse(query)])
  }

  // ---------------------------------------------------------------- routing guarantees

  /** A dataset match answers with the stored output, and nothing else is invoked. */
  lemma Tier1ShortCircuit(b: Backend, query: string)
    requires Serves(b, query) && b.datasetSearch(query).0 >= Tier1Threshold
    ensures var r := GetFinalResponse(b, query);
      && r.source == Tier1Source
      && r.response == b.data[b.datasetSearch(query).1].output
      && r.calls == [SearchDataset(query)]
  {
  }

  /**
   * On a dataset match the documents, their search and the language model
   * play no part: any other backend with the same dataset and dataset search
   * gives the same answer.
   */
  lemma Tier1IgnoresOtherServices(b: Backend, other: Backend, query: string)
    requires Serves(b, query) && Serves(other, query)
    requires other.data == b.data && other.datasetSearch == b.datasetSearch
    requires b.datasetSearch(query).0 >= Tier1Threshold
    ensures GetFinalResponse(other, query) == GetFinalResponse(b, query)
  {
  }

  /** Retrieval is invoked exactly when the dataset misses and the query is policy-like. */
  lemma RetrievalOnlyForPolicyMisses(b: Backend, query: string)
    requires Serves(b, query)
    ensures RetrieveContext(query) in GetFinalResponse(b, query).calls <==>
      (Tier1(b, query).tier == Fallback && IsPolicyQuery(query))
  {
  }

  /**
   * The RAG label is given exactly when the dataset misses, the query is
   * policy-like and the retriever found a non-empty context; the model is
   * then asked about that context and the query.
   */
  lemma RagRoute(b: Backend, query: string)
    requires Serves(b, query)
    ensures var r := GetFinalResponse(b, query);
      r.source == RagSource <==>
        Tier1(b, query).tier == Fallback && IsPolicyQuery(query) && Truthy(Retrieve(b, query).context)
    ensures var r := GetFinalResponse(b, query);
      r.source == RagSource ==>
        var prompt := RagPrompt(Retrieve(b, query).context.value, query);
        r.response == b.generate(prompt) && r.calls[|r.calls| - 1] == GenerateResponse(prompt)
  {
  }

  /** Every other miss goes to the model with the raw query. */
  lemma ModelRoute(b: Backend, query: string)
    requires Serves(b, query)
    requires Tier1(b, query).tier == Fallback
    requires !IsPolicyQuery(query) || !Truthy(Retrieve(b, query).context)
    ensures var r := GetFinalResponse(b, query);
      && r.source == ModelSource
      && r.response == b.generate(query)
      && r.calls[|r.calls| - 1] == GenerateResponse(query)
  {
  }

  /** The model is invoked at most once, and only as the last service. */
  lemma SingleGeneration(b: Backend, query: string)
    requires Serves(b, query)
    ensures var calls := GetFinalResponse(b, query).calls;
      forall i :: 0 <= i < |calls| - 1 ==> !calls[i].GenerateResponse?
  {
  }

  /**
   * Unless the dataset answered, the answer is the formatter's: either the
   * fixed fallback or two or three well-formed bullet lines.
   */
  lemma GeneratedAnswerShape(b: Backend, decode: string -> string, query: string)
    requires Serves(b, query) && GeneratesWith(b, decode)
    ensures var r := GetFinalResponse(b, query);
      r.source != Tier1Source ==> r.response == Formatter.Fallback || Formatter.IsBulletBlock(r.response)
  {
    var r := GetFinalResponse(b, query);
    if r.source == RagSource {
      var prompt := RagPrompt(Retrieve(b, query).context.value, query);
      Formatter.FormatShape(decode(Formatter.Prompt(prompt)));
    } else if r.source == ModelSource {
      Formatter.FormatShape(decode(Formatter.Prompt(query)));
    }
  }
}
