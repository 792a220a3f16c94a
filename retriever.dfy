/**
 * `retrieve_context` in rag_engine.py: the policy-document retriever of the
 * RAG tier. The sentence embedder and the FAISS inner-product search are not
 * modelled; their answer for the query (the three best scores, best first,
 * and the positions of the three matching documents) is an input.
 */
module Retriever {
  import opened Wrappers
  import opened StringOps
  import Chunker

  /** The default cut-off on the best similarity score. */
  const RagThreshold: real := 0.55

  /** How many neighbours the search asks for, whatever `top_k` says. */
  const SearchWidth: nat := 3

  /** What follows every retrieved chunk before the final strip. */
  const BlankLine: string := "\n\n"

  /** The pair `(context, max_score)` the retriever returns. */
  datatype Retrieval = Retrieval(context: Option<string>, maxScore: real)

  /** One row of search results: three scores and three valid document positions. */
  predicate ValidHits(scores: seq<real>, indices: seq<nat>, docCount: nat) {
    && |scores| == SearchWidth
    && |indices| == SearchWidth
    && forall k :: 0 <= k < |indices| ==> indices[k] < docCount
  }

  /** The documents at the given positions, in search order. */
  function Selected(indices: seq<nat>, docs: seq<string>): (chunks: seq<string>)
    requires forall k :: 0 <= k < |indices| ==> indices[k] < |docs|
    ensures |chunks| == |indices|
    ensures forall k :: 0 <= k < |indices| ==> chunks[k] == docs[indices[k]]
  {
    seq(|indices|, k requires 0 <= k < |indices| => docs[indices[k]])
  }

  /** Every chunk followed by a blank line, in order. */
  function Terminated(chunks: seq<string>): string {
    if chunks == [] then []
    else Terminated(chunks[..|chunks| - 1]) + chunks[|chunks| - 1] + BlankLine
  }

  /**
   * What the retriever returns: nothing when the best score is below the
   * threshold, otherwise the stripped concatenation of all retrieved chunks.
   * The best score is reported either way.
   */
  function Retrieved(scores: seq<real>, indices: seq<nat>, docs: seq<string>, threshold: real): (r: Retrieval)
    requires ValidHits(scores, indices, |docs|)
    ensures r.maxScore == scores[0]
    ensures r.context.None? <==> scores[0] < threshold
    ensures r.context.Some? ==> IsStripped(r.context.value)
  {
    if scores[0] < threshold then Retrieval(None, scores[0])
    else Retrieval(Some(Strip(Terminated(Selected(indices, docs)))), scores[0])
  }

  /** The retriever: a threshold test, then a `+=` loop over the hits and a strip. */
  method RetrieveContext(scores: seq<real>, indices: seq<nat>, documents: seq<string>, threshold: real)
      returns (context: Option<string>, maxScore: real)
    requires ValidHits(scores, indices, |documents|)
    ensures Retrieval(context, maxScore) == Retrieved(scores, indices, documents, threshold)
  {
    maxScore := scores[0];
    if maxScore < threshold {
      return None, maxScore;
    }
    ghost var chunks := Selected(indices, documents);
    var combined: string := "";
    for i := 0 to |indices|
      invariant combined == Terminated(chunks[..i])
    {
      assert chunks[..i + 1][..i] == chunks[..i];
      combined := combined + documents[indices[i]] + BlankLine;
    }
    assert chunks[..|indices|] == chunks;
    context := Some(Strip(combined));
  }

  // ---------------------------------------------------------------- lemmas

  /**
   * Above the threshold the context is the strip of the three retrieved
   * documents, each followed by a blank line, in search order, whatever
   * their own scores.
   */
  lemma ContextOfThree(scores: seq<real>, indices: seq<nat>, docs: seq<string>, threshold: real)
    requires ValidHits(scores, indices, |docs|) && scores[0] >= threshold
    ensures Retrieved(scores, indices, docs, threshold).context ==
      Some(Strip(docs[indices[0]] + "\n\n" + docs[indices[1]] + "\n\n" + docs[indices[2]] + "\n\n"))
  {
    var chunks := Selected(indices, docs);
    assert Terminated(chunks[..1]) == chunks[0] + BlankLine by {
      assert chunks[..1][..0] == [];
    }
    assert Terminated(chunks[..2]) == Terminated(chunks[..1]) + chunks[1] + BlankLine by {
      assert chunks[..2][..1] == chunks[..1];
    }
    assert Terminated(chunks) == Terminated(chunks[..2]) + chunks[2] + BlankLine by {
      assert chunks[..2] == chunks[..|chunks| - 1];
    }
  }

  /** Only the best score takes part in the decision; the other two are ignored. */
  lemma OnlyTopScoreDecides(scores: seq<real>, other: seq<real>, indices: seq<nat>, docs: seq<string>, threshold: real)
    requires ValidHits(scores, indices, |docs|) && ValidHits(other, indices, |docs|)
    requires scores[0] == other[0]
    ensures Retrieved(scores, indices, docs, threshold) == Retrieved(other, indices, docs, threshold)
  {
  }

  /** Terminating every chunk is joining them with blank lines and ending with one. */
  lemma {:induction false} TerminatedJoin(chunks: seq<string>)
    requires |chunks| >= 1
    ensures Terminated(chunks) == Join(chunks, BlankLine) + BlankLine
    decreases |chunks|
  {
    var n := |chunks| - 1;
    if n == 0 {
      assert chunks[..0] == [];
    } else {
      TerminatedJoin(chunks[..n]);
      JoinSnoc(chunks[..n], chunks[n], BlankLine);
      assert chunks[..n] + [chunks[n]] == chunks;
    }
  }

  /** Non-empty stripped chunks joined by blank lines give a non-empty stripped text. */
  lemma JoinStripped(chunks: seq<string>)
    requires |chunks| >= 1
    requires forall k :: 0 <= k < |chunks| ==> chunks[k] != [] && IsStripped(chunks[k])
    ensures var j := Join(chunks, BlankLine); j != [] && IsStripped(j)
  {
    JoinFirstChar(chunks, BlankLine);
    JoinLastChar(chunks, BlankLine);
  }

  /**
   * When the retrieved documents are chunks as the index builder keeps them
   * (non-empty, stripped), the context is exactly those chunks joined by
   * blank lines.
   */
  lemma ContextOfChunks(scores: seq<real>, indices: seq<nat>, docs: seq<string>, threshold: real)
    requires ValidHits(scores, indices, |docs|) && scores[0] >= threshold
    requires forall k :: 0 <= k < |indices| ==> docs[indices[k]] != [] && IsStripped(docs[indices[k]])
    ensures Retrieved(scores, indices, docs, threshold).context == Some(Join(Selected(indices, docs), BlankLine))
  {
    var chunks := Selected(indices, docs);
    var j := Join(chunks, BlankLine);
    TerminatedJoin(chunks);
    JoinStripped(chunks);
    StripNonSpaceStart(j + BlankLine);
    TrimEndSpaces(j, BlankLine);
    StripStripped(j);
    StripNonSpaceStart(j);
  }

  /**
   * The documents of the RAG index are chunks of their source files, so a
   * retrieved context is always the three chunks joined by blank lines.
   */
  lemma ContextOfIndexedChunks(scores: seq<real>, indices: seq<nat>, docs: seq<string>, threshold: real,
                               sources: seq<string>)
    requires ValidHits(scores, indices, |docs|) && scores[0] >= threshold
    requires |sources| == |docs| && forall k :: 0 <= k < |docs| ==> docs[k] in Chunker.Chunks(sources[k])
    ensures Retrieved(scores, indices, docs, threshold).context == Some(Join(Selected(indices, docs), BlankLine))
  {
    forall k | 0 <= k < |indices|
      ensures docs[indices[k]] != [] && IsStripped(docs[indices[k]])
    {
      Chunker.ChunksShape(sources[indices[k]]);
    }
    ContextOfChunks(scores, indices, docs, threshold);
  }
}
