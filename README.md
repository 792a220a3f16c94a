# BFSI-AI query pipeline — a Dafny model of its deterministic core

BFSI-AI answers call-centre questions about banking and finance in three tiers.
Tier 1 looks the question up in a curated question/answer dataset. Tier 3 (RAG)
handles policy and regulatory questions: the language model answers over policy
documents found by a similarity search. Tier 2 is the fine-tuned TinyLlama model
answering the question alone. The embedders, the FAISS searches and the language
model are machine-learning components. This project models the deterministic
logic around them, and proves what that logic promises.

- **Formatter** (`formatter.dfy`, app/slm_engine.py) — `generate_response`.
  - The chat prompt at line 41.
  - The post-processing of the decoded text at lines 56-104:
    - drop the prompt echo up to the last `<|assistant|>`;
    - repair the mojibake bullet and cut the text into lines;
    - keep only `-`/`*` lines;
    - remove numbering artefacts and turn a leading `*` into `-`;
    - drop lines holding a denylisted phrase;
    - cut long lines at their last period; a line over 140 characters with no period is cut to 140 characters and gets a `.` appended (line 88);
    - drop near-empty lines;
    - keep the first three survivors, or answer with a fixed three-bullet fallback when fewer than two survive (line 97).

  The post-processing is written as methods, each proved equal to a function: `FormatDecoded` to `Format`, `RemoveEcho` to `AfterEcho`, `KeepBullets` (the only loop, over the lines) to the present values of `Cleaned(lines)`, and `CleanRawLine` to `CleanLine`. The guarantees are proved about these functions.
- **Retriever** (`retriever.dfy`, rag_engine.py) — `retrieve_context`. It applies a threshold to the best score. It then concatenates the three retrieved documents, each followed by a blank line, in a `+=` loop, and strips the result at both ends (rag_engine.py:30).
- **Chunker** (`chunker.dfy`, app/build_rag_index.py) — `chunk_text`. It splits a document at blank lines, strips each section, and keeps those longer than 50 characters. This is a loop proved equal to the function `Chunks`.
- **Router** (`router.dfy`, query_engine.py) — three pure functions:
  - `is_policy_query`, the keyword classifier;
  - `tier1_response`, the inclusive-threshold dataset gate;
  - `get_final_response`, the three-way routing.

  The searches and `generate_response` are functions held in a `Backend` value. The routed result records which services were invoked, in order. That record lets the model state which tier calls which service, and how often.
- **StringOps**, **Filtering**, **Wrappers** — supporting modules:
  - StringOps: the Python `str` operations over `seq<char>` (`strip`, `lower`, `in`, `startswith`, `split`, `join`, `replace`, `rsplit(c, 1)[0]`);
  - Filtering: keeping the present values of a list of options, in order, with their positions;
  - Wrappers: `Option`.

## Model

| member | source | states |
|---|---|---|
| Formatter.Prompt | app/slm_engine.py:29-41 | The prompt is `<|system|>`, the fixed system prompt, a blank line, `<|user|>`, the user's text, a blank line and `<|assistant|>` with a newline. The user's text sits unchanged right after the prompt head. |
| Formatter.GenerateResponse | app/slm_engine.py:40-104 | The answer is the formatted decoding of the prompt for the user's text. It is always either exactly the fallback or two or three well-formed bullet lines joined by newlines. |
| Formatter.FormatDecoded | app/slm_engine.py:56-104 | The imperative post-processing (echo removal, line loop, cut to three, fallback test) computes exactly `Format` of the decoded text. |
| Formatter.RemoveEcho | app/slm_engine.py:56-58 | With a marker present, the text becomes the stripped piece after the last `<|assistant|>`. Otherwise it is left as it is. |
| Formatter.KeepBullets | app/slm_engine.py:62-91 | The loop over the lines keeps exactly the bullets the per-line pipeline yields, in line order. |
| Formatter.CleanRawLine | app/slm_engine.py:64-91 | One pass of the loop body. Its steps, in source order: strip; reject a line not starting with `-`/`*`; apply the five numbering replacements; rewrite `*` to `-`; apply the phrase gate; truncate; apply the length gate. |
| Formatter.CleanLineShape | app/slm_engine.py:64-91 | Every bullet the per-line pipeline emits: starts with `-`; has length between 6 and 141; has no leading or trailing whitespace; contains no denylisted phrase in any case; holds no newline. |
| Formatter.BadPhraseDropsLine | app/slm_engine.py:79-88 | A line whose lower-cased, renumbered form contains "no change", "decrease" or "may not" at any position is dropped, even past character 140. |
| Formatter.ProseDropped | app/slm_engine.py:65-69 | A line that, once stripped, starts with neither `-` nor `*` never yields a bullet. |
| Formatter.NoBadPhraseInPrefix | app/slm_engine.py:83-88 | Cutting a phrase-free line to a prefix cannot create a denylisted phrase. |
| Formatter.NoBadPhraseWithPeriod | app/slm_engine.py:87-88 | Appending the period after a cut cannot complete a denylisted phrase. |
| Formatter.ShortenAtLastPeriod | app/slm_engine.py:87-88 | Lines of at most 140 characters are unchanged. A longer line becomes its first 140 characters plus `.` when they hold no period. Otherwise it is cut just before the last period among those 140 characters, and that period is put back. |
| Formatter.ShortenShape | app/slm_engine.py:86-88 | Truncation keeps a dash-led, phrase-free, newline-free line so. It bounds the length by 141. |
| Formatter.SurvivorsWellFormed | app/slm_engine.py:64-91 | Every bullet that survives the loop is well formed. |
| Formatter.BulletsShape | app/slm_engine.py:93-104 | At most three bullets are kept, each well formed. Fewer than two give the fallback. Otherwise the answer is the bullets joined by newlines, and splitting it at newlines gives back exactly those bullets. |
| Formatter.FormatShape | app/slm_engine.py:93-104 | The formatted answer is exactly the fallback or two or three well-formed bullet lines. It is never zero, one or more than three lines from the model. |
| Formatter.BulletsInOrder | app/slm_engine.py:64-94 | The bullets are the first survivors in input order. Each comes from its own line, and later bullets come from later lines. No surviving line up to the last kept one was skipped. |
| Formatter.TextAfterLastMarker | app/slm_engine.py:57-58 | For text `before + <|assistant|> + rest` with no marker in `rest`, the echo-free text is `rest` stripped. |
| Formatter.EchoDiscarded | app/slm_engine.py:57-58 | Nothing before the last marker reaches the answer. The answer is the formatting of the stripped rest alone. |
| Formatter.PromptEchoText | app/slm_engine.py:41-58 | When the model echoes the whole prompt before its completion, the echo-free text is the stripped completion. |
| Formatter.PromptEchoDiscarded | app/slm_engine.py:41-58 | An echoed prompt, the user's text included, never reaches the answer. Only the completion is formatted. |
| Formatter.NumberingAbsentUnchanged | app/slm_engine.py:71-73 | A line holding none of `- 1.`, `- 2.`, `- 3.`, `-1.`, `-2.` is left unchanged by the numbering clean-up. |
| Formatter.NumberingExamples | app/slm_engine.py:71-73 | `- 1. a` becomes `- a`. `-3. a` is not touched, because `-3.` is not one of the patterns. |
| Retriever.Retrieved | rag_engine.py:18-30 | The reported score is always the first returned score. There is no context exactly when that score is below the threshold. A returned context has no leading or trailing whitespace. |
| Retriever.RetrieveContext | rag_engine.py:9-30 | The threshold test and the `+=` loop over the hits, followed by the strip, compute exactly `Retrieved`. |
| Retriever.ContextOfThree | rag_engine.py:26-30 | Above the threshold the context is `strip(d[i0] + "\n\n" + d[i1] + "\n\n" + d[i2] + "\n\n")`: all three hits, in search order, whatever their own scores. |
| Retriever.OnlyTopScoreDecides | rag_engine.py:18-24 | Score rows that agree on the first score give the same result. The second and third scores play no part. |
| Retriever.ContextOfChunks | rag_engine.py:26-30 | When the retrieved documents are non-empty and stripped, the context is exactly those documents joined by blank lines. |
| Retriever.ContextOfIndexedChunks | rag_engine.py:26-30 | When every stored document is a chunk of its source file, the context is the three chunks joined by blank lines. |
| Chunker.ChunkText | app/build_rag_index.py:11-24 | The loop over the sections, appending each long-enough stripped section, computes exactly `Chunks`. |
| Chunker.ChunksShape | app/build_rag_index.py:17-23 | Every chunk is longer than 50 characters, has no leading or trailing whitespace and contains no `"\n\n"`. |
| Chunker.ChunksOrigin | app/build_rag_index.py:17-24 | Each chunk is the strip of its own section, and chunks keep section order. There are never more chunks than sections. A section is kept exactly when its stripped length exceeds 50, so short and empty sections are dropped. |
| Chunker.SingleSection | app/build_rag_index.py:17-24 | Text without a blank line whose stripped length exceeds 50 yields exactly one chunk, the stripped text. |
| Chunker.ShortTextDropped | app/build_rag_index.py:17-23 | Text without a blank line whose stripped length is at most 50 yields no chunk. |
| Router.IsPolicyQuery | query_engine.py:18-26 | A query is policy-like exactly when one of the ten keywords occurs in its lower-cased form. |
| Router.EmptyQueryNotPolicy | query_engine.py:18-26 | The empty query is not policy-like. |
| Router.PolicyIgnoresCase | query_engine.py:25-26 | Lower-casing or upper-casing a query does not change the verdict. |
| Router.PolicyExtends | query_engine.py:25-26 | Text added before or after a policy-like query keeps it policy-like. |
| Router.PolicyExample | query_engine.py:18-26 | "Explain the KYC POLICY" is policy-like. |
| Router.NonPolicyExample | query_engine.py:18-26 | "What is my EMI?" is not policy-like. |
| Router.Tier1Response | query_engine.py:30-48 | The tier is dataset exactly when the score reaches the threshold, and then the answer is the matched record's stored output. Otherwise the tier is fallback and there is no answer. The score is reported unchanged in both cases. |
| Router.Tier1BoundaryMatches | query_engine.py:30-37 | The threshold is inclusive: a score of exactly 0.74 is a dataset match. |
| Router.RagPrompt | query_engine.py:70 | The RAG prompt starts with `Context: ` and the context, and ends with the query. |
| Router.GetFinalResponse | query_engine.py:54-77 | The label is always one of "Tier 1 (Dataset)", "Tier 3 (RAG)" and "Tier 2 (TinyLlama)". The dataset search is always the first service consulted. |
| Router.Tier1ShortCircuit | query_engine.py:57-61 | On a dataset match the answer is the stored output, labelled "Tier 1 (Dataset)". Neither retrieval nor generation is invoked. |
| Router.Tier1IgnoresOtherServices | query_engine.py:57-61 | On a dataset match the documents, their search and the generator have no influence on the result; the other backend's document search need not even return valid positions for the query. |
| Router.RetrievalOnlyForPolicyMisses | query_engine.py:60-65 | Retrieval is invoked exactly when the dataset misses and the query is policy-like. |
| Router.RagRoute | query_engine.py:63-72 | "Tier 3 (RAG)" is given exactly when the dataset misses, the query is policy-like and the context is present and non-empty. The generator then receives `Context: <context>\n\nQuestion: <query>`. |
| Router.ModelRoute | query_engine.py:74-77 | Every other miss sends the raw query to the generator, labelled "Tier 2 (TinyLlama)". |
| Router.SingleGeneration | query_engine.py:54-77 | The generator is invoked at most once, and only as the last service. |
| Router.GeneratedAnswerShape | query_engine.py:63-77 | Whenever the dataset does not answer, the answer is the formatter's: the fallback or two or three well-formed bullet lines. |

## Left out

- Model loading, tokenisation, `model.generate` and `tokenizer.decode` (app/slm_engine.py:1-27, 43-54) are foreign library calls.
  - The formatter takes the decoded text as input.
  - `GenerateResponse` takes the decoder as a function parameter.
  - The router's `Backend` holds `generate_response` as a function, tied to the formatter by `GeneratesWith`.
- The sentence embedder, `faiss.normalize_L2` and both FAISS searches (query_engine.py:31-34, rag_engine.py:11-16) are float32 numerics in foreign code.
  - Their results are inputs: real scores and natural-number positions.
  - The thresholds 0.74 and 0.55 are only compared.
- Reading the dataset, the indexes and the document array at start-up (query_engine.py:10-14, rag_engine.py:5-8) is I/O. It is replaced by the `Backend` value and by parameters.
- Other pieces left out as I/O:
  - the `[LOG]` prints (query_engine.py:58, 66);
  - the command-line block (query_engine.py:81-89);
  - everything in app/build_rag_index.py after `chunk_text` (lines 26-54): directory listing, file reads, embedding, index writing and the `ValueError` for an empty corpus.
- fine_tune.py, app/build_index.py and app/prepare_training_data.py are not part of this model. They are training configuration and index-building plumbing, with no decision logic.
- Python's Unicode `lower()` and `strip()` are modelled on ASCII only: `A`-`Z` lower-casing, and the ASCII characters `isspace` accepts.
- Retriever.RetrieveContext: the `top_k` argument is not a parameter, because the source never reads it. The search width is the constant `SearchWidth` (3).
- Retriever.RetrieveContext: FAISS returns position -1 when the index holds fewer than three vectors. That case is excluded by `ValidHits`, which requires every returned position to lie inside the document list. The router demands `ValidHits` only on the route that reaches the document search (a dataset miss on a policy-like query).
- Router.Tier1Response: the nearest-entry search is not modelled. Its score and matched position are inputs, and the position must lie in the dataset whenever the score passes the threshold.
- Router.GetFinalResponse: the list of invoked services is a modelling device, not something the source returns. It records the order of the calls the source makes.
- Formatter.NumberingAbsentUnchanged: no lemma states that a line contains none of the five patterns after the clean-up. The replacements run one after another, so a later replacement can form an earlier pattern anew, exactly as in the source.
