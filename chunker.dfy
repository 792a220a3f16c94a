/**
 * `chunk_text` in app/build_rag_index.py: how a policy document is cut into
 * the chunks that the RAG index stores. The text is split at blank lines,
 * every section is stripped, and only sections with enough substance are kept.
 */
module Chunker {
  import opened Wrappers
  import opened StringOps
  import opened Filtering

  /** The separator between sections: an empty line. */
  const SectionBreak: string := "\n\n"

  /** A chunk must be longer than this many characters. */
  const MinChunkLength: nat := 50

  /** The sections of a document, as `text.split("\n\n")`. */
  function Sections(text: string): seq<string> {
    Split(text, SectionBreak)
  }

  /** What one section contributes: its stripped text when that is long enough. */
  function KeepChunk(section: string): Option<string> {
    var cleaned := Strip(section);
    if |cleaned| > MinChunkLength then Some(cleaned) else None
  }

  /** The verdict on every section, position by position. */
  function Kept(sections: seq<string>): (opts: seq<Option<string>>)
    ensures |opts| == |sections|
  {
    seq(|sections|, n requires 0 <= n < |sections| => KeepChunk(sections[n]))
  }

  /** The chunks of a document, in section order. */
  function Chunks(text: string): seq<string> {
    Somes(Kept(Sections(text)))
  }

  /** The chunker: a loop over the sections that appends every kept one. */
  method ChunkText(text: string) returns (chunks: seq<string>)
    ensures chunks == Chunks(text)
  {
    var sections := Split(text, SectionBreak);
    chunks := [];
    for i := 0 to |sections|
      invariant chunks == Somes(Kept(sections)[..i])
    {
      var cleaned := Strip(sections[i]);
      SomesPrefixStep(Kept(sections), i);
      if |cleaned| > MinChunkLength {
        chunks := chunks + [cleaned];
      }
    }
    assert Kept(sections)[..|sections|] == Kept(sections);
  }

  // ---------------------------------------------------------------- lemmas

  /**
   * Every chunk is longer than 50 characters, has no leading or trailing
   * whitespace and holds no blank line.
   */
  lemma ChunksShape(text: string)
    ensures forall c :: c in Chunks(text) ==>
      |c| > MinChunkLength && IsStripped(c) && !Contains(c, SectionBreak)
  {
    var sections := Sections(text);
    SplitPiecesFree(text, SectionBreak);
    forall c | c in Chunks(text)
      ensures |c| > MinChunkLength && IsStripped(c) && !Contains(c, SectionBreak)
    {
      var n := SomeOrigin(Kept(sections), c);
      assert sections[n] in sections;
      StripKeepsOut(sections[n], SectionBreak);
    }
  }

  /**
   * Each chunk is the stripped text of its own section, the sections are
   * visited in order, there are never more chunks than sections, and a
   * section is kept exactly when its stripped text is longer than 50.
   */
  lemma ChunksOrigin(text: string)
    ensures var sections := Sections(text);
      var idx := Positions(Kept(sections));
      var chunks := Chunks(text);
      && |chunks| == |idx| <= |sections|
      && (forall j :: 0 <= j < |idx| ==> idx[j] < |sections| && chunks[j] == Strip(sections[idx[j]]))
      && (forall j, k :: 0 <= j < k < |idx| ==> idx[j] < idx[k])
      && (forall n :: 0 <= n < |sections| ==> (n in idx <==> |Strip(sections[n])| > MinChunkLength))
  {
    var sections := Sections(text);
    var opts := Kept(sections);
    var idx := Positions(opts);
    PositionsCover(opts);
    forall j | 0 <= j < |idx|
      ensures Chunks(text)[j] == Strip(sections[idx[j]])
    {
      assert opts[idx[j]] == KeepChunk(sections[idx[j]]);
    }
    forall n | 0 <= n < |sections|
      ensures n in idx <==> |Strip(sections[n])| > MinChunkLength
    {
      assert opts[n] == KeepChunk(sections[n]);
    }
  }

  /** A text with no blank line and enough substance is one chunk: the text stripped. */
  lemma SingleSection(text: string)
    requires !Contains(text, SectionBreak) && |Strip(text)| > MinChunkLength
    ensures Chunks(text) == [Strip(text)]
  {
    SplitNoSeparator(text, SectionBreak);
    assert Kept([text]) == [Some(Strip(text))];
    assert Kept([text])[..0] == [];
  }

  /** A text whose stripped form is short gives no chunk at all when it has no blank line. */
  lemma ShortTextDropped(text: string)
    requires !Contains(text, SectionBreak) && |Strip(text)| <= MinChunkLength
    ensures Chunks(text) == []
  {
    SplitNoSeparator(text, SectionBreak);
    assert Kept([text]) == [None];
    assert Kept([text])[..0] == [];
  }
}
