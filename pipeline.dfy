// One run of notes_and_quizes_generator.py after a PDF is uploaded and the
// generate button is pressed: extract the page texts, and, when there is
// text, chunk it with the default limit, aggregate the generator's notes and
// quizzes over the chunks, and hand both joined strings to the merger.

module Pipeline {
  import opened Text
  import opened Chunker
  import opened Extraction
  import opened Aggregation

  /** What a run shows: the "no text" warning, or the generated texts. */
  datatype Outcome =
    | NoText(text: string)
    | Generated(text: string, chunks: seq<string>, notes: string, quizzes: string, merged: string)

  /**
   * One run. The remote models are parameters: `generate` stands for the
   * parallel notes/quiz chain on one chunk, `merge` for the merge chain.
   */
  method Run(pages: seq<Option<string>>, generate: string -> Generation, merge: (string, string) -> string)
    returns (outcome: Outcome)
    ensures outcome.text == Extracted(pages)
    ensures outcome.NoText? <==> forall i :: 0 <= i < |pages| && pages[i].Some? ==> IsBlank(pages[i].value)
    ensures outcome.Generated? ==>
      && outcome.chunks == Chunks(outcome.text, DefaultMaxLength)
      && outcome.chunks != []
      && Generation(outcome.notes, outcome.quizzes) == Aggregated(outcome.chunks, generate)
      && outcome.merged == merge(outcome.notes, outcome.quizzes)
  {
    var text := ExtractText(pages);
    OffersGenerationWhen(pages);
    if Strip(text) == "" {
      return NoText(text);
    }
    var chunks := ChunkText(text, DefaultMaxLength);
    ChunksOfBlank(text, DefaultMaxLength);
    var allNotes, allQuizzes, notes, quizzes := AggregateChunks(chunks, generate);
    var merged := merge(notes, quizzes);
    outcome := Generated(text, chunks, notes, quizzes, merged);
  }
}
