// The per-chunk loop of notes_and_quizes_generator.py: every chunk is given
// to the notes/quiz generator in order, its two results are appended to
// all_notes and all_quizzes, and each list is joined with a blank line.

module Aggregation {
  import opened Text

  /** What the generator returns for one chunk: its "notes" and "quizes" entries. */
  datatype Generation = Generation(notes: string, quizzes: string)

  /** The separator of the two final joins. */
  const Separator: string := "\n\n"

  /** The joined notes and quizzes for `chunks`, each list in chunk order. */
  function Aggregated(chunks: seq<string>, generate: string -> Generation): Generation
  {
    Generation(
      Join(seq(|chunks|, k requires 0 <= k < |chunks| => generate(chunks[k]).notes), Separator),
      Join(seq(|chunks|, k requires 0 <= k < |chunks| => generate(chunks[k]).quizzes), Separator))
  }

  /** No chunks: both joined strings are empty. */
  lemma AggregatedNone(generate: string -> Generation)
    ensures Aggregated([], generate) == Generation("", "")
  {
  }

  /** One chunk: exactly what the generator returned for it. */
  lemma AggregatedOne(chunk: string, generate: string -> Generation)
    ensures Aggregated([chunk], generate) == generate(chunk)
  {
  }

  /** Chunk order is kept: the aggregate of two runs of chunks is the two aggregates with a blank line between. */
  lemma AggregatedConcat(a: seq<string>, b: seq<string>, generate: string -> Generation)
    requires a != [] && b != []
    ensures Aggregated(a + b, generate).notes
         == Aggregated(a, generate).notes + Separator + Aggregated(b, generate).notes
    ensures Aggregated(a + b, generate).quizzes
         == Aggregated(a, generate).quizzes + Separator + Aggregated(b, generate).quizzes
  {
    var ab := a + b;
    var notes := seq(|ab|, k requires 0 <= k < |ab| => generate(ab[k]).notes);
    var quizzes := seq(|ab|, k requires 0 <= k < |ab| => generate(ab[k]).quizzes);
    assert notes == seq(|a|, k requires 0 <= k < |a| => generate(a[k]).notes)
                  + seq(|b|, k requires 0 <= k < |b| => generate(b[k]).notes);
    assert quizzes == seq(|a|, k requires 0 <= k < |a| => generate(a[k]).quizzes)
                    + seq(|b|, k requires 0 <= k < |b| => generate(b[k]).quizzes);
    JoinConcat(seq(|a|, k requires 0 <= k < |a| => generate(a[k]).notes),
               seq(|b|, k requires 0 <= k < |b| => generate(b[k]).notes), Separator);
    JoinConcat(seq(|a|, k requires 0 <= k < |a| => generate(a[k]).quizzes),
               seq(|b|, k requires 0 <= k < |b| => generate(b[k]).quizzes), Separator);
  }

  /** The loop over the chunks and the two joins after it. */
  method AggregateChunks(chunks: seq<string>, generate: string -> Generation)
    returns (allNotes: seq<string>, allQuizzes: seq<string>, notes: string, quizzes: string)
    ensures |allNotes| == |chunks| && |allQuizzes| == |chunks|
    ensures forall k :: 0 <= k < |chunks| ==>
      allNotes[k] == generate(chunks[k]).notes && allQuizzes[k] == generate(chunks[k]).quizzes
    ensures Generation(notes, quizzes) == Aggregated(chunks, generate)
  {
    allNotes, allQuizzes := [], [];
    for i := 0 to |chunks|
      invariant |allNotes| == i && |allQuizzes| == i
      invariant forall k :: 0 <= k < i ==>
        allNotes[k] == generate(chunks[k]).notes && allQuizzes[k] == generate(chunks[k]).quizzes
    {
      var result := generate(chunks[i]);
      allNotes := allNotes + [result.notes];
      allQuizzes := allQuizzes + [result.quizzes];
    }
    assert allNotes == seq(|chunks|, k requires 0 <= k < |chunks| => generate(chunks[k]).notes);
    assert allQuizzes == seq(|chunks|, k requires 0 <= k < |chunks| => generate(chunks[k]).quizzes);
    notes := Join(allNotes, Separator);
    quizzes := Join(allQuizzes, Separator);
  }
}
