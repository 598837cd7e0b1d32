# PDF notes and quiz generator: the text pipeline

The application takes a PDF and builds study notes and a quiz from it with two
hosted language models. Around those calls sits a small text pipeline, and this
project models that pipeline and proves properties of it:

1. **Page-text accumulation** (`extraction.dfy`). Each page's extracted text is
   appended to `text`, followed by `"\n"`, in page order. Pages that give `None`
   or `""` are skipped. Generation is offered only when `text.strip()` is not
   empty. The page texts are an input sequence of optional strings.
2. **`chunk_text`** (`chunker.dfy`). This is a greedy word chunker. The text is
   split on whitespace, and each word adds `len(word) + 1` to a running counter.
   When the counter goes over `max_length`, the current chunk is closed (its
   words joined by single spaces) and the word starts a new chunk. The method
   `ChunkText` keeps the source's loop and its three variables. It is proved
   equal to `Chunks`, a left fold over the words (`Feed`).
3. **Per-chunk aggregation** (`aggregation.dfy`). Each chunk, in order, goes to
   the notes/quiz generator. Its two results are appended to `all_notes` and
   `all_quizzes`, and each list is joined with `"\n\n"`. The generator is a
   function parameter.
4. **One run** (`pipeline.dfy`). Extract the text. If there is any, chunk it
   with the default limit of 500, aggregate, and pass both joined strings to
   the merger, which is also a function parameter.

`text.dfy` models the Python string built-ins the script relies on:

- `str.split()` and `str.strip()` with no arguments. Both use Python's exact
  `str.isspace()` character set.
- `sep.join(parts)`.

Python's `len` is the length of the character sequence.

`IsGreedyPartition` describes `chunk_text`'s output without its loop:

- the groups hold the words in order;
- only the first group may be empty;
- a non-empty first group, and any group of two or more words, fits the limit;
- each group's first word would not have fitted in the group before it.

`GroupsCharacterization` proves that a list of groups is what `chunk_text`
computes if and only if it satisfies this description.

Three consequences of the code are easy to miss, and the model keeps them
as written:

- Chunk 0 is `""` whenever the first word alone goes over the limit, because
  `current_chunk` starts empty and is joined on the first close (`EmptyChunk`).
- The `+ 1` per word makes the real bound for a chunk of two or more words
  `max_length - 1`, not `max_length` (`ChunkLength`).
- `chunk_text("alpha beta gamma delta", 10)` gives four one-word chunks: each
  word plus its `+ 1` charge already uses 5 or 6 of the 10, so no two fit
  together (`ExampleChunks`).

## Model

| member | source | states |
|---|---|---|
| `Text.Split` | notes_and_quizes_generator.py:91 | `text.split()` gives no words exactly when the text is empty or all whitespace |
| `Text.SplitWords` | notes_and_quizes_generator.py:91 | every element of `text.split()` is non-empty and holds no whitespace |
| `Text.SplitJoin` | notes_and_quizes_generator.py:91-104 | splitting words that were joined by single spaces gives those words back |
| `Text.SplitLayout` | notes_and_quizes_generator.py:91 | any text is its whitespace runs interleaved with `text.split()`: blank runs before, between and after the words, the runs between two words non-empty, and every element a word |
| `Text.SplitOfLayout` | notes_and_quizes_generator.py:91 | conversely, words laid out with such whitespace runs split back into exactly those words |
| `Text.SplitCharacterization` | notes_and_quizes_generator.py:91 | `text.split()` equals a list of words if and only if the text is those words laid out with whitespace runs as above |
| `Text.Join` | notes_and_quizes_generator.py:114-115 | `sep.join(parts)` (also used with `" "` at lines 98 and 104): the parts with `sep` between consecutive ones; its length and concatenation laws are the rows below |
| `Text.Strip` | notes_and_quizes_generator.py:82 | `text.strip()` is empty exactly when the text is all whitespace; otherwise it starts and ends with a non-whitespace character |
| `Text.StripLayout` | notes_and_quizes_generator.py:82 | `text.strip()` is the text without a blank prefix and a blank suffix; with the ends of the result being non-whitespace, these are the longest such prefix and suffix |
| `Text.JoinLength` | notes_and_quizes_generator.py:98 | joining n parts adds exactly n - 1 separators; joining no parts gives `""` |
| `Text.JoinConcat` | notes_and_quizes_generator.py:114-115 | joining two non-empty lists gives the two joins with one separator between them |
| `Text.JoinAppend` | notes_and_quizes_generator.py:114-115 | appending a part to a non-empty list appends the separator and that part to the join |
| `Text.BlankConcat` | notes_and_quizes_generator.py:80-82 | a concatenation is all whitespace exactly when both halves are |
| `Chunker.Step` | notes_and_quizes_generator.py:96-102 | one loop iteration on `(closed chunks, current_chunk, current_length)`: the counter grows by `len(word) + 1`; over the limit, the current chunk is closed and the word starts a new one with counter `len(word) + 1`; otherwise the word joins the current chunk |
| `Chunker.Feed` | notes_and_quizes_generator.py:93-102 | the loop variables after the words so far, from the empty start; what they satisfy is `FeedInvariant` |
| `Chunker.Pending` | notes_and_quizes_generator.py:103-104 | the closed chunks followed by the current one only when it is not empty |
| `Chunker.Chunks` | notes_and_quizes_generator.py:90-105 | the value of `chunk_text(text, max_length)`: the word lists of the fold over `text.split()`, each joined with single spaces; its properties are the lemmas below |
| `Chunker.ChunkText` | notes_and_quizes_generator.py:90-105 | the loop returns the fold `Chunks(text, maxLength)`; splitting its chunks again gives `text.split()`; there are at most one more chunks than words |
| `Chunker.FeedInvariant` | notes_and_quizes_generator.py:93-102 | at the top of every iteration, `current_length` is the sum of `len(w) + 1` over `current_chunk`; `current_chunk` is empty only before the first word; the closed chunks plus the current one form a greedy partition of the words seen so far |
| `Chunker.StepKeepsInvariant` | notes_and_quizes_generator.py:95-102 | one iteration, whether it closes a chunk or extends the current one, keeps that invariant |
| `Chunker.GroupsAreGreedy` | notes_and_quizes_generator.py:91-105 | the chunks' word lists satisfy the greedy-partition description |
| `Chunker.GreedyPartitionIsGroups` | notes_and_quizes_generator.py:91-105 | any greedy partition of the words equals what `chunk_text` computes, so the description fixes the output uniquely |
| `Chunker.GroupsCharacterization` | notes_and_quizes_generator.py:91-105 | a list of groups is `chunk_text`'s output if and only if it is a greedy partition of the words |
| `Chunker.GroupsOfOneWord` | notes_and_quizes_generator.py:93-104 | a single word gives `[[], [w]]` when `len(w) + 1 > max_length`, otherwise `[[w]]` |
| `Chunker.GroupsAfterFit` | notes_and_quizes_generator.py:96-102 | a word that keeps the counter within the limit is added to the last chunk |
| `Chunker.GroupsAfterClose` | notes_and_quizes_generator.py:96-100 | a word that pushes the counter over the limit closes the last chunk and starts a new one |
| `Chunker.ChunksOfBlank` | notes_and_quizes_generator.py:91-105 | empty or whitespace-only text gives zero chunks, and any other text gives at least one |
| `Chunker.ChunksKeepWords` | notes_and_quizes_generator.py:91-104 | splitting every chunk and concatenating the word lists in order gives exactly `text.split()`: no word is lost, duplicated, reordered or cut |
| `Chunker.SplitEachJoinEach` | notes_and_quizes_generator.py:98-104 | word lists whose elements are words come back unchanged when each is joined with single spaces and split again |
| `Chunker.GroupWords` | notes_and_quizes_generator.py:91-102 | every element of every chunk's word list is a word of `text.split()`, so it is non-empty and holds no whitespace |
| `Chunker.ChunkWords` | notes_and_quizes_generator.py:98-104 | splitting chunk k gives back exactly the words the loop put in chunk k |
| `Chunker.ChunkLength` | notes_and_quizes_generator.py:96-102 | a chunk of two or more words, and a non-empty chunk 0, has at most `max_length - 1` characters; a chunk of `max_length` characters or more is either a single whole word after chunk 0 or an empty chunk 0, which is that long only when `max_length <= 0` |
| `Chunker.EmptyChunk` | notes_and_quizes_generator.py:93-100 | chunk k is `""` if and only if k = 0 and the first word has `len(word) + 1 > max_length` |
| `Chunker.ChunksAreMaximal` | notes_and_quizes_generator.py:96-99 | each chunk's first word would have pushed the counter of the previous chunk over the limit |
| `Chunker.ChunkCount` | notes_and_quizes_generator.py:95-105 | there are at most one more chunks than words, and no more chunks than words when the first word fits; for text with words, the count is the number of close events plus one |
| `Chunker.JoinCost` | notes_and_quizes_generator.py:96-98 | a non-empty chunk's joined length is its counter value minus one |
| `Chunker.ExampleOneWordPerChunk` | notes_and_quizes_generator.py:95-104 | with limit 10, the words alpha, beta, gamma, delta each form a chunk of their own |
| `Chunker.ExampleLongFirstWord` | notes_and_quizes_generator.py:93-104 | with limit 10, "extraordinary a" gives chunks `""`, "extraordinary", "a" |
| `Chunker.ExampleSplit` | notes_and_quizes_generator.py:91 | "alpha beta gamma delta" splits into four words |
| `Chunker.ExampleChunks` | notes_and_quizes_generator.py:90-105 | `chunk_text("alpha beta gamma delta", 10)` is `["alpha", "beta", "gamma", "delta"]` |
| `Chunker.JoinEachSingles` | notes_and_quizes_generator.py:98-104 | a chunk of one word is that word, unchanged by the `" ".join` |
| `Extraction.HasText` | notes_and_quizes_generator.py:79 | the truth test `if page_text`: a page has text when `extract_text()` gave a string other than `None` and `""` |
| `Extraction.Extracted` | notes_and_quizes_generator.py:76-80 | the accumulated `text`: each page with text contributes its text followed by `"\n"`, in page order |
| `Extraction.OffersGeneration` | notes_and_quizes_generator.py:82 | generation is offered when `text.strip()` is not empty; `OffersGenerationWhen` says when that is |
| `Extraction.ExtractText` | notes_and_quizes_generator.py:76-80 | the loop returns the in-order concatenation `Extracted(pages)`, which is empty or ends with a newline |
| `Extraction.ExtractedOnePage` | notes_and_quizes_generator.py:78-80 | one page contributes its text plus `"\n"` if it has text, and nothing if it gave `None` or `""` |
| `Extraction.ExtractedConcat` | notes_and_quizes_generator.py:77-80 | the text of two runs of pages is the concatenation of their texts, so page order is kept |
| `Extraction.ExtractedEmpty` | notes_and_quizes_generator.py:76-80 | the text is empty exactly when no page gave any text |
| `Extraction.ExtractedBlank` | notes_and_quizes_generator.py:76-82 | the text is all whitespace exactly when every page that gave text gave only whitespace; the added newlines never count |
| `Extraction.OffersGenerationWhen` | notes_and_quizes_generator.py:82 | `text.strip()` is non-empty exactly when some page's text has a non-whitespace character |
| `Aggregation.Aggregated` | notes_and_quizes_generator.py:108-115 | the pair of joined strings: each chunk's generated notes, in chunk order, joined with `"\n\n"`, and likewise its quizzes |
| `Aggregation.AggregateChunks` | notes_and_quizes_generator.py:108-115 | `all_notes` and `all_quizzes` get exactly one entry per chunk, in chunk order, holding that chunk's generated notes and quiz; the two results are those lists joined with `"\n\n"` |
| `Aggregation.AggregatedNone` | notes_and_quizes_generator.py:114-115 | with no chunks, both joined strings are empty |
| `Aggregation.AggregatedOne` | notes_and_quizes_generator.py:110-115 | with one chunk, the result is exactly that chunk's notes and quiz |
| `Aggregation.AggregatedConcat` | notes_and_quizes_generator.py:110-115 | the aggregate of two runs of chunks is their two aggregates with `"\n\n"` between them, for notes and for quizzes |
| `Pipeline.Run` | notes_and_quizes_generator.py:76-116 | a run shows the no-text warning exactly when no page has a non-whitespace character; otherwise it chunks the text with limit 500 into at least one chunk, aggregates the generator's results over those chunks, and passes both joined strings to the merger |

## Left out

- The Streamlit interface is not modelled: the title, the uploader, the text
  areas, the spinner, the button and the error, warning and info messages
  (notes_and_quizes_generator.py:68-72, 83-87, 117-136). It is presentation
  only. `Pipeline.Run` models one run after the button has been pressed.
- Setting up the LLM clients and reading the API key
  (notes_and_quizes_generator.py:12-34), and the prompt templates (:37-50), are
  not modelled. They are foreign library objects and fixed strings.
- The LangChain chains (notes_and_quizes_generator.py:56-65, 111, 116) are
  HTTP calls to remote models. They are the function parameters `generate` and
  `merge`. The concurrency of the notes and quiz requests inside
  `RunnableParallel` is not modelled: `generate` returns both results at once.
- PyPDF2's parsing and `extract_text` (notes_and_quizes_generator.py:75, 78)
  are a third-party library. The model takes the list of page texts as input.
- Exceptions (notes_and_quizes_generator.py:129-134) only send failures to UI
  messages. The model's generator and merger are total functions, so a failed
  call and the discarded partial results are not modelled.
- Characters: Python strings may hold lone surrogate code points, but Dafny's
  `char` cannot. Apart from that, `len` and the whitespace set are Python's.
