// The greedy word chunker chunk_text of notes_and_quizes_generator.py: the
// text is split into words, and each word is charged its length plus one
// against max_length; when the running charge goes over the limit the
// current chunk is closed and the word starts the next one.

module Chunker {
  import opened Text

  /** The max_length default of chunk_text, which is the value the script uses. */
  const DefaultMaxLength: int := 500

  /** What the running counter charges for a list of words: len(word) + 1 each. */
  function Cost(words: seq<string>): nat
  {
    if words == [] then 0 else |words[0]| + 1 + Cost(words[1..])
  }

  /** The words of all groups, in order. */
  function Flatten(groups: seq<seq<string>>): seq<string>
  {
    if groups == [] then [] else groups[0] + Flatten(groups[1..])
  }

  /** The loop variables of chunk_text, with the chunks closed so far kept as word lists. */
  datatype State = State(closed: seq<seq<string>>, current: seq<string>, length: int)

  /** The loop variables before the first word. */
  const Start: State := State([], [], 0)

  /** One iteration of the loop on `word`. */
  function Step(st: State, word: string, maxLength: int): State
  {
    var length := st.length + |word| + 1;
    if length > maxLength then State(st.closed + [st.current], [word], |word| + 1)
    else State(st.closed, st.current + [word], length)
  }

  /** The loop variables after the loop has seen `words`. */
  function Feed(words: seq<string>, maxLength: int): State
  {
    if words == [] then Start
    else Step(Feed(words[..|words| - 1], maxLength), words[|words| - 1], maxLength)
  }

  /** The closed chunks, followed by the current one unless it is empty (the final `if current_chunk`). */
  function Pending(st: State): seq<seq<string>>
  {
    if st.current == [] then st.closed else st.closed + [st.current]
  }

  /** The chunks chunk_text returns, as word lists. */
  function Groups(words: seq<string>, maxLength: int): seq<seq<string>>
  {
    Pending(Feed(words, maxLength))
  }

  /** Each word list joined with single spaces. */
  function JoinEach(groups: seq<seq<string>>): seq<string>
  {
    seq(|groups|, k requires 0 <= k < |groups| => Join(groups[k], " "))
  }

  /** Each chunk split back into words. */
  function SplitEach(chunks: seq<string>): seq<seq<string>>
  {
    seq(|chunks|, k requires 0 <= k < |chunks| => Split(chunks[k]))
  }

  /** The value of chunk_text(text, maxLength). */
  function Chunks(text: string, maxLength: int): seq<string>
  {
    JoinEach(Groups(Split(text), maxLength))
  }

  /**
   * A description of the chunker's output that does not mention its loop:
   * the groups hold the words in order, and they have the greedy shape.
   */
  predicate IsGreedyPartition(groups: seq<seq<string>>, words: seq<string>, maxLength: int)
  {
    && Flatten(groups) == words
    && (words == [] ==> groups == [])
    && GreedyShape(groups, maxLength)
  }

  /**
   * Only the first group may be empty; the first group, when it has words,
   * fits the limit, and so does every group of two or more words; and the
   * first word of each group would not have fitted in the group before it.
   */
  predicate GreedyShape(groups: seq<seq<string>>, maxLength: int)
  {
    && (forall k :: 1 <= k < |groups| ==> groups[k] != [])
    && (groups != [] && groups[0] != [] ==> Cost(groups[0]) <= maxLength)
    && (forall k :: 0 <= k < |groups| && |groups[k]| >= 2 ==> Cost(groups[k]) <= maxLength)
    && (forall k :: 0 <= k < |groups| - 1 ==> Cost(groups[k]) + |groups[k + 1][0]| + 1 > maxLength)
  }

  /** What the loop keeps true at the top of every iteration, after it has seen `words`. */
  predicate Invariant(st: State, words: seq<string>, maxLength: int)
  {
    && st.length == Cost(st.current)
    && (words == [] <==> st.current == [])
    && (words == [] ==> st.closed == [])
    && IsGreedyPartition(Pending(st), words, maxLength)
  }

  // ---------------------------------------------------------------------
  // Helper facts about Cost and Flatten

  lemma {:induction false} CostAppend(g: seq<string>, w: string)
    ensures Cost(g + [w]) == Cost(g) + |w| + 1
  {
    if g != [] {
      CostAppend(g[1..], w);
      assert (g + [w])[1..] == g[1..] + [w];
    }
  }

  lemma {:induction false} FlattenAppend(groups: seq<seq<string>>, g: seq<string>)
    ensures Flatten(groups + [g]) == Flatten(groups) + g
  {
    if groups != [] {
      FlattenAppend(groups[1..], g);
      assert (groups + [g])[1..] == groups[1..] + [g];
    }
  }

  /** When every group after the first has a word, there are at most one more groups than words. */
  lemma {:induction false} FlattenCount(groups: seq<seq<string>>)
    requires forall k :: 1 <= k < |groups| ==> groups[k] != []
    ensures |groups| <= |Flatten(groups)| + 1
    ensures groups != [] && groups[0] != [] ==> |groups| <= |Flatten(groups)|
  {
    if |groups| > 1 {
      FlattenCount(groups[1..]);
    }
  }

  /** Flattening loses no word: a first or second group with words gives words. */
  lemma FlattenNonEmpty(groups: seq<seq<string>>)
    requires groups != [] && (groups[0] != [] || (|groups| >= 2 && groups[1] != []))
    ensures Flatten(groups) != []
  {
    if groups[0] == [] {
      assert Flatten(groups) == Flatten(groups[1..]);
      assert groups[1..][0] == groups[1];
    }
  }

  /** Every word of every group is a word of the flattening. */
  lemma {:induction false} FlattenMember(groups: seq<seq<string>>, k: nat, j: nat)
    requires k < |groups| && j < |groups[k]|
    ensures groups[k][j] in Flatten(groups)
  {
    if k > 0 {
      FlattenMember(groups[1..], k - 1, j);
    }
  }

  /** A non-empty group joined with single spaces is one character shorter than its charge. */
  lemma {:induction false} JoinCost(g: seq<string>)
    requires g != []
    ensures |Join(g, " ")| == Cost(g) - 1
  {
    JoinLength(g, " ");
    CostTotal(g);
  }

  lemma {:induction false} CostTotal(g: seq<string>)
    ensures Cost(g) == TotalLength(g) + |g|
  {
    if g != [] {
      CostTotal(g[1..]);
    }
  }

  // ---------------------------------------------------------------------
  // The loop keeps the greedy partition

  /** A one-word group that did not fit after the last group keeps the greedy shape. */
  lemma ShapeAddGroup(groups: seq<seq<string>>, w: string, maxLength: int)
    requires GreedyShape(groups, maxLength) && groups != []
    requires Cost(groups[|groups| - 1]) + |w| + 1 > maxLength
    ensures GreedyShape(groups + [[w]], maxLength)
  {
    var g := groups + [[w]];
    assert Cost([w]) == |w| + 1 by { assert [w][1..] == []; }
    assert forall k :: 0 <= k < |groups| ==> g[k] == groups[k];
  }

  /** Replacing the last group by a non-empty one that fits and starts with the same word keeps the greedy shape. */
  lemma ShapeReplaceLast(groups: seq<seq<string>>, last: seq<string>, maxLength: int)
    requires GreedyShape(groups, maxLength) && groups != []
    requires last != [] && Cost(last) <= maxLength
    requires |groups| >= 2 ==> last[0] == groups[|groups| - 1][0]
    ensures GreedyShape(groups[..|groups| - 1] + [last], maxLength)
  {
    var n := |groups| - 1;
    var g := groups[..n] + [last];
    assert forall k :: 0 <= k < n ==> g[k] == groups[k];
    assert g[n] == last;
  }

  /** A prefix of a greedy-shaped list is greedy-shaped. */
  lemma ShapePrefix(groups: seq<seq<string>>, n: nat, maxLength: int)
    requires GreedyShape(groups, maxLength) && n <= |groups|
    ensures GreedyShape(groups[..n], maxLength)
  {
    assert forall k :: 0 <= k < n ==> groups[..n][k] == groups[k];
  }

  /** The first word: a partition of a single word. */
  lemma GreedyFirstWord(w: string, maxLength: int)
    ensures |w| + 1 > maxLength ==> IsGreedyPartition([[], [w]], [w], maxLength)
    ensures |w| + 1 <= maxLength ==> IsGreedyPartition([[w]], [w], maxLength)
  {
    assert Flatten([[w]]) == [w] by { assert [[w]][1..] == []; }
    assert Flatten([[], [w]]) == [w] by { assert [[], [w]][1..] == [[w]]; }
    assert Cost([w]) == |w| + 1 by { assert [w][1..] == []; }
    if |w| + 1 > maxLength {
      ShapeAddGroup([[]], w, maxLength);
      assert [[]] + [[w]] == [[], [w]];
    }
  }

  /** A word that does not fit starts a new group. */
  lemma GreedyNewGroup(groups: seq<seq<string>>, words: seq<string>, w: string, maxLength: int)
    requires IsGreedyPartition(groups, words, maxLength)
    requires words != []
    requires Cost(groups[|groups| - 1]) + |w| + 1 > maxLength
    ensures IsGreedyPartition(groups + [[w]], words + [w], maxLength)
  {
    FlattenAppend(groups, [w]);
    ShapeAddGroup(groups, w, maxLength);
  }

  /** A word that fits joins the last group. */
  lemma GreedyGrowLast(groups: seq<seq<string>>, words: seq<string>, w: string, maxLength: int)
    requires IsGreedyPartition(groups, words, maxLength)
    requires groups != [] && groups[|groups| - 1] != []
    requires Cost(groups[|groups| - 1]) + |w| + 1 <= maxLength
    ensures IsGreedyPartition(groups[..|groups| - 1] + [groups[|groups| - 1] + [w]], words + [w], maxLength)
  {
    var n := |groups| - 1;
    var init, last := groups[..n], groups[n];
    assert Flatten(init + [last + [w]]) == words + [w] by {
      assert groups == init + [last];
      FlattenAppend(init, last);
      FlattenAppend(init, last + [w]);
    }
    assert GreedyShape(init + [last + [w]], maxLength) by {
      CostAppend(last, w);
      ShapeReplaceLast(groups, last + [w], maxLength);
    }
  }

  /** One iteration keeps the invariant. */
  lemma StepKeepsInvariant(st: State, words: seq<string>, w: string, maxLength: int)
    requires Invariant(st, words, maxLength)
    ensures Invariant(Step(st, w, maxLength), words + [w], maxLength)
  {
    var st' := Step(st, w, maxLength);
    assert Cost([w]) == |w| + 1 by { assert [w][1..] == []; }
    CostAppend(st.current, w);
    if words == [] {
      GreedyFirstWord(w, maxLength);
      assert words + [w] == [w];
    } else {
      var groups := Pending(st);
      assert groups == st.closed + [st.current];
      if st.length + |w| + 1 > maxLength {
        GreedyNewGroup(groups, words, w, maxLength);
        assert Pending(st') == groups + [[w]];
      } else {
        GreedyGrowLast(groups, words, w, maxLength);
        assert groups[..|groups| - 1] == st.closed;
      }
    }
  }

  /** The invariant holds after any number of words. */
  lemma {:induction false} FeedInvariant(words: seq<string>, maxLength: int)
    ensures Invariant(Feed(words, maxLength), words, maxLength)
    decreases |words|
  {
    if words != [] {
      var init := words[..|words| - 1];
      FeedInvariant(init, maxLength);
      StepKeepsInvariant(Feed(init, maxLength), init, words[|words| - 1], maxLength);
      assert init + [words[|words| - 1]] == words;
    }
  }

  /** chunk_text's word lists are a greedy partition of the words. */
  lemma GroupsAreGreedy(words: seq<string>, maxLength: int)
    ensures IsGreedyPartition(Groups(words, maxLength), words, maxLength)
  {
    FeedInvariant(words, maxLength);
  }

  /** Removing the last word from a last group of two or more words leaves a greedy partition. */
  lemma DropLastWord(groups: seq<seq<string>>, words: seq<string>, maxLength: int)
    requires IsGreedyPartition(groups, words, maxLength)
    requires groups != [] && |groups[|groups| - 1]| >= 2
    ensures var n := |groups| - 1;
      && words != []
      && groups[n][|groups[n]| - 1] == words[|words| - 1]
      && IsGreedyPartition(groups[..n] + [groups[n][..|groups[n]| - 1]], words[..|words| - 1], maxLength)
      && Cost(groups[n]) == Cost(groups[n][..|groups[n]| - 1]) + |words[|words| - 1]| + 1
  {
    var n := |groups| - 1;
    var init, last := groups[..n], groups[n];
    var lastInit, w := last[..|last| - 1], last[|last| - 1];
    assert groups == init + [last];
    assert last == lastInit + [w];
    assert words == Flatten(init) + lastInit + [w] by {
      FlattenAppend(init, last);
    }
    assert Flatten(init + [lastInit]) == words[..|words| - 1] by {
      FlattenAppend(init, lastInit);
    }
    CostAppend(lastInit, w);
    assert Cost(last) <= maxLength;
    ShapeReplaceLast(groups, lastInit, maxLength);
  }

  /** When there are two or more words, a last group of fewer than two words is a single word after a group that is not the lone empty one. */
  lemma ShortLastGroup(groups: seq<seq<string>>, words: seq<string>, maxLength: int)
    requires IsGreedyPartition(groups, words, maxLength)
    requires groups != [] && |groups[|groups| - 1]| < 2 && |words| >= 2
    ensures |groups| >= 2 && |groups[|groups| - 1]| == 1 && groups[..|groups| - 1] != [[]]
  {
    var n := |groups| - 1;
    var init, last := groups[..n], groups[n];
    assert groups == init + [last];
    FlattenAppend(init, last);
  }

  /** Removing a last group that is a single word leaves a greedy partition, unless only an empty first group is left. */
  lemma DropLastGroup(groups: seq<seq<string>>, words: seq<string>, maxLength: int)
    requires IsGreedyPartition(groups, words, maxLength)
    requires |groups| >= 2 && |groups[|groups| - 1]| == 1
    requires groups[..|groups| - 1] != [[]]
    ensures var n := |groups| - 1;
      && |words| >= 2
      && groups[n] == [words[|words| - 1]]
      && IsGreedyPartition(groups[..n], words[..|words| - 1], maxLength)
  {
    var n := |groups| - 1;
    var init, last := groups[..n], groups[n];
    assert groups == init + [last];
    FlattenAppend(init, last);
    assert words == Flatten(init) + last;
    ShapePrefix(groups, n, maxLength);
    assert init[0] != [] || (|init| >= 2 && init[1] != []);
    FlattenNonEmpty(init);
    assert words[..|words| - 1] == Flatten(init);
  }

  /** chunk_text on a single word. */
  lemma GroupsOfOneWord(w: string, maxLength: int)
    ensures Groups([w], maxLength) == if |w| + 1 > maxLength then [[], [w]] else [[w]]
  {
    assert [w][..0] == [];
    var st := Feed([w], maxLength);
    assert Feed([], maxLength) == Start;
    assert st == Step(Start, w, maxLength);
    if |w| + 1 > maxLength {
      assert st == State([[]], [w], |w| + 1);
    } else {
      assert st == State([], [w], |w| + 1);
    }
  }

  /** A word that fits is added to the last chunk. */
  lemma GroupsAfterFit(words: seq<string>, w: string, maxLength: int, init: seq<seq<string>>, last: seq<string>)
    requires Groups(words, maxLength) == init + [last] && last != []
    requires Cost(last) + |w| + 1 <= maxLength
    ensures Groups(words + [w], maxLength) == init + [last + [w]]
  {
    FeedInvariant(words, maxLength);
    var st := Feed(words, maxLength);
    assert (words + [w])[..|words|] == words;
    assert words != [];
    assert st.closed + [st.current] == init + [last];
    assert st.closed == (init + [last])[..|init|];
  }

  /** A word that does not fit closes the last chunk and starts a new one. */
  lemma GroupsAfterClose(words: seq<string>, w: string, maxLength: int)
    requires words != []
    requires Cost(Groups(words, maxLength)[|Groups(words, maxLength)| - 1]) + |w| + 1 > maxLength
    ensures Groups(words + [w], maxLength) == Groups(words, maxLength) + [[w]]
  {
    FeedInvariant(words, maxLength);
    assert (words + [w])[..|words|] == words;
  }

  /** The uniqueness step when the last group has two or more words. */
  lemma UniqueAfterFit(groups: seq<seq<string>>, words: seq<string>, maxLength: int)
    requires IsGreedyPartition(groups, words, maxLength)
    requires groups != [] && |groups[|groups| - 1]| >= 2
    requires var n := |groups| - 1;
      groups[..n] + [groups[n][..|groups[n]| - 1]] == Groups(words[..|words| - 1], maxLength)
    ensures groups == Groups(words, maxLength)
  {
    var n := |groups| - 1;
    var init, last := groups[..n], groups[n];
    var lastInit, w := last[..|last| - 1], last[|last| - 1];
    assert groups == init + [last];
    assert last == lastInit + [w];
    assert words == Flatten(init) + lastInit + [w] by {
      FlattenAppend(init, last);
    }
    var ws := words[..|words| - 1];
    assert words == ws + [w];
    assert Cost(lastInit) + |w| + 1 <= maxLength by {
      CostAppend(lastInit, w);
      assert |groups[n]| >= 2;
    }
    GroupsAfterFit(ws, w, maxLength, init, lastInit);
  }

  /** The uniqueness step when the last group is a single word that did not fit. */
  lemma UniqueAfterClose(groups: seq<seq<string>>, words: seq<string>, maxLength: int)
    requires IsGreedyPartition(groups, words, maxLength)
    requires |groups| >= 2 && |groups[|groups| - 1]| == 1
    requires groups[..|groups| - 1] != [[]]
    requires groups[..|groups| - 1] == Groups(words[..|words| - 1], maxLength)
    ensures groups == Groups(words, maxLength)
  {
    DropLastGroup(groups, words, maxLength);
    var n := |groups| - 1;
    var ws, w := words[..|words| - 1], words[|words| - 1];
    assert Cost(groups[n - 1]) + |groups[n][0]| + 1 > maxLength;
    GroupsAfterClose(ws, w, maxLength);
    assert words == ws + [w];
    assert groups == groups[..n] + [[w]];
  }

  /** The uniqueness base: a greedy partition of a single word. */
  lemma UniqueOneWord(groups: seq<seq<string>>, w: string, maxLength: int)
    requires IsGreedyPartition(groups, [w], maxLength)
    ensures groups == Groups([w], maxLength)
  {
    GroupsOfOneWord(w, maxLength);
    FlattenCount(groups);
    assert |groups| == 1 || |groups| == 2;
    assert Flatten(groups) == groups[0] + Flatten(groups[1..]);
    if |groups| == 1 {
      assert groups[0] == [w];
      assert Cost([w]) == |w| + 1 by { assert [w][1..] == []; }
    } else {
      assert Flatten(groups[1..]) == groups[1] + Flatten([]) by {
        assert groups[1..][1..] == [];
      }
      assert groups[0] == [] && groups[1] == [w];
    }
  }

  /** There is only one greedy partition, so it is exactly what chunk_text computes. */
  lemma {:induction false} GreedyPartitionIsGroups(groups: seq<seq<string>>, words: seq<string>, maxLength: int)
    requires IsGreedyPartition(groups, words, maxLength)
    ensures groups == Groups(words, maxLength)
    decreases |words|
  {
    if |words| == 1 {
      assert words == [words[0]];
      UniqueOneWord(groups, words[0], maxLength);
    } else if |words| >= 2 {
      var n := |groups| - 1;
      var init, last := groups[..n], groups[n];
      var ws := words[..|words| - 1];
      if |last| >= 2 {
        DropLastWord(groups, words, maxLength);
        GreedyPartitionIsGroups(init + [last[..|last| - 1]], ws, maxLength);
        UniqueAfterFit(groups, words, maxLength);
      } else {
        ShortLastGroup(groups, words, maxLength);
        DropLastGroup(groups, words, maxLength);
        GreedyPartitionIsGroups(init, ws, maxLength);
        UniqueAfterClose(groups, words, maxLength);
      }
    }
  }

  /** Both directions: a list of groups is what chunk_text computes exactly when it is a greedy partition. */
  lemma GroupsCharacterization(groups: seq<seq<string>>, words: seq<string>, maxLength: int)
    ensures groups == Groups(words, maxLength) <==> IsGreedyPartition(groups, words, maxLength)
  {
    GroupsAreGreedy(words, maxLength);
    if IsGreedyPartition(groups, words, maxLength) {
      GreedyPartitionIsGroups(groups, words, maxLength);
    }
  }

  // ---------------------------------------------------------------------
  // What chunk_text promises, stated on the strings it returns

  /** Empty or whitespace-only text gives no chunks; any other text gives at least one. */
  lemma ChunksOfBlank(text: string, maxLength: int)
    ensures Chunks(text, maxLength) == [] <==> IsBlank(text)
  {
    FeedInvariant(Split(text), maxLength);
  }

  /** Joining word lists with single spaces and splitting them again gives the word lists back. */
  lemma SplitEachJoinEach(groups: seq<seq<string>>)
    requires AllWords(groups)
    ensures SplitEach(JoinEach(groups)) == groups
  {
    forall k | 0 <= k < |groups|
      ensures Split(Join(groups[k], " ")) == groups[k]
    {
      SplitJoin(groups[k]);
    }
  }

  /** Every element of every word list is a word. */
  predicate AllWords(groups: seq<seq<string>>)
  {
    forall k, j :: 0 <= k < |groups| && 0 <= j < |groups[k]| ==> IsWord(groups[k][j])
  }

  /** Every word of chunk_text's word lists is a word of text.split(), so it is a word. */
  lemma GroupWords(text: string, maxLength: int)
    ensures AllWords(Groups(Split(text), maxLength))
  {
    var groups := Groups(Split(text), maxLength);
    GroupsAreGreedy(Split(text), maxLength);
    SplitWords(text);
    forall k, j | 0 <= k < |groups| && 0 <= j < |groups[k]|
      ensures IsWord(groups[k][j])
    {
      FlattenMember(groups, k, j);
    }
  }

  /** Splitting every chunk again and concatenating the word lists gives text.split(): no word is lost, duplicated, reordered or cut. */
  lemma ChunksKeepWords(text: string, maxLength: int)
    ensures Flatten(SplitEach(Chunks(text, maxLength))) == Split(text)
  {
    var groups := Groups(Split(text), maxLength);
    GroupsAreGreedy(Split(text), maxLength);
    GroupWords(text, maxLength);
    SplitEachJoinEach(groups);
  }

  /** Splitting a chunk gives back exactly the words of its group. */
  lemma ChunkWords(text: string, maxLength: int, k: nat)
    requires k < |Chunks(text, maxLength)|
    ensures Split(Chunks(text, maxLength)[k]) == Groups(Split(text), maxLength)[k]
  {
    var groups := Groups(Split(text), maxLength);
    GroupWords(text, maxLength);
    assert forall j :: 0 <= j < |groups[k]| ==> IsWord(groups[k][j]);
    SplitJoin(groups[k]);
  }

  /**
   * A chunk of two or more words, and a non-empty first chunk, is at most
   * maxLength - 1 characters long; a chunk of maxLength characters or more
   * is a single word, kept whole, after the first chunk, unless it is an
   * empty first chunk (which is that long only when maxLength <= 0).
   */
  lemma ChunkLength(text: string, maxLength: int, k: nat)
    requires k < |Chunks(text, maxLength)|
    ensures var c := Chunks(text, maxLength)[k];
      |Split(c)| >= 2 ==> |c| <= maxLength - 1
    ensures var c := Chunks(text, maxLength)[k];
      k == 0 && c != "" ==> |c| <= maxLength - 1
    ensures var c := Chunks(text, maxLength)[k];
      |c| >= maxLength ==> (k == 0 && c == "") || (k > 0 && Split(c) == [c])
  {
    var groups := Groups(Split(text), maxLength);
    var g, c := groups[k], Chunks(text, maxLength)[k];
    GroupsAreGreedy(Split(text), maxLength);
    ChunkWords(text, maxLength, k);
    assert c == Join(g, " ");
    if g != [] {
      JoinCost(g);
    }
    if |g| == 1 {
      assert c == g[0];
    }
  }

  /** Only the first chunk can be empty, and it is empty exactly when the first word alone goes over the limit. */
  lemma EmptyChunk(text: string, maxLength: int, k: nat)
    requires k < |Chunks(text, maxLength)|
    ensures Split(text) != []
    ensures Chunks(text, maxLength)[k] == "" <==> k == 0 && |Split(text)[0]| + 1 > maxLength
  {
    var words := Split(text);
    var groups := Groups(words, maxLength);
    var c := Chunks(text, maxLength)[k];
    GroupsAreGreedy(words, maxLength);
    SplitWords(text);
    assert words != [];
    assert c == Join(groups[k], " ");
    if groups[k] != [] {
      JoinCost(groups[k]);
      assert Cost(groups[k]) >= |groups[k][0]| + 1;
      FlattenMember(groups, k, 0);
      assert |groups[k][0]| > 0;
    }
    assert Flatten(groups) == groups[0] + Flatten(groups[1..]);
    if groups[0] == [] {
      assert |groups| >= 2;
      assert Flatten(groups[1..]) == groups[1] + Flatten(groups[2..]);
      assert words[0] == groups[1][0];
    } else {
      assert words[0] == groups[0][0];
      assert Cost(groups[0]) >= |groups[0][0]| + 1;
    }
  }

  /** Each chunk's first word would have pushed the counter over the limit in the chunk before it. */
  lemma ChunksAreMaximal(text: string, maxLength: int, k: nat)
    requires k + 1 < |Chunks(text, maxLength)|
    ensures var chunks := Chunks(text, maxLength);
      Split(chunks[k + 1]) != [] &&
      (if chunks[k] == "" then 0 else |chunks[k]| + 1) + |Split(chunks[k + 1])[0]| + 1 > maxLength
  {
    var groups := Groups(Split(text), maxLength);
    GroupsAreGreedy(Split(text), maxLength);
    ChunkWords(text, maxLength, k + 1);
    if groups[k] != [] {
      JoinCost(groups[k]);
      EmptyChunk(text, maxLength, k);
      assert Chunks(text, maxLength)[k] != "" by {
        ChunkWords(text, maxLength, k);
      }
    }
  }

  /** There are at most one more chunks than words; for text with words, one more than the number of times the counter went over the limit. */
  lemma ChunkCount(text: string, maxLength: int)
    ensures |Chunks(text, maxLength)| <= |Split(text)| + 1
    ensures Split(text) != [] && |Split(text)[0]| + 1 <= maxLength ==> |Chunks(text, maxLength)| <= |Split(text)|
    ensures !IsBlank(text) ==> |Chunks(text, maxLength)| == |Feed(Split(text), maxLength).closed| + 1
  {
    var words := Split(text);
    var groups := Groups(words, maxLength);
    FeedInvariant(words, maxLength);
    FlattenCount(groups);
    if words != [] && |words[0]| + 1 <= maxLength {
      EmptyChunk(text, maxLength, 0);
      ChunkWords(text, maxLength, 0);
    }
  }

  /** A worked example: with a limit of 10, "alpha beta" is refused because the counter reaches 11, so every word is a chunk. */
  lemma ExampleOneWordPerChunk()
    ensures Groups(["alpha", "beta", "gamma", "delta"], 10) == [["alpha"], ["beta"], ["gamma"], ["delta"]]
  {
    var words := ["alpha", "beta", "gamma", "delta"];
    var groups := [["alpha"], ["beta"], ["gamma"], ["delta"]];
    assert Flatten(groups) == words by {
      assert groups[1..][1..][1..][1..] == [];
    }
    GreedyPartitionIsGroups(groups, words, 10);
  }

  /** A worked example: a first word longer than the limit leaves an empty first chunk and a chunk of its own. */
  lemma ExampleLongFirstWord()
    ensures Groups(["extraordinary", "a"], 10) == [[], ["extraordinary"], ["a"]]
  {
    var words := ["extraordinary", "a"];
    var groups := [[], ["extraordinary"], ["a"]];
    assert Flatten(groups) == words by {
      assert groups[1..][1..][1..] == [];
    }
    GreedyPartitionIsGroups(groups, words, 10);
  }

  /** Two words joined by a space split back into those two words. */
  lemma SplitTwo(c: string, d: string)
    requires IsWord(c) && IsWord(d)
    ensures Split(c + " " + d) == [c, d]
  {
    SplitOne(d);
    SplitCons(c, d);
  }

  /** Three words joined by single spaces split back into those three words. */
  lemma SplitThree(b: string, c: string, d: string)
    requires IsWord(b) && IsWord(c) && IsWord(d)
    ensures Split(b + " " + (c + " " + d)) == [b, c, d]
  {
    SplitTwo(c, d);
    SplitCons(b, c + " " + d);
  }

  /** Four words joined by single spaces split back into those four words. */
  lemma SplitFour(a: string, b: string, c: string, d: string)
    requires IsWord(a) && IsWord(b) && IsWord(c) && IsWord(d)
    ensures Split(a + " " + (b + " " + (c + " " + d))) == [a, b, c, d]
  {
    SplitThree(b, c, d);
    SplitCons(a, b + " " + (c + " " + d));
  }

  /** The words of the worked example. */
  lemma ExampleSplit()
    ensures Split("alpha beta gamma delta") == ["alpha", "beta", "gamma", "delta"]
  {
    assert "alpha beta gamma delta" == "alpha" + " " + ("beta" + " " + ("gamma" + " " + "delta"));
    assert IsWord("alpha") && IsWord("beta") && IsWord("gamma") && IsWord("delta");
    SplitFour("alpha", "beta", "gamma", "delta");
  }

  /** Each word as a one-word list. */
  function Singles(words: seq<string>): seq<seq<string>>
  {
    seq(|words|, k requires 0 <= k < |words| => [words[k]])
  }

  /** One-word lists joined with single spaces are the words themselves. */
  lemma JoinEachSingles(words: seq<string>)
    ensures JoinEach(Singles(words)) == words
  {
    forall k | 0 <= k < |words|
      ensures JoinEach(Singles(words))[k] == words[k]
    {
      assert Join([words[k]], " ") == words[k];
    }
  }

  /** The same example on strings: "alpha beta gamma delta" with a limit of 10 gives four one-word chunks. */
  lemma ExampleChunks(text: string)
    requires text == "alpha beta gamma delta"
    ensures Chunks(text, 10) == ["alpha", "beta", "gamma", "delta"]
  {
    var groups := [["alpha"], ["beta"], ["gamma"], ["delta"]];
    assert Groups(Split(text), 10) == groups by {
      ExampleSplit();
      ExampleOneWordPerChunk();
    }
    JoinEachSingles(["alpha", "beta", "gamma", "delta"]);
    assert Singles(["alpha", "beta", "gamma", "delta"]) == groups;
  }

  // ---------------------------------------------------------------------
  // chunk_text itself

  /** The loop state after one more word. */
  lemma FeedPrefix(words: seq<string>, i: nat, maxLength: int)
    requires i < |words|
    ensures Feed(words[..i + 1], maxLength) == Step(Feed(words[..i], maxLength), words[i], maxLength)
  {
    assert words[..i + 1][..i] == words[..i];
  }

  lemma JoinEachAppend(groups: seq<seq<string>>, g: seq<string>)
    ensures JoinEach(groups + [g]) == JoinEach(groups) + [Join(g, " ")]
  {
  }

  /** chunk_text(text, max_length): the loop over text.split(). */
  method ChunkText(text: string, maxLength: int) returns (chunks: seq<string>)
    ensures chunks == Chunks(text, maxLength)
    ensures Flatten(SplitEach(chunks)) == Split(text)
    ensures |chunks| <= |Split(text)| + 1
  {
    var words := Split(text);
    chunks := [];
    var current: seq<string> := [];
    var currentLength := 0;
    for i := 0 to |words|
      invariant current == Feed(words[..i], maxLength).current
      invariant currentLength == Feed(words[..i], maxLength).length
      invariant chunks == JoinEach(Feed(words[..i], maxLength).closed)
      invariant currentLength == Cost(current)
    {
      FeedPrefix(words, i, maxLength);
      FeedInvariant(words[..i + 1], maxLength);
      var word := words[i];
      currentLength := currentLength + |word| + 1;
      if currentLength > maxLength {
        JoinEachAppend(Feed(words[..i], maxLength).closed, current);
        chunks := chunks + [Join(current, " ")];
        current := [word];
        currentLength := |word| + 1;
      } else {
        current := current + [word];
      }
    }
    assert words[..|words|] == words;
    if current != [] {
      JoinEachAppend(Feed(words, maxLength).closed, current);
      chunks := chunks + [Join(current, " ")];
    }
    ChunksKeepWords(text, maxLength);
    ChunkCount(text, maxLength);
  }
}
