// The page-text accumulation of notes_and_quizes_generator.py: the text of
// every page that yields some is appended, followed by a newline, in page
// order; the result is offered for generation only when text.strip() is
// not empty.

module Extraction {
  import opened Text

  datatype Option<T> = None | Some(value: T)

  /** Python's truth test on what a page's extract_text() returned: None and "" are false. */
  predicate HasText(page: Option<string>)
  {
    page.Some? && page.value != ""
  }

  /** The text the loop has built after `pages`. */
  function Extracted(pages: seq<Option<string>>): string
  {
    if pages == [] then ""
    else
      var last := pages[|pages| - 1];
      Extracted(pages[..|pages| - 1]) + (if HasText(last) then last.value + "\n" else "")
  }

  /** The condition `if text.strip():` under which the script offers to generate. */
  predicate OffersGeneration(text: string)
  {
    Strip(text) != ""
  }

  /** The text of one page: its extracted text and a newline, or nothing when there is none. */
  lemma ExtractedOnePage(page: Option<string>)
    ensures Extracted([page]) == if HasText(page) then page.value + "\n" else ""
  {
    assert [page][..0] == [];
  }

  /** Accumulation is in page order: the text of two runs of pages is the concatenation of their texts. */
  lemma {:induction false} ExtractedConcat(a: seq<Option<string>>, b: seq<Option<string>>)
    ensures Extracted(a + b) == Extracted(a) + Extracted(b)
    decreases |b|
  {
    if b == [] {
      assert a + b == a;
    } else {
      var init := b[..|b| - 1];
      ExtractedConcat(a, init);
      assert (a + b)[..|a + b| - 1] == a + init;
    }
  }

  /** The text is empty exactly when no page yields any text. */
  lemma {:induction false} ExtractedEmpty(pages: seq<Option<string>>)
    ensures Extracted(pages) == "" <==> forall i :: 0 <= i < |pages| ==> !HasText(pages[i])
    decreases |pages|
  {
    if pages != [] {
      var init := pages[..|pages| - 1];
      ExtractedEmpty(init);
      assert forall i :: 0 <= i < |init| ==> init[i] == pages[i];
    }
  }

  /** The text has a non-whitespace character exactly when some page's text has one: the added newlines never count. */
  lemma {:induction false} ExtractedBlank(pages: seq<Option<string>>)
    ensures IsBlank(Extracted(pages)) <==> forall i :: 0 <= i < |pages| && pages[i].Some? ==> IsBlank(pages[i].value)
    decreases |pages|
  {
    if pages != [] {
      var init, last := pages[..|pages| - 1], pages[|pages| - 1];
      ExtractedBlank(init);
      assert forall i :: 0 <= i < |init| ==> init[i] == pages[i];
      var tail := if HasText(last) then last.value + "\n" else "";
      BlankConcat(Extracted(init), tail);
      if HasText(last) {
        BlankConcat(last.value, "\n");
      }
    }
  }

  /** Generation is offered exactly when some page yields a non-whitespace character. */
  lemma OffersGenerationWhen(pages: seq<Option<string>>)
    ensures OffersGeneration(Extracted(pages)) <==> !forall i :: 0 <= i < |pages| && pages[i].Some? ==> IsBlank(pages[i].value)
  {
    ExtractedBlank(pages);
  }

  /** The extraction loop: `text += extracted_text + "\n"` for every page with text. */
  method ExtractText(pages: seq<Option<string>>) returns (text: string)
    ensures text == Extracted(pages)
    ensures text != "" ==> text[|text| - 1] == '\n'
  {
    text := "";
    for i := 0 to |pages|
      invariant text == Extracted(pages[..i])
      invariant text != "" ==> text[|text| - 1] == '\n'
    {
      assert pages[..i + 1][..i] == pages[..i];
      var extractedText := pages[i];
      if extractedText.Some? && extractedText.value != "" {
        text := text + extractedText.value + "\n";
      }
    }
    assert pages[..|pages|] == pages;
  }
}
