// Python's string primitives used by the script: str.split() with no
// argument, str.strip() with no argument, and str.join.

module Text {

  /** The characters Python's str.isspace() accepts; str.split() and
      str.strip() without arguments split and trim on exactly these. */
  predicate IsSpace(c: char) {
    || c == ' '
    || ('\t' <= c <= '\r')              // tab, line feed, vertical tab, form feed, carriage return
    || ('\U{1C}' <= c <= '\U{1F}')      // file, group, record and unit separators
    || c == '\U{85}' || c == '\U{A0}' || c == '\U{1680}'
    || ('\U{2000}' <= c <= '\U{200A}')
    || c == '\U{2028}' || c == '\U{2029}' || c == '\U{202F}' || c == '\U{205F}' || c == '\U{3000}'
  }

  /** True when every character of s is whitespace (so s.strip() == "" and s.split() == []). */
  predicate IsBlank(s: string) {
    forall i :: 0 <= i < |s| ==> IsSpace(s[i])
  }

  /** A word as str.split() produces it: non-empty, no whitespace inside. */
  predicate IsWord(w: string) {
    w != [] && forall i :: 0 <= i < |w| ==> !IsSpace(w[i])
  }

  /** Drops the leading run of whitespace. */
  function DropSpace(s: string): (r: string)
    ensures |r| <= |s|
    ensures r == [] || !IsSpace(r[0])
    ensures forall i :: 0 <= i < |s| - |r| ==> IsSpace(s[i])
  {
    if s != [] && IsSpace(s[0]) then DropSpace(s[1..]) else s
  }

  /** Drops the trailing run of whitespace. */
  function DropSpaceEnd(s: string): (r: string)
    ensures |r| <= |s|
    ensures r == [] || !IsSpace(r[|r| - 1])
    ensures forall i :: |r| <= i < |s| ==> IsSpace(s[i])
  {
    if s != [] && IsSpace(s[|s| - 1]) then DropSpaceEnd(s[..|s| - 1]) else s
  }

  /** The longest prefix of s without whitespace. */
  function TakeWord(s: string): (w: string)
    ensures |w| <= |s|
    ensures forall i :: 0 <= i < |w| ==> !IsSpace(w[i])
    ensures |w| == |s| || IsSpace(s[|w|])
  {
    if s == [] || IsSpace(s[0]) then [] else [s[0]] + TakeWord(s[1..])
  }

  /** What DropSpace leaves is a suffix of its argument. */
  lemma {:induction false} DropSpaceSuffix(s: string)
    ensures DropSpace(s) == s[|s| - |DropSpace(s)|..]
  {
    if s != [] && IsSpace(s[0]) {
      DropSpaceSuffix(s[1..]);
    }
  }

  /** What DropSpaceEnd leaves is a prefix of its argument. */
  lemma {:induction false} DropSpaceEndPrefix(s: string)
    ensures DropSpaceEnd(s) == s[..|DropSpaceEnd(s)|]
  {
    if s != [] && IsSpace(s[|s| - 1]) {
      DropSpaceEndPrefix(s[..|s| - 1]);
    }
  }

  /** What TakeWord returns is a prefix of its argument. */
  lemma {:induction false} TakeWordPrefix(s: string)
    ensures TakeWord(s) == s[..|TakeWord(s)|]
  {
    if s != [] && !IsSpace(s[0]) {
      TakeWordPrefix(s[1..]);
    }
  }

  /** Python's s.strip(): s without its leading and trailing whitespace. */
  function Strip(s: string): (r: string)
    ensures r == [] <==> IsBlank(s)
    ensures r != [] ==> !IsSpace(r[0]) && !IsSpace(r[|r| - 1])
  {
    var t := DropSpace(s);
    DropSpaceSuffix(s);
    DropSpaceEndPrefix(t);
    var r := DropSpaceEnd(t);
    assert t != [] ==> t[0] == s[|s| - |t|];
    assert r != [] ==> r[0] == t[0];
    r
  }

  /** s.strip() is s without a blank prefix and a blank suffix; its own ends are not whitespace, so those are the longest ones. */
  lemma StripLayout(s: string)
    ensures exists a, b :: IsBlank(a) && IsBlank(b) && s == a + (Strip(s) + b)
  {
    var t := DropSpace(s);
    var r := DropSpaceEnd(t);
    LeadingSpace(s);
    TrailingSpace(t);
    assert Strip(s) == r;
    var lead, trail := s[..|s| - |t|], t[|r|..];
    assert IsBlank(lead) && IsBlank(trail) && s == lead + (r + trail);
  }

  /** s is DropSpaceEnd(s) followed by its trailing whitespace. */
  lemma TrailingSpace(s: string)
    ensures s == DropSpaceEnd(s) + s[|DropSpaceEnd(s)|..]
    ensures IsBlank(s[|DropSpaceEnd(s)|..])
  {
    var r := DropSpaceEnd(s);
    DropSpaceEndPrefix(s);
    assert forall i :: 0 <= i < |s| - |r| ==> s[|r|..][i] == s[|r| + i];
  }

  /** Python's s.split(): the maximal runs of non-whitespace characters, in order. */
  function Split(s: string): (words: seq<string>)
    ensures words == [] <==> IsBlank(s)
    decreases |s|
  {
    var t := DropSpace(s);
    if t == [] then
      []
    else
      assert !IsBlank(s) by { DropSpaceSuffix(s); assert s[|s| - |t|] == t[0]; }
      var w := TakeWord(t);
      [w] + Split(t[|w|..])
  }

  /** Every element of s.split() is a word. */
  lemma {:induction false} SplitWords(s: string)
    ensures forall k :: 0 <= k < |Split(s)| ==> IsWord(Split(s)[k])
    decreases |s|
  {
    var t := DropSpace(s);
    if t != [] {
      var w := TakeWord(t);
      SplitWords(t[|w|..]);
      assert Split(s) == [w] + Split(t[|w|..]);
    }
  }

  /** Python's sep.join(parts). */
  function Join(parts: seq<string>, sep: string): string
  {
    if |parts| == 0 then ""
    else if |parts| == 1 then parts[0]
    else parts[0] + sep + Join(parts[1..], sep)
  }

  /** The total number of characters in parts. */
  function TotalLength(parts: seq<string>): nat
  {
    if parts == [] then 0 else |parts[0]| + TotalLength(parts[1..])
  }

  /** Joining n parts adds n - 1 separators and nothing else. */
  lemma {:induction false} JoinLength(parts: seq<string>, sep: string)
    ensures parts != [] ==> |Join(parts, sep)| == TotalLength(parts) + (|parts| - 1) * |sep|
    ensures parts == [] ==> Join(parts, sep) == ""
  {
    if |parts| > 1 {
      JoinLength(parts[1..], sep);
    }
  }

  /** Appending one part to a non-empty list appends the separator and that part. */
  lemma {:induction false} JoinAppend(parts: seq<string>, p: string, sep: string)
    requires parts != []
    ensures Join(parts + [p], sep) == Join(parts, sep) + sep + p
  {
    if |parts| > 1 {
      JoinAppend(parts[1..], p, sep);
      assert (parts + [p])[1..] == parts[1..] + [p];
    }
  }

  /** TakeWord stops exactly at the first whitespace character. */
  lemma {:induction false} TakeWordOfWord(w: string, rest: string)
    requires forall i :: 0 <= i < |w| ==> !IsSpace(w[i])
    requires rest == [] || IsSpace(rest[0])
    ensures TakeWord(w + rest) == w
  {
    if w != [] {
      TakeWordOfWord(w[1..], rest);
      assert (w + rest)[1..] == w[1..] + rest;
    }
  }

  /** Leading whitespace does not change the words. */
  lemma {:induction false} SplitBlankPrefix(b: string, t: string)
    requires IsBlank(b)
    ensures Split(b + t) == Split(t)
    decreases |b|
  {
    if b != [] {
      assert (b + t)[1..] == b[1..] + t;
      assert IsSpace((b + t)[0]);
      assert DropSpace(b + t) == DropSpace(b[1..] + t);
      assert IsBlank(b[1..]) by {
        assert forall i :: 0 <= i < |b| - 1 ==> b[1..][i] == b[i + 1];
      }
      SplitBlankPrefix(b[1..], t);
    } else {
      assert b + t == t;
    }
  }

  /** A word followed by nothing or by whitespace: that word, then the words of the rest. */
  lemma SplitWordThen(w: string, rest: string)
    requires IsWord(w)
    requires rest == [] || IsSpace(rest[0])
    ensures Split(w + rest) == [w] + Split(rest)
  {
    var s := w + rest;
    assert s[0] == w[0];
    assert DropSpace(s) == s;
    TakeWordOfWord(w, rest);
    assert s[|w|..] == rest;
  }

  /** A single word splits into itself. */
  lemma SplitOne(w: string)
    requires IsWord(w)
    ensures Split(w) == [w]
  {
    SplitWordThen(w, "");
    assert w + "" == w;
  }

  /** A word, a space and more text: that word, then the text's words. */
  lemma SplitCons(w: string, j: string)
    requires IsWord(w)
    ensures Split(w + " " + j) == [w] + Split(j)
  {
    assert w + " " + j == w + (" " + j);
    SplitWordThen(w, " " + j);
    SplitBlankPrefix(" ", j);
  }

  /** gaps[0] + words[0] + gaps[1] + ... + words[n - 1] + gaps[n]. */
  function Interleave(gaps: seq<string>, words: seq<string>): string
    requires |gaps| == |words| + 1
  {
    if words == [] then gaps[0] else gaps[0] + words[0] + Interleave(gaps[1..], words[1..])
  }

  /**
   * The layout str.split() reads: words, with runs of whitespace before,
   * between and after them, where the runs between two words are non-empty.
   */
  predicate IsLayout(gaps: seq<string>, words: seq<string>)
  {
    && |gaps| == |words| + 1
    && (forall k :: 0 <= k < |words| ==> IsWord(words[k]))
    && (forall k :: 0 <= k < |gaps| ==> IsBlank(gaps[k]))
    && (forall k :: 0 < k < |words| ==> gaps[k] != [])
  }

  /** The runs of whitespace of s: before its first word, between its words, and after its last. */
  function Gaps(s: string): seq<string>
    decreases |s|
  {
    var t := DropSpace(s);
    if t == [] then
      [s]
    else
      assert !IsBlank(s) by { DropSpaceSuffix(s); assert s[|s| - |t|] == t[0]; }
      var w := TakeWord(t);
      [s[..|s| - |t|]] + Gaps(t[|w|..])
  }

  /** The first gap is the leading whitespace, so it is non-empty when s starts with whitespace. */
  lemma GapsHead(s: string)
    ensures Gaps(s) != [] && Gaps(s)[0] == s[..|s| - |DropSpace(s)|]
    ensures s != [] && IsSpace(s[0]) ==> Gaps(s)[0] != []
  {
    if s != [] && IsSpace(s[0]) {
      assert DropSpace(s) == DropSpace(s[1..]);
    }
  }

  /** s is its leading whitespace followed by DropSpace(s). */
  lemma LeadingSpace(s: string)
    ensures s == s[..|s| - |DropSpace(s)|] + DropSpace(s)
    ensures IsBlank(s[..|s| - |DropSpace(s)|])
  {
    DropSpaceSuffix(s);
  }

  /** Text starting with a non-space is its first word followed by nothing or by whitespace. */
  lemma FirstWord(t: string)
    requires t != [] && !IsSpace(t[0])
    ensures var w := TakeWord(t);
      && IsWord(w) && t == w + t[|w|..]
      && (t[|w|..] == [] || IsSpace(t[|w|..][0]))
  {
    TakeWordPrefix(t);
  }

  /** s is its gaps interleaved with s.split(), and they form a layout. */
  lemma {:induction false} SplitLayout(s: string)
    ensures IsLayout(Gaps(s), Split(s))
    ensures s == Interleave(Gaps(s), Split(s))
    decreases |s|
  {
    var t := DropSpace(s);
    if t != [] {
      var w := TakeWord(t);
      SplitLayout(t[|w|..]);
      LayoutStep(s);
    } else {
      LeadingSpace(s);
      assert Gaps(s) == [s];
      assert Interleave([s], []) == s;
    }
  }

  /** The step of SplitLayout: from the text after the first word to the whole text. */
  lemma LayoutStep(s: string)
    requires DropSpace(s) != []
    requires var t := DropSpace(s); var rest := t[|TakeWord(t)|..];
      IsLayout(Gaps(rest), Split(rest)) && rest == Interleave(Gaps(rest), Split(rest))
    ensures IsLayout(Gaps(s), Split(s))
    ensures s == Interleave(Gaps(s), Split(s))
  {
    var t := DropSpace(s);
    var lead := s[..|s| - |t|];
    LeadingSpace(s);
    var w := TakeWord(t);
    var rest := t[|w|..];
    FirstWord(t);
    var gs, ws := Gaps(rest), Split(rest);
    assert Gaps(s) == [lead] + gs;
    assert Split(s) == [w] + ws;
    assert ws != [] ==> gs[0] != [] by {
      if ws != [] {
        GapsHead(rest);
      }
    }
    LayoutCons(lead, w, gs, ws);
  }

  /** Putting a run of whitespace and a word in front of a layout. */
  lemma LayoutCons(lead: string, w: string, gaps: seq<string>, words: seq<string>)
    requires IsLayout(gaps, words) && IsBlank(lead) && IsWord(w)
    requires words != [] ==> gaps[0] != []
    ensures IsLayout([lead] + gaps, [w] + words)
    ensures Interleave([lead] + gaps, [w] + words) == lead + (w + Interleave(gaps, words))
  {
    assert ([lead] + gaps)[1..] == gaps;
    assert ([w] + words)[1..] == words;
  }

  /** Splitting an interleaving of a layout gives back its words. */
  lemma {:induction false} SplitOfLayout(gaps: seq<string>, words: seq<string>)
    requires IsLayout(gaps, words)
    ensures Split(Interleave(gaps, words)) == words
  {
    if words != [] {
      var rest := Interleave(gaps[1..], words[1..]);
      LayoutTail(gaps, words);
      SplitOfLayout(gaps[1..], words[1..]);
      assert Interleave(gaps, words) == gaps[0] + (words[0] + rest);
      SplitBlankPrefix(gaps[0], words[0] + rest);
      SplitWordThen(words[0], rest);
    }
  }

  /** The tail of a layout is a layout, and its interleaving is empty or starts with whitespace. */
  lemma LayoutTail(gaps: seq<string>, words: seq<string>)
    requires IsLayout(gaps, words) && words != []
    ensures IsLayout(gaps[1..], words[1..])
    ensures var rest := Interleave(gaps[1..], words[1..]);
      rest == [] || IsSpace(rest[0])
  {
    var rest := Interleave(gaps[1..], words[1..]);
    assert IsBlank(gaps[1]);
    if |words| >= 2 {
      assert gaps[1] != [];
      assert rest == gaps[1] + (words[1] + Interleave(gaps[2..], words[2..]));
      assert rest[0] == gaps[1][0];
    }
  }

  /** s.split() is words exactly when s is those words laid out with whitespace. */
  lemma SplitCharacterization(s: string, words: seq<string>)
    ensures Split(s) == words <==> exists gaps :: IsLayout(gaps, words) && s == Interleave(gaps, words)
  {
    SplitLayout(s);
    if exists gaps :: IsLayout(gaps, words) && s == Interleave(gaps, words) {
      var gaps :| IsLayout(gaps, words) && s == Interleave(gaps, words);
      SplitOfLayout(gaps, words);
    }
  }

  /** Splitting words joined by single spaces gives the words back. */
  lemma {:induction false} SplitJoin(words: seq<string>)
    requires forall k :: 0 <= k < |words| ==> IsWord(words[k])
    ensures Split(Join(words, " ")) == words
  {
    if |words| == 1 {
      SplitOne(words[0]);
    } else if |words| > 1 {
      var w, j := words[0], Join(words[1..], " ");
      assert Join(words, " ") == w + " " + j;
      SplitJoin(words[1..]);
      SplitCons(w, j);
    }
  }

  /** Joining two non-empty lists of parts: the two joins with one separator between. */
  lemma {:induction false} JoinConcat(a: seq<string>, b: seq<string>, sep: string)
    requires a != [] && b != []
    ensures Join(a + b, sep) == Join(a, sep) + sep + Join(b, sep)
  {
    if |a| == 1 {
      assert (a + b)[1..] == b;
      assert |b| == 1 ==> Join(b, sep) == b[0];
    } else {
      JoinConcat(a[1..], b, sep);
      assert (a + b)[1..] == a[1..] + b;
    }
  }

  /** A concatenation is blank exactly when both halves are. */
  lemma BlankConcat(a: string, b: string)
    ensures IsBlank(a + b) <==> IsBlank(a) && IsBlank(b)
  {
    if IsBlank(a + b) {
      assert forall i :: 0 <= i < |a| ==> a[i] == (a + b)[i];
      assert forall i :: 0 <= i < |b| ==> b[i] == (a + b)[|a| + i];
    }
  }
}
