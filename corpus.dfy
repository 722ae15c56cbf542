/** How `DocumentRetriever.load_corpus` of `src/retrieval.py` turns a corpus
    text into documents: paragraphs separated by a blank line, each stripped,
    blank ones dropped; line by line when no paragraph is left; and a fixed
    sample corpus when the file is absent. The text is the file's content
    after Python's universal-newline translation. */
module Corpus {
  import opened Text

  /** The ten sentences used when the corpus file does not exist, in order. */
  const SampleCorpus: seq<string> := [
    "India is a country in South Asia. It is the seventh-largest country by area.",
    "The Prime Minister of India is the head of government of the Republic of India.",
    "New Delhi is the capital of India. It is located in northern India.",
    "The Indian economy is one of the fastest-growing major economies in the world.",
    "Hindi is one of the official languages of India, along with English.",
    "The Indian flag has three horizontal stripes: saffron, white, and green.",
    "India gained independence from British rule on August 15, 1947.",
    "The Indian Parliament consists of two houses: Lok Sabha and Rajya Sabha.",
    "Cricket is the most popular sport in India.",
    "The Ganges is one of the major rivers in India."
  ]

  /** A document as the corpus loader keeps it: non-empty, with no
      whitespace at either end. */
  predicate IsDocument(d: string)
  {
    d != [] && !IsSpace(d[0]) && !IsSpace(d[|d| - 1])
  }

  /** `[p.strip() for p in pieces if p.strip()]`: no document is blank or
      has whitespace at an end, and there are none exactly when every piece
      is blank. */
  function StripNonBlank(pieces: seq<string>): (docs: seq<string>)
    ensures |docs| <= |pieces|
    ensures forall k :: 0 <= k < |docs| ==> IsDocument(docs[k])
    ensures docs == [] <==> forall j :: 0 <= j < |pieces| ==> AllSpace(pieces[j])
  {
    if pieces == [] then []
    else
      var d := Strip(pieces[0]);
      var rest := StripNonBlank(pieces[1..]);
      (if d != [] then [d] else []) + rest
  }

  /** Keeping non-blank stripped pieces respects concatenation, so file
      order is kept. */
  lemma {:induction false} StripNonBlankAppend(a: seq<string>, b: seq<string>)
    ensures StripNonBlank(a + b) == StripNonBlank(a) + StripNonBlank(b)
  {
    if a == [] {
      assert a + b == b;
    } else {
      assert (a + b)[0] == a[0];
      assert (a + b)[1..] == a[1..] + b;
      StripNonBlankAppend(a[1..], b);
      StripNonBlankHead(a + b);
      StripNonBlankHead(a);
      var head := if Strip(a[0]) != [] then [Strip(a[0])] else [];
      ConcatAssoc3(head, StripNonBlank(a[1..]), StripNonBlank(b));
    }
  }

  /** Proof helper: one unfolding of `StripNonBlank`. */
  lemma StripNonBlankHead(pieces: seq<string>)
    requires pieces != []
    ensures StripNonBlank(pieces)
         == (if Strip(pieces[0]) != [] then [Strip(pieces[0])] else []) + StripNonBlank(pieces[1..])
  {
  }

  /** The documents of a text split into paragraphs at `"\n\n"`. */
  function ParagraphDocuments(content: string): seq<string>
  {
    StripNonBlank(SplitOn(content, "\n\n"))
  }

  /** The documents of a text read line by line. */
  function LineDocuments(content: string): seq<string>
  {
    StripNonBlank(SplitOn(content, "\n"))
  }

  /** The documents `load_corpus` produces from a corpus file's content:
      the paragraphs, or the lines when there is no paragraph. The line
      fallback never adds a document, so they are the stripped, non-blank
      `"\n\n"`-pieces in file order (`Text.SplitOnPieces` pins the pieces).
      They are all stripped and non-blank, and there are none exactly when
      the text is whitespace. */
  function FileDocuments(content: string): (docs: seq<string>)
    ensures docs == StripNonBlank(SplitOn(content, "\n\n"))
    ensures forall k :: 0 <= k < |docs| ==> IsDocument(docs[k])
    ensures docs == [] <==> AllSpace(content)
  {
    var paragraphs := ParagraphDocuments(content);
    if paragraphs != [] then
      SplitChars(content, "\n\n");
      paragraphs
    else
      FallbackFindsNothing(content);
      LineDocuments(content)
  }

  /** Joining whitespace pieces with a whitespace separator gives whitespace. */
  lemma {:induction false} JoinAllSpace(pieces: seq<string>, sep: string)
    requires AllSpace(sep)
    requires forall j :: 0 <= j < |pieces| ==> AllSpace(pieces[j])
    ensures AllSpace(JoinWith(pieces, sep))
  {
    if |pieces| > 1 {
      JoinAllSpace(pieces[1..], sep);
      var rest := JoinWith(pieces[1..], sep);
      assert JoinWith(pieces, sep) == pieces[0] + sep + rest;
      assert AllSpace(pieces[0]);
    }
  }

  /** The line-by-line fallback only runs when every paragraph is blank,
      that is when the whole text is whitespace, so it finds no document
      either. */
  lemma FallbackFindsNothing(content: string)
    requires ParagraphDocuments(content) == []
    ensures LineDocuments(content) == []
    ensures AllSpace(content)
  {
    BlankParagraphs(content);
    SpacePieces(content, "\n");
  }

  /** A text whose paragraphs are all blank is whitespace. */
  lemma BlankParagraphs(content: string)
    requires ParagraphDocuments(content) == []
    ensures AllSpace(content)
  {
    var paragraphs := SplitOn(content, "\n\n");
    assert forall j :: 0 <= j < |paragraphs| ==> AllSpace(paragraphs[j]);
    JoinAllSpace(paragraphs, "\n\n");
    JoinSplit(content, "\n\n");
  }

  /** Splitting whitespace gives whitespace pieces. */
  lemma SpacePieces(content: string, sep: string)
    requires sep != [] && AllSpace(content)
    ensures forall j :: 0 <= j < |SplitOn(content, sep)| ==> AllSpace(SplitOn(content, sep)[j])
  {
    var pieces := SplitOn(content, sep);
    SplitChars(content, sep);
    forall j | 0 <= j < |pieces| ensures AllSpace(pieces[j]) {
      forall i | 0 <= i < |pieces[j]| ensures IsSpace(pieces[j][i]) {
        var m :| 0 <= m < |content| && content[m] == pieces[j][i];
      }
    }
  }
}
