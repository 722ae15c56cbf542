/** The text normalisation of `src/preprocessing.py`: `clean_text`, the
    tokenizer with its whitespace fallback, the stopword and punctuation
    filter, and the `preprocess` pipeline. The NLTK tokenizer, lemmatizer and
    stopword list are inputs (a `Preprocessor` value). */
module Preprocessing {
  import opened Prelude
  import opened Text

  /** The NLTK resources a `TextPreprocessor` holds: its stopword set, the
      word tokenizer (`None` where it raises) and the lemmatizer. */
  datatype Preprocessor = Preprocessor(
    stopWords: set<string>,
    tokenizer: string -> Option<seq<string>>,
    lemmatizer: string -> string)

  /** Python's `string.punctuation`. */
  const Punctuation: string := "!\"#$%&'()*+,-./:;<=>?@[\\]^_`{|}~"

  /** Whether `http\S+|www\S+|https\S+` matches at the start of `t`. The
      third alternative never matches where the first one does not. */
  predicate UrlAt(t: string)
  {
    (|t| > 4 && t[..4] == "http" && !IsSpace(t[4]))
    || (|t| > 3 && t[..3] == "www" && !IsSpace(t[3]))
  }

  /** Whether `\S+@\S+` matches at the start of `t`: the non-space run that
      starts `t` holds an `@` with at least one character of the run on each
      side of it. */
  predicate EmailAt(t: string)
  {
    var n := RunLen(t);
    n >= 3 && '@' in t[1..n - 1]
  }

  /** `re.sub(pattern, '', s)` for a pattern that, where it matches, starts at
      a non-space character and runs (greedily) to the end of its non-space
      run, as both patterns above do. Scanning left to right, a position where
      `at` holds loses the rest of its run; every other character is kept. */
  function ScrubRuns(s: string, at: string -> bool): (r: string)
    ensures forall i :: 0 <= i < |r| ==> r[i] in s
    ensures s != [] && IsSpace(s[0]) ==> r != [] && r[0] == s[0]
    decreases |s|
  {
    if s == [] then []
    else if !IsSpace(s[0]) && at(s) then ScrubRuns(s[RunLen(s)..], at)
    else [s[0]] + ScrubRuns(s[1..], at)
  }

  /** `re.sub(r'http\S+|www\S+|https\S+', '', s)`: no URL match is left
      anywhere in the text. */
  function RemoveUrls(s: string): (r: string)
    ensures forall i :: 0 <= i < |r| ==> !UrlAt(r[i..])
  {
    UrlMatcher();
    NoMatchLeft(s, UrlAt);
    ScrubRuns(s, UrlAt)
  }

  /** `re.sub(r'\S+@\S+', '', s)`: no e-mail match is left anywhere in the
      text. */
  function RemoveEmails(s: string): (r: string)
    ensures forall i :: 0 <= i < |r| ==> !EmailAt(r[i..])
  {
    EmailMatcher();
    NoMatchLeft(s, EmailAt);
    ScrubRuns(s, EmailAt)
  }

  /** Where a non-space run `w` is followed by whitespace or the end, the
      scrub keeps `w` up to its first match (all of it when none) and drops
      the rest of the run; what follows is scrubbed on its own. */
  lemma {:induction false} ScrubRun(w: string, y: string, at: string -> bool, m: nat)
    requires forall i :: 0 <= i < |w| ==> !IsSpace(w[i])
    requires y == [] || IsSpace(y[0])
    requires m <= |w|
    requires forall j :: 0 <= j < m ==> !at((w + y)[j..])
    requires m < |w| ==> at((w + y)[m..])
    ensures ScrubRuns(w + y, at) == w[..m] + ScrubRuns(y, at)
    decreases |w|
  {
    if w == [] {
      assert w + y == y;
    } else if m == 0 {
      assert (w + y)[0..] == w + y;
      ScrubRunDropped(w, y, at);
      assert w[..m] + ScrubRuns(y, at) == ScrubRuns(y, at);
    } else {
      assert (w + y)[0..] == w + y;
      ScrubRunKept(w, y, at);
      MatchesShift(w, y, at, m);
      ScrubRun(w[1..], y, at, m - 1);
      assert w[..m] == [w[0]] + w[1..][..m - 1];
      ConcatAssoc3([w[0]], w[1..][..m - 1], ScrubRuns(y, at));
    }
  }

  /** The first match in `w` moves one place left when `w` loses its first
      character. */
  lemma MatchesShift(w: string, y: string, at: string -> bool, m: nat)
    requires 0 < m <= |w|
    requires forall j :: 0 <= j < m ==> !at((w + y)[j..])
    requires m < |w| ==> at((w + y)[m..])
    ensures forall j :: 0 <= j < m - 1 ==> !at((w[1..] + y)[j..])
    ensures m - 1 < |w[1..]| ==> at((w[1..] + y)[m - 1..])
  {
    forall j | 0 <= j < m - 1 ensures !at((w[1..] + y)[j..]) {
      assert (w[1..] + y)[j..] == (w + y)[j + 1..];
    }
    if m - 1 < |w[1..]| {
      assert (w[1..] + y)[m - 1..] == (w + y)[m..];
    }
  }

  /** A match at the start of the run drops the whole run. */
  lemma ScrubRunDropped(w: string, y: string, at: string -> bool)
    requires w != [] && forall i :: 0 <= i < |w| ==> !IsSpace(w[i])
    requires y == [] || IsSpace(y[0])
    requires at(w + y)
    ensures ScrubRuns(w + y, at) == ScrubRuns(y, at)
  {
    RunOfRun(w, y);
    assert (w + y)[0] == w[0];
    assert (w + y)[|w|..] == y;
  }

  /** No match at the start of the run keeps its first character. */
  lemma ScrubRunKept(w: string, y: string, at: string -> bool)
    requires w != []
    requires !at(w + y)
    ensures ScrubRuns(w + y, at) == [w[0]] + ScrubRuns(w[1..] + y, at)
  {
    assert (w + y)[0] == w[0];
    assert (w + y)[1..] == w[1..] + y;
  }

  /** The run that starts `w + y` is `w` when `y` starts with whitespace or
      is empty. */
  lemma RunOfRun(w: string, y: string)
    requires forall i :: 0 <= i < |w| ==> !IsSpace(w[i])
    requires y == [] || IsSpace(y[0])
    ensures RunLen(w + y) == |w|
  {
    assert forall i :: 0 <= i < |w| ==> (w + y)[i] == w[i];
    if y != [] {
      assert (w + y)[|w|] == y[0];
    }
  }

  /** A whitespace character is never part of a match: it is kept and the
      scrub goes on after it. */
  lemma ScrubSpace(c: char, y: string, at: string -> bool)
    requires IsSpace(c)
    ensures ScrubRuns([c] + y, at) == [c] + ScrubRuns(y, at)
  {
    assert ([c] + y)[1..] == y;
  }

  /** `r`'s leading non-space run is a prefix of `s`'s. */
  predicate RunPrefixOf(r: string, s: string)
  {
    RunLen(r) <= RunLen(s) && r[..RunLen(r)] == s[..RunLen(r)]
  }

  /** Scrubbing cuts a run short or drops it; it never lengthens the run
      that starts the text. */
  lemma {:induction false} ScrubRunPrefix(s: string, at: string -> bool)
    ensures RunPrefixOf(ScrubRuns(s, at), s)
    decreases |s|
  {
    var r := ScrubRuns(s, at);
    if s == [] {
    } else if !IsSpace(s[0]) && at(s) {
      var u := s[RunLen(s)..];
      assert u == [] || IsSpace(u[0]);
      assert RunLen(r) == 0;
    } else if IsSpace(s[0]) {
      assert RunLen(r) == 0;
    } else {
      ScrubRunPrefix(s[1..], at);
      assert r == [s[0]] + ScrubRuns(s[1..], at);
      assert s == [s[0]] + s[1..];
      RunPrefixCons(s[0], ScrubRuns(s[1..], at), s[1..]);
    }
  }

  /** A non-space character put in front of both texts keeps one run a
      prefix of the other. */
  lemma RunPrefixCons(c: char, r: string, t: string)
    requires !IsSpace(c) && RunPrefixOf(r, t)
    ensures RunPrefixOf([c] + r, [c] + t)
  {
    RunLenCons(c, r);
    RunLenCons(c, t);
    assert ([c] + r)[..1 + RunLen(r)] == [c] + r[..RunLen(r)];
    assert ([c] + t)[..1 + RunLen(r)] == [c] + t[..RunLen(r)];
  }

  /** A non-space character lengthens the leading run by one. */
  lemma RunLenCons(c: char, t: string)
    requires !IsSpace(c)
    ensures RunLen([c] + t) == 1 + RunLen(t)
  {
    assert ([c] + t)[1..] == t;
    assert IsNonSpace(c);
  }

  /** A URL match on a shortened run was already a match on the full run. */
  lemma UrlAtPrefix(r: string, s: string)
    requires RunPrefixOf(r, s)
    ensures UrlAt(r) ==> UrlAt(s)
  {
    if UrlAt(r) {
      if |r| > 4 && r[..4] == "http" && !IsSpace(r[4]) {
        assert forall j :: 0 <= j < 4 ==> r[j] == "http"[j];
        assert RunLen(r) >= 5;
        assert s[..5] == r[..5];
        assert s[..4] == r[..4];
      } else {
        assert forall j :: 0 <= j < 3 ==> r[j] == "www"[j];
        assert RunLen(r) >= 4;
        assert s[..4] == r[..4];
        assert s[..3] == r[..3];
      }
    }
  }

  /** An e-mail match on a shortened run was already a match on the full run. */
  lemma EmailAtPrefix(r: string, s: string)
    requires RunPrefixOf(r, s)
    ensures EmailAt(r) ==> EmailAt(s)
  {
    if EmailAt(r) {
      var n := RunLen(r);
      var m := RunLen(s);
      var j :| 0 <= j < |r[1..n - 1]| && r[1..n - 1][j] == '@';
      assert r[1 + j] == '@';
      assert s[1 + j] == r[1 + j];
      assert s[1..m - 1][j] == '@';
    }
  }

  /** A pattern of the kind `ScrubRuns` removes: a match starts at a
      non-space character, and a match on a shortened run is a match on the
      full run. */
  ghost predicate RunMatcher(at: string -> bool)
  {
    && (forall t :: at(t) ==> t != [] && !IsSpace(t[0]))
    && (forall r, t :: RunPrefixOf(r, t) && at(r) ==> at(t))
  }

  /** After a scrub no match is left anywhere in the text. */
  lemma {:induction false} NoMatchLeft(s: string, at: string -> bool)
    requires RunMatcher(at)
    ensures forall i :: 0 <= i < |ScrubRuns(s, at)| ==> !at(ScrubRuns(s, at)[i..])
    decreases |s|
  {
    var r := ScrubRuns(s, at);
    if s == [] {
    } else if !IsSpace(s[0]) && at(s) {
      NoMatchLeft(s[RunLen(s)..], at);
      assert r == ScrubRuns(s[RunLen(s)..], at);
    } else {
      var r' := ScrubRuns(s[1..], at);
      NoMatchLeft(s[1..], at);
      assert r == [s[0]] + r';
      ScrubRunPrefix(s, at);
      assert !at(r);
      forall i | 0 <= i < |r| ensures !at(r[i..]) {
        if i > 0 {
          assert r[i..] == r'[i - 1..];
        } else {
          assert r[i..] == r;
        }
      }
    }
  }

  /** The URL pattern is one `ScrubRuns` removes. */
  lemma UrlMatcher()
    ensures RunMatcher(UrlAt)
  {
    forall r, t | RunPrefixOf(r, t) && UrlAt(r) ensures UrlAt(t) {
      UrlAtPrefix(r, t);
    }
  }

  /** The e-mail pattern is one `ScrubRuns` removes. */
  lemma EmailMatcher()
    ensures RunMatcher(EmailAt)
  {
    forall r, t | RunPrefixOf(r, t) && EmailAt(r) ensures EmailAt(t) {
      EmailAtPrefix(r, t);
    }
  }

  /** Text with no match anywhere comes out of a scrub unchanged, so both
      substitutions are idempotent. */
  lemma {:induction false} ScrubFixed(s: string, at: string -> bool)
    requires forall i :: 0 <= i < |s| ==> !at(s[i..])
    ensures ScrubRuns(s, at) == s
    decreases |s|
  {
    if s != [] {
      assert !at(s[0..]);
      assert s[0..] == s;
      forall i | 0 <= i < |s[1..]| ensures !at(s[1..][i..]) {
        assert s[1..][i..] == s[i + 1..];
      }
      ScrubFixed(s[1..], at);
    }
  }

  /** `re.sub(r'\s+', ' ', s)`: every whitespace run becomes one blank;
      non-space runs are copied. */
  function CollapseSpaces(s: string): (r: string)
    ensures |r| <= |s|
    decreases |s|
  {
    if s == [] then []
    else if IsSpace(s[0]) then " " + CollapseSpaces(s[SpaceRunLen(s)..])
    else
      var n := RunLen(s);
      s[..n] + CollapseSpaces(s[n..])
  }

  /** `CollapseSpaces` starts with whitespace exactly when its input does. */
  lemma CollapseFirst(s: string)
    ensures CollapseSpaces(s) != [] ==> s != [] && (IsSpace(CollapseSpaces(s)[0]) <==> IsSpace(s[0]))
  {
    if s != [] && !IsSpace(s[0]) {
      var n := RunLen(s);
      assert n > 0 by {
        assert IsNonSpace(s[0]);
      }
      assert CollapseSpaces(s)[0] == s[0];
    }
  }

  /** Every whitespace character is a blank not followed by whitespace. */
  predicate SingleBlanks(r: string)
  {
    forall i :: 0 <= i < |r| && IsSpace(r[i]) ==> r[i] == ' ' && (i + 1 == |r| || !IsSpace(r[i + 1]))
  }

  /** A blank is the only whitespace `CollapseSpaces` leaves, and it is
      never followed by whitespace. */
  lemma {:induction false} CollapseBlanks(s: string)
    ensures SingleBlanks(CollapseSpaces(s))
    decreases |s|
  {
    if s != [] {
      var r := CollapseSpaces(s);
      if IsSpace(s[0]) {
        var n := SpaceRunLen(s);
        var rest := CollapseSpaces(s[n..]);
        CollapseBlanks(s[n..]);
        CollapseFirst(s[n..]);
        assert r == " " + rest;
        forall i | 0 <= i < |r| && IsSpace(r[i]) ensures r[i] == ' ' && (i + 1 == |r| || !IsSpace(r[i + 1])) {
          if 0 < i {
            assert r[i] == rest[i - 1];
          }
          if i + 1 < |r| {
            assert r[i + 1] == rest[i];
          }
        }
      } else {
        var n := RunLen(s);
        var rest := CollapseSpaces(s[n..]);
        CollapseBlanks(s[n..]);
        assert r == s[..n] + rest;
        assert forall i :: 0 <= i < n ==> r[i] == s[i] && !IsSpace(r[i]);
        forall i | 0 <= i < |r| && IsSpace(r[i]) ensures r[i] == ' ' && (i + 1 == |r| || !IsSpace(r[i + 1])) {
          assert n <= i;
          assert r[i] == rest[i - n];
          if i + 1 < |r| {
            assert r[i + 1] == rest[i + 1 - n];
          }
        }
      }
    }
  }

  /** Every character `CollapseSpaces` leaves is a blank or comes from its
      input. */
  lemma {:induction false} CollapseChars(s: string)
    ensures forall i :: 0 <= i < |CollapseSpaces(s)| ==> CollapseSpaces(s)[i] == ' ' || CollapseSpaces(s)[i] in s
    decreases |s|
  {
    if s != [] {
      var r := CollapseSpaces(s);
      var n := if IsSpace(s[0]) then SpaceRunLen(s) else RunLen(s);
      var rest := CollapseSpaces(s[n..]);
      CollapseChars(s[n..]);
      assert forall k :: 0 <= k < |rest| ==> rest[k] == ' ' || rest[k] in s[n..];
      var m := if IsSpace(s[0]) then 1 else n;
      assert r == (if IsSpace(s[0]) then " " else s[..n]) + rest;
      forall i | 0 <= i < |r| ensures r[i] == ' ' || r[i] in s {
        if i < m {
          assert r[i] == ' ' || r[i] == s[i];
        } else {
          assert r[i] == rest[i - m];
          if rest[i - m] != ' ' {
            assert rest[i - m] in s[n..];
            var j :| 0 <= j < |s[n..]| && s[n..][j] == rest[i - m];
            assert s[n + j] == r[i];
          }
        }
      }
    }
  }

  /** Collapsing whitespace keeps the tokens of `str.split()`. */
  lemma {:induction false} WordsCollapse(s: string)
    ensures Words(CollapseSpaces(s)) == Words(s)
    decreases |s|
  {
    if s == [] {
    } else if IsSpace(s[0]) {
      var n := SpaceRunLen(s);
      var rest := CollapseSpaces(s[n..]);
      WordsCollapse(s[n..]);
      assert (" " + rest)[1..] == rest;
      WordsSkipSpaces(s, n);
    } else {
      var n := RunLen(s);
      WordsCollapse(s[n..]);
      WordsCons(s[..n], CollapseSpaces(s[n..]));
    }
  }

  /** Stripping keeps the tokens of `str.split()`. */
  lemma WordsStrip(x: string)
    ensures Words(Strip(x)) == Words(x)
  {
    var l := TrimLeft(x, IsSpace);
    WordsTrimLeft(x);
    WordsTrimRight(l);
    assert Strip(x) == TrimRight(l, IsSpace);
  }

  /** Leading whitespace does not change the tokens. */
  lemma WordsTrimLeft(x: string)
    ensures Words(TrimLeft(x, IsSpace)) == Words(x)
  {
    var k := Span(x, IsSpace);
    assert AllSpace(x[..k]);
    WordsSkipSpaces(x, k);
  }

  /** Trailing whitespace does not change the tokens. */
  lemma WordsTrimRight(l: string)
    ensures Words(TrimRight(l, IsSpace)) == Words(l)
  {
    var m := SpanRight(l, IsSpace);
    var r := l[..|l| - m];
    var tail := l[|l| - m..];
    assert AllSpace(tail) by {
      assert forall i :: 0 <= i < |tail| ==> tail[i] == l[|l| - m + i];
    }
    SplitAt(l, |l| - m);
    WordsAppendSpaces(r, tail);
  }

  /** Stripping a collapsed string leaves words separated by single blanks. */
  lemma StripNormalized(x: string)
    requires SingleBlanks(x)
    ensures Normalized(Strip(x))
  {
    var k := Span(x, IsSpace);
    var m := SpanRight(x[k..], IsSpace);
    assert Strip(x) == x[k..|x| - m];
    SliceSingleBlanks(x, k, |x| - m);
    BlanksInside(Strip(x));
  }

  /** Single blanks that neither start nor end the text are normalised
      spacing. */
  lemma BlanksInside(r: string)
    requires SingleBlanks(r)
    requires r != [] ==> !IsSpace(r[0]) && !IsSpace(r[|r| - 1])
    ensures Normalized(r)
  {
    forall i | 0 <= i < |r| && IsSpace(r[i]) ensures r[i] == ' ' && 0 < i < |r| - 1 && !IsSpace(r[i + 1]) {
    }
  }

  /** A slice of text with single blanks has single blanks. */
  lemma SliceSingleBlanks(x: string, a: nat, b: nat)
    requires SingleBlanks(x) && a <= b <= |x|
    ensures SingleBlanks(x[a..b])
  {
    var r := x[a..b];
    forall i | 0 <= i < |r| && IsSpace(r[i]) ensures r[i] == ' ' && (i + 1 == |r| || !IsSpace(r[i + 1])) {
      assert r[i] == x[a + i];
      if i + 1 < |r| {
        assert r[i + 1] == x[a + i + 1];
      }
    }
  }

  /** `clean_text`: lower-case, drop URL and e-mail runs, collapse every
      whitespace run to one blank, strip. The result is the `str.split()`
      tokens of the scrubbed text joined by single blanks, and it holds no
      upper-case letter. */
  function CleanText(text: string): (r: string)
    ensures Normalized(r)
    ensures forall i :: 0 <= i < |r| ==> !IsUpper(r[i])
    ensures r == JoinWith(Words(RemoveEmails(RemoveUrls(Lower(text)))), " ")
  {
    CleanTextFacts(text);
    Strip(CollapseSpaces(RemoveEmails(RemoveUrls(Lower(text)))))
  }

  lemma CleanTextFacts(text: string)
    ensures var r := Strip(CollapseSpaces(RemoveEmails(RemoveUrls(Lower(text)))));
      && Normalized(r)
      && (forall i :: 0 <= i < |r| ==> !IsUpper(r[i]))
      && r == JoinWith(Words(RemoveEmails(RemoveUrls(Lower(text)))), " ")
  {
    var lowered := Lower(text);
    var noUrls := RemoveUrls(lowered);
    var scrubbed := RemoveEmails(noUrls);
    var collapsed := CollapseSpaces(scrubbed);
    var r := Strip(collapsed);
    CollapseBlanks(scrubbed);
    CollapseChars(scrubbed);
    StripNormalized(collapsed);
    WordsStrip(collapsed);
    WordsCollapse(scrubbed);
    JoinOfWords(r);
    forall i | 0 <= i < |r| ensures !IsUpper(r[i]) {
      assert r[i] in collapsed;
      var j :| 0 <= j < |collapsed| && collapsed[j] == r[i];
      if collapsed[j] != ' ' {
        assert collapsed[j] in scrubbed;
        var k :| 0 <= k < |scrubbed| && scrubbed[k] == r[i];
        assert scrubbed[k] in noUrls;
        var l :| 0 <= l < |noUrls| && noUrls[l] == r[i];
        assert noUrls[l] in lowered;
      }
    }
  }

  /** A token list with every token a whitespace-free non-empty word. */
  predicate AllWords(ws: seq<string>)
  {
    forall k :: 0 <= k < |ws| ==> IsWord(ws[k])
  }

  /** `tokenize`: NLTK's `word_tokenize`, or `text.split()` when it raises.
      The fallback gives words, and on text with single interior blanks
      joining them back with blanks gives the text. */
  function Tokenize(p: Preprocessor, text: string): (tokens: seq<string>)
    ensures p.tokenizer(text).Some? ==> tokens == p.tokenizer(text).value
    ensures p.tokenizer(text).None? ==> AllWords(tokens)
    ensures p.tokenizer(text).None? && Normalized(text) ==> JoinWith(tokens, " ") == text
  {
    match p.tokenizer(text)
    case Some(tokens) => tokens
    case None =>
      if Normalized(text) then JoinOfWords(text); Words(text) else Words(text)
  }

  /** Python's `t in u` on strings: `t` is a contiguous substring of `u`. */
  predicate IsSubstring(t: string, u: string)
    decreases |u|
  {
    (|t| <= |u| && u[..|t|] == t) || (u != [] && IsSubstring(t, u[1..]))
  }

  /** The test `remove_stopwords` keeps a token by. */
  predicate Keeps(stopWords: set<string>, token: string)
  {
    Lower(token) !in stopWords && !IsSubstring(token, Punctuation)
  }

  /** `remove_stopwords`: every kept token passes the test (so none is
      empty), and each token value occurs as often as in the input when it
      passes and not at all otherwise. */
  function RemoveStopwords(stopWords: set<string>, tokens: seq<string>): (r: seq<string>)
    ensures forall k :: 0 <= k < |r| ==> Keeps(stopWords, r[k]) && r[k] != "" && r[k] in tokens
  {
    if tokens == [] then []
    else (if Keeps(stopWords, tokens[0]) then [tokens[0]] else []) + RemoveStopwords(stopWords, tokens[1..])
  }

  /** Each token value is kept as often as it occurs when it passes the test,
      and dropped entirely otherwise. */
  lemma {:induction false} RemoveStopwordsCount(stopWords: set<string>, tokens: seq<string>, t: string)
    ensures multiset(RemoveStopwords(stopWords, tokens))[t] == if Keeps(stopWords, t) then multiset(tokens)[t] else 0
  {
    if tokens != [] {
      assert tokens == [tokens[0]] + tokens[1..];
      RemoveStopwordsCount(stopWords, tokens[1..], t);
    }
  }

  /** Proof helper: one unfolding of `RemoveStopwords`. */
  lemma RemoveStopwordsHead(stopWords: set<string>, tokens: seq<string>)
    requires tokens != []
    ensures RemoveStopwords(stopWords, tokens)
         == (if Keeps(stopWords, tokens[0]) then [tokens[0]] else []) + RemoveStopwords(stopWords, tokens[1..])
  {
  }

  /** The filter keeps order: filtering a concatenation filters each part. */
  lemma {:induction false} RemoveStopwordsAppend(stopWords: set<string>, a: seq<string>, b: seq<string>)
    ensures RemoveStopwords(stopWords, a + b) == RemoveStopwords(stopWords, a) + RemoveStopwords(stopWords, b)
  {
    if a != [] {
      var head := if Keeps(stopWords, a[0]) then [a[0]] else [];
      assert (a + b)[0] == a[0];
      assert (a + b)[1..] == a[1..] + b;
      RemoveStopwordsAppend(stopWords, a[1..], b);
      RemoveStopwordsHead(stopWords, a + b);
      RemoveStopwordsHead(stopWords, a);
      ConcatAssoc3(head, RemoveStopwords(stopWords, a[1..]), RemoveStopwords(stopWords, b));
    } else {
      assert a + b == b;
    }
  }

  /** `lemmatize`: one lemma per token, in order. */
  function Lemmatize(p: Preprocessor, tokens: seq<string>): (lemmas: seq<string>)
    ensures |lemmas| == |tokens|
    ensures forall i :: 0 <= i < |tokens| ==> lemmas[i] == p.lemmatizer(tokens[i])
  {
    seq(|tokens|, i requires 0 <= i < |tokens| => p.lemmatizer(tokens[i]))
  }

  /** The filter keeps words words. */
  lemma RemoveStopwordsWords(stopWords: set<string>, tokens: seq<string>)
    requires AllWords(tokens)
    ensures AllWords(RemoveStopwords(stopWords, tokens))
  {
    var kept := RemoveStopwords(stopWords, tokens);
    forall k | 0 <= k < |kept| ensures IsWord(kept[k]) {
      var j :| 0 <= j < |tokens| && tokens[j] == kept[k];
    }
  }

  /** Joining words with blanks gives a normalized text whose tokens are
      those words. */
  lemma JoinWords(ws: seq<string>)
    ensures AllWords(ws) ==> Normalized(JoinWith(ws, " ")) && Words(JoinWith(ws, " ")) == ws
  {
    if AllWords(ws) {
      JoinIsNormalized(ws);
      WordsOfJoin(ws);
    }
  }

  /** `preprocess`: clean, tokenize, optionally drop stopwords, optionally
      lemmatize, join with single blanks. Without lemmatizing, when the
      tokens are words the result is normalized and its tokens are the
      (filtered) tokens; with the whitespace fallback and both steps off it
      is `clean_text`'s output. */
  function Preprocess(p: Preprocessor, text: string, removeStopwordsFlag: bool, lemmatizeFlag: bool): (r: string)
    ensures !lemmatizeFlag && AllWords(Tokenize(p, CleanText(text))) ==>
      && Normalized(r)
      && Words(r) == (if removeStopwordsFlag then RemoveStopwords(p.stopWords, Tokenize(p, CleanText(text)))
                      else Tokenize(p, CleanText(text)))
    ensures p.tokenizer(CleanText(text)).None? && !removeStopwordsFlag && !lemmatizeFlag ==> r == CleanText(text)
  {
    var cleaned := CleanText(text);
    var tokens := Tokenize(p, cleaned);
    var kept := if removeStopwordsFlag then RemoveStopwords(p.stopWords, tokens) else tokens;
    var lemmas := if lemmatizeFlag then Lemmatize(p, kept) else kept;
    if AllWords(tokens) then
      RemoveStopwordsWords(p.stopWords, tokens);
      JoinWords(lemmas);
      JoinWith(lemmas, " ")
    else
      JoinWith(lemmas, " ")
  }

  /** `preprocess_for_retrieval`: stopwords removed, no lemmatizing. When
      the tokens of the cleaned text are words (always so with the
      whitespace fallback) the result is normalized and its tokens are the
      stopword-filtered tokens. */
  function PreprocessForRetrieval(p: Preprocessor, text: string): (r: string)
    ensures AllWords(Tokenize(p, CleanText(text))) ==>
      && Normalized(r)
      && Words(r) == RemoveStopwords(p.stopWords, Tokenize(p, CleanText(text)))
    ensures p.tokenizer(CleanText(text)).None? ==>
      && Normalized(r)
      && Words(r) == RemoveStopwords(p.stopWords, Words(CleanText(text)))
  {
    Preprocess(p, text, true, false)
  }
}
