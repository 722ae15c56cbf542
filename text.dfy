/** The string operations of Python that the core relies on, stated over
    `seq<char>`: the whitespace class shared by `str.isspace`, `str.strip`,
    `str.split()` and the regular-expression class `\s`; ASCII lower-casing;
    `str.strip`; `str.split(sep)`; `sep.join(parts)`; and `str.split()`. */
module Text {

  /** Python's `str.isspace()` for one character; `str.strip()`,
      `str.split()` and the regular-expression class `\s` use the same set. */
  predicate IsSpace(c: char)
  {
    ('\t' <= c <= '\r') || ('\U{1c}' <= c <= ' ')
    || c == '\U{85}' || c == '\U{a0}' || c == '\U{1680}'
    || ('\U{2000}' <= c <= '\U{200a}') || c == '\U{2028}' || c == '\U{2029}'
    || c == '\U{202f}' || c == '\U{205f}' || c == '\U{3000}'
  }

  predicate IsNonSpace(c: char)
  {
    !IsSpace(c)
  }

  predicate AllSpace(s: string)
  {
    forall i :: 0 <= i < |s| ==> IsSpace(s[i])
  }

  predicate IsUpper(c: char)
  {
    'A' <= c <= 'Z'
  }

  function LowerChar(c: char): (d: char)
    ensures !IsUpper(d)
    ensures !IsUpper(c) ==> d == c
  {
    if IsUpper(c) then (c as int + 32) as char else c
  }

  /** `str.lower()` on the ASCII letters: each capital becomes its small
      letter, every other character is kept. */
  function Lower(s: string): (r: string)
    ensures |r| == |s|
    ensures forall i :: 0 <= i < |r| ==> !IsUpper(r[i])
    ensures forall i :: 0 <= i < |s| && !IsUpper(s[i]) ==> r[i] == s[i]
    ensures forall i :: 0 <= i < |s| && IsUpper(s[i]) ==> 'a' <= r[i] <= 'z' && r[i] as int - s[i] as int == 'a' as int - 'A' as int
  {
    seq(|s|, i requires 0 <= i < |s| => LowerChar(s[i]))
  }

  /** Length of the longest prefix of `s` whose characters satisfy `p`. */
  function Span(s: string, p: char -> bool): (n: nat)
    ensures n <= |s|
    ensures forall i :: 0 <= i < n ==> p(s[i])
    ensures n < |s| ==> !p(s[n])
  {
    if s == [] || !p(s[0]) then 0 else 1 + Span(s[1..], p)
  }

  /** Length of the longest suffix of `s` whose characters satisfy `p`. */
  function SpanRight(s: string, p: char -> bool): (n: nat)
    ensures n <= |s|
    ensures forall i :: |s| - n <= i < |s| ==> p(s[i])
    ensures n < |s| ==> !p(s[|s| - n - 1])
  {
    if s == [] || !p(s[|s| - 1]) then 0 else 1 + SpanRight(s[..|s| - 1], p)
  }

  /** `s.lstrip(chars)`, with `chars` given as a predicate. */
  function TrimLeft(s: string, p: char -> bool): string
  {
    s[Span(s, p)..]
  }

  /** `s.rstrip(chars)`, with `chars` given as a predicate. */
  function TrimRight(s: string, p: char -> bool): string
  {
    s[..|s| - SpanRight(s, p)]
  }

  /** `s.strip(chars)`: it neither starts nor ends with a stripped
      character, it is empty exactly when every character is stripped, and
      (`TrimIsSlice`) it is the slice of `s` after its longest stripped prefix,
      followed only by stripped characters. */
  function Trim(s: string, p: char -> bool): (r: string)
    ensures r != [] ==> !p(r[0]) && !p(r[|r| - 1])
    ensures r == [] <==> forall i :: 0 <= i < |s| ==> p(s[i])
    ensures forall i :: 0 <= i < |r| ==> r[i] in s
  {
    TrimSlice(s, p);
    SliceMembers(s, Span(s, p), TrimRight(TrimLeft(s, p), p));
    TrimRight(TrimLeft(s, p), p)
  }

  /** What stripping both ends keeps is the slice of `s` after its longest
      stripped prefix, followed only by stripped characters, and it is empty
      only when every character would be stripped. */
  lemma TrimSlice(s: string, p: char -> bool)
    ensures var r := TrimRight(TrimLeft(s, p), p);
      && Span(s, p) + |r| <= |s| && r == s[Span(s, p)..Span(s, p) + |r|]
      && (forall i :: Span(s, p) + |r| <= i < |s| ==> p(s[i]))
      && (r == [] ==> forall i :: 0 <= i < |s| ==> p(s[i]))
  {
    var k := Span(s, p);
    var l := TrimLeft(s, p);
    var m := SpanRight(l, p);
    var r := TrimRight(l, p);
    var b := |s| - m;
    assert r == s[k..b];
    forall i | b <= i < |s| ensures p(s[i]) {
      assert s[i] == l[i - k];
    }
  }

  /** A slice keeps only characters of the sequence it is cut from. */
  lemma SliceMembers(s: string, k: nat, r: string)
    requires k + |r| <= |s| && r == s[k..k + |r|]
    ensures forall i :: 0 <= i < |r| ==> r[i] in s
  {
    forall i | 0 <= i < |r| ensures r[i] in s {
      assert r[i] == s[k + i];
    }
  }

  /** `s.strip(chars)` is the slice of `s` that starts after its longest
      stripped prefix (`Span`) and is followed only by stripped characters. */
  lemma TrimIsSlice(s: string, p: char -> bool)
    ensures Span(s, p) + |Trim(s, p)| <= |s|
    ensures Trim(s, p) == s[Span(s, p)..Span(s, p) + |Trim(s, p)|]
    ensures forall i :: Span(s, p) + |Trim(s, p)| <= i < |s| ==> p(s[i])
  {
    var k, r := Span(s, p), TrimRight(TrimLeft(s, p), p);
    TrimSlice(s, p);
    assert k + |r| <= |s| && r == s[k..k + |r|];
    assert forall i :: k + |r| <= i < |s| ==> p(s[i]);
    assert Trim(s, p) == r;
  }

  /** `s.strip()`: no whitespace at either end, empty exactly when `s` is
      all whitespace, and (`StripSlice`) the slice of `s` between its
      leading and trailing whitespace. */
  function Strip(s: string): (r: string)
    ensures r != [] ==> !IsSpace(r[0]) && !IsSpace(r[|r| - 1])
    ensures r == [] <==> AllSpace(s)
    ensures forall i :: 0 <= i < |r| ==> r[i] in s
  {
    Trim(s, IsSpace)
  }

  /** `s.strip()` is the slice of `s` that starts after its leading
      whitespace (`Span`) and is followed only by whitespace. */
  lemma StripSlice(s: string)
    ensures Span(s, IsSpace) + |Strip(s)| <= |s|
    ensures Strip(s) == s[Span(s, IsSpace)..Span(s, IsSpace) + |Strip(s)|]
    ensures forall i :: Span(s, IsSpace) + |Strip(s)| <= i < |s| ==> IsSpace(s[i])
  {
    TrimIsSlice(s, IsSpace);
  }

  /** `s.split(sep)` for a non-empty separator: the pieces between the
      occurrences of `sep`, found left to right without overlap. */
  function SplitOn(s: string, sep: string): (r: seq<string>)
    requires sep != []
    ensures |r| >= 1
    decreases |s|
  {
    if |s| < |sep| then [s]
    else if s[..|sep|] == sep then [""] + SplitOn(s[|sep|..], sep)
    else
      var rest := SplitOn(s[1..], sep);
      [[s[0]] + rest[0]] + rest[1..]
  }

  /** `sep.join(parts)`. */
  function JoinWith(parts: seq<string>, sep: string): string
  {
    if |parts| == 0 then ""
    else if |parts| == 1 then parts[0]
    else parts[0] + sep + JoinWith(parts[1..], sep)
  }

  /** Joining the pieces of a split with the same separator gives back the
      original string. */
  lemma {:induction false} JoinSplit(s: string, sep: string)
    requires sep != []
    ensures JoinWith(SplitOn(s, sep), sep) == s
    decreases |s|
  {
    if |s| < |sep| {
      assert SplitOn(s, sep) == [s];
    } else if s[..|sep|] == sep {
      JoinSplit(s[|sep|..], sep);
      JoinSplitAtSep(s, sep);
    } else {
      JoinSplit(s[1..], sep);
      JoinSplitAtChar(s, sep);
    }
  }

  /** Joining a non-empty tail after a first part. */
  lemma JoinCons(part: string, parts: seq<string>, sep: string)
    requires parts != []
    ensures JoinWith([part] + parts, sep) == part + sep + JoinWith(parts, sep)
  {
    assert ([part] + parts)[1..] == parts;
  }

  /** `s[..k] + s[k..]` is `s`. */
  lemma SplitAt<T>(s: seq<T>, k: nat)
    requires k <= |s|
    ensures s[..k] + s[k..] == s
  {
  }

  /** The step of `JoinSplit` when `s` starts with the separator. */
  lemma JoinSplitAtSep(s: string, sep: string)
    requires sep != [] && |s| >= |sep| && s[..|sep|] == sep
    requires JoinWith(SplitOn(s[|sep|..], sep), sep) == s[|sep|..]
    ensures JoinWith(SplitOn(s, sep), sep) == s
  {
    var rest := SplitOn(s[|sep|..], sep);
    assert SplitOn(s, sep) == [""] + rest;
    JoinCons("", rest, sep);
    assert [] + sep == sep;
    SplitAt(s, |sep|);
  }

  /** The step of `JoinSplit` when `s` does not start with the separator:
      its first character joins the first piece of the rest. */
  lemma JoinSplitAtChar(s: string, sep: string)
    requires sep != [] && |s| >= |sep| && s[..|sep|] != sep
    requires JoinWith(SplitOn(s[1..], sep), sep) == s[1..]
    ensures JoinWith(SplitOn(s, sep), sep) == s
  {
    var rest := SplitOn(s[1..], sep);
    SplitOnChar1(s, sep);
    JoinPrepend(s[0], rest, sep);
    assert [s[0]] + s[1..] == s;
  }

  /** One unfolding of `SplitOn` when `s` does not start with `sep`. */
  lemma SplitOnChar1(s: string, sep: string)
    requires sep != [] && |s| >= |sep| && s[..|sep|] != sep
    ensures SplitOn(s, sep) == [[s[0]] + SplitOn(s[1..], sep)[0]] + SplitOn(s[1..], sep)[1..]
  {
  }

  /** Prepending a character to the first part prepends it to the join. */
  lemma JoinPrepend(c: char, parts: seq<string>, sep: string)
    requires parts != []
    ensures JoinWith([[c] + parts[0]] + parts[1..], sep) == [c] + JoinWith(parts, sep)
  {
    var head := [c] + parts[0];
    if |parts| == 1 {
      assert [head] + parts[1..] == [head];
    } else {
      var tail := JoinWith(parts[1..], sep);
      assert parts == [parts[0]] + parts[1..];
      JoinCons(parts[0], parts[1..], sep);
      JoinCons(head, parts[1..], sep);
      ConcatAssoc4([c], parts[0], sep, tail);
    }
  }

  lemma ConcatAssoc3<T>(a: seq<T>, b: seq<T>, c: seq<T>)
    ensures (a + b) + c == a + (b + c)
  {
  }

  lemma ConcatAssoc4<T>(a: seq<T>, b: seq<T>, c: seq<T>, d: seq<T>)
    ensures (a + b) + c + d == a + (b + c + d)
  {
  }

  /** Every character of every piece of a split occurs in the split string. */
  lemma {:induction false} SplitChars(s: string, sep: string)
    requires sep != []
    ensures forall k, i :: 0 <= k < |SplitOn(s, sep)| && 0 <= i < |SplitOn(s, sep)[k]| ==> SplitOn(s, sep)[k][i] in s
    decreases |s|
  {
    var r := SplitOn(s, sep);
    if |s| < |sep| {
    } else if s[..|sep|] == sep {
      SplitChars(s[|sep|..], sep);
      forall k, i | 0 <= k < |r| && 0 <= i < |r[k]| ensures r[k][i] in s {
        assert k > 0 && r[k] == SplitOn(s[|sep|..], sep)[k - 1];
        assert r[k][i] in s[|sep|..];
      }
    } else {
      var rest := SplitOn(s[1..], sep);
      SplitChars(s[1..], sep);
      forall k, i | 0 <= k < |r| && 0 <= i < |r[k]| ensures r[k][i] in s {
        if k == 0 && i == 0 {
        } else if k == 0 {
          assert r[0][i] == rest[0][i - 1];
          assert rest[0][i - 1] in s[1..];
        } else {
          assert r[k] == rest[k];
          assert rest[k][i] in s[1..];
        }
      }
    }
  }

  /** Splitting on one character: no piece contains that character, and there
      is one more piece than occurrences of it. */
  lemma {:induction false} SplitOnChar(s: string, c: char)
    ensures forall k :: 0 <= k < |SplitOn(s, [c])| ==> c !in SplitOn(s, [c])[k]
    ensures |SplitOn(s, [c])| == multiset(s)[c] + 1
    decreases |s|
  {
    var r := SplitOn(s, [c]);
    if |s| < 1 {
    } else if s[..1] == [c] {
      SplitOnChar(s[1..], c);
      assert s == [c] + s[1..];
      assert r[1..] == SplitOn(s[1..], [c]);
    } else {
      SplitOnChar(s[1..], c);
      assert s == [s[0]] + s[1..];
      var rest := SplitOn(s[1..], [c]);
      assert r[1..] == rest[1..];
      forall k | 0 <= k < |r| ensures c !in r[k] {
        if k > 0 {
          assert r[k] == rest[k];
        }
      }
    }
  }

  /** `sep` occurs in `t` starting at position `i`. */
  predicate MatchAt(t: string, i: nat, sep: string)
  {
    i + |sep| <= |t| && t[i..i + |sep|] == sep
  }

  /** `sep` occurs nowhere in `t`. */
  predicate SepFree(t: string, sep: string)
  {
    forall i: nat :: i <= |t| ==> !MatchAt(t, i, sep)
  }

  /** The pieces of `s.split(sep)` are the text between the leftmost,
      non-overlapping occurrences of `sep`: no piece contains `sep`, and no
      occurrence starts inside a piece and runs into the separator after
      it. With `JoinSplit` this fixes the pieces. */
  lemma {:induction false} SplitOnPieces(s: string, sep: string)
    requires sep != []
    ensures forall k :: 0 <= k < |SplitOn(s, sep)| ==> SepFree(SplitOn(s, sep)[k], sep)
    ensures forall k :: 0 <= k < |SplitOn(s, sep)| - 1 ==>
      SepFree(SplitOn(s, sep)[k] + sep[..|sep| - 1], sep)
    decreases |s|
  {
    var r := SplitOn(s, sep);
    if |s| < |sep| {
      ShortSepFree(s, sep);
    } else if s[..|sep|] == sep {
      var rest := SplitOn(s[|sep|..], sep);
      SplitOnPieces(s[|sep|..], sep);
      assert r == [""] + rest;
      ShortSepFree("", sep);
      ShortSepFree("" + sep[..|sep| - 1], sep);
      forall k | 1 <= k < |r| ensures r[k] == rest[k - 1] { }
    } else {
      var rest := SplitOn(s[1..], sep);
      SplitOnPieces(s[1..], sep);
      SplitOnHead(s[1..], sep);
      SplitOnChar1(s, sep);
      assert r[1..] == rest[1..];
      forall k | 1 <= k < |r| ensures r[k] == rest[k] { }
      assert s == [s[0]] + s[1..];
      ConsSepFree(s, rest[0], sep);
      if |rest| > 1 {
        ConcatAssoc3([s[0]], rest[0], sep[..|sep| - 1]);
        ConcatAssoc3(rest[0], sep[..|sep| - 1], [sep[|sep| - 1]]);
        assert sep[..|sep| - 1] + [sep[|sep| - 1]] == sep;
        ConsSepFree(s, rest[0] + sep[..|sep| - 1], sep);
      }
    }
  }

  /** A string shorter than `sep` cannot contain it. */
  lemma ShortSepFree(t: string, sep: string)
    requires |t| < |sep|
    ensures SepFree(t, sep)
  {
  }

  /** Prepending the first character of `s` to a `sep`-free `u` keeps it
      `sep`-free when the result is a prefix of `s` and `s` does not start
      with `sep`. */
  lemma ConsSepFree(s: string, u: string, sep: string)
    requires sep != [] && |s| >= |sep| && s[..|sep|] != sep
    requires [s[0]] + u <= s || s <= [s[0]] + u
    requires SepFree(u, sep)
    ensures SepFree([s[0]] + u, sep)
  {
    var t := [s[0]] + u;
    forall i: nat | i <= |t| ensures !MatchAt(t, i, sep) {
      if i > 0 {
        assert !MatchAt(u, i - 1, sep);
        if i + |sep| <= |t| {
          assert t[i..i + |sep|] == u[i - 1..i - 1 + |sep|];
        }
      }
    }
  }

  /** The first piece of a split is a prefix of the text; when more pieces
      follow, so is the first piece followed by `sep`. */
  lemma {:induction false} SplitOnHead(s: string, sep: string)
    requires sep != []
    ensures SplitOn(s, sep)[0] <= s
    ensures |SplitOn(s, sep)| > 1 ==> SplitOn(s, sep)[0] + sep <= s
    decreases |s|
  {
    if |s| < |sep| {
    } else if s[..|sep|] == sep {
      assert SplitOn(s, sep)[0] + sep == s[..|sep|];
    } else {
      var rest := SplitOn(s[1..], sep);
      SplitOnHead(s[1..], sep);
      SplitOnChar1(s, sep);
      assert s == [s[0]] + s[1..];
      if |rest| > 1 {
        ConcatAssoc3([s[0]], rest[0], sep);
      }
    }
  }

  /** Length of the non-space run that starts `s`. */
  function RunLen(s: string): (n: nat)
    ensures n <= |s|
    ensures forall i :: 0 <= i < n ==> !IsSpace(s[i])
    ensures n < |s| ==> IsSpace(s[n])
  {
    Span(s, IsNonSpace)
  }

  /** Length of the whitespace run that starts `s`. */
  function SpaceRunLen(s: string): (n: nat)
    ensures n <= |s|
    ensures forall i :: 0 <= i < n ==> IsSpace(s[i])
    ensures n < |s| ==> !IsSpace(s[n])
  {
    Span(s, IsSpace)
  }

  /** A token of `str.split()`: non-empty, without whitespace. */
  predicate IsWord(w: string)
  {
    w != [] && forall i :: 0 <= i < |w| ==> !IsSpace(w[i])
  }

  /** `s.split()`: the maximal non-space runs of `s`, in order. */
  function Words(s: string): (r: seq<string>)
    ensures forall k :: 0 <= k < |r| ==> IsWord(r[k])
    decreases |s|
  {
    if s == [] then []
    else if IsSpace(s[0]) then Words(s[1..])
    else
      var n := RunLen(s);
      [s[..n]] + Words(s[n..])
  }

  /** A string of words separated by single blanks: every whitespace
      character is a `' '` that is neither first nor last and is followed by
      a non-space character. */
  predicate Normalized(t: string)
  {
    forall i :: 0 <= i < |t| && IsSpace(t[i]) ==> t[i] == ' ' && 0 < i < |t| - 1 && !IsSpace(t[i + 1])
  }

  /** A word followed by whitespace (or nothing) is the first token. */
  lemma WordsCons(w: string, y: string)
    requires IsWord(w)
    requires y == [] || IsSpace(y[0])
    ensures Words(w + y) == [w] + Words(y)
  {
    var s := w + y;
    var n := RunLen(s);
    assert forall i :: 0 <= i < |w| ==> s[i] == w[i];
    assert |s| > |w| ==> s[|w|] == y[0];
    assert n == |w|;
    assert s[..n] == w && s[n..] == y;
  }

  /** Leading whitespace does not change the tokens. */
  lemma {:induction false} WordsSkipSpaces(s: string, k: nat)
    requires k <= |s| && AllSpace(s[..k])
    ensures Words(s) == Words(s[k..])
  {
    if k > 0 {
      assert IsSpace(s[..k][0]);
      assert s[1..][..k - 1] == s[1..k];
      assert s[1..][k - 1..] == s[k..];
      WordsSkipSpaces(s[1..], k - 1);
    }
  }

  /** Trailing whitespace does not change the tokens. */
  lemma {:induction false} WordsAppendSpaces(y: string, sp: string)
    requires AllSpace(sp)
    ensures Words(y + sp) == Words(y)
    decreases |y|
  {
    var s := y + sp;
    if y == [] {
      assert s == sp;
      WordsSkipSpaces(sp, |sp|);
    } else if IsSpace(y[0]) {
      assert s[1..] == y[1..] + sp;
      WordsAppendSpaces(y[1..], sp);
    } else {
      var n := RunLen(y);
      RunLenAppendSpaces(y, sp);
      WordsAppendSpaces(y[n..], sp);
    }
  }

  /** A non-space run is not lengthened by appending whitespace. */
  lemma RunLenAppendSpaces(y: string, sp: string)
    requires AllSpace(sp)
    ensures RunLen(y + sp) == RunLen(y)
    ensures (y + sp)[..RunLen(y)] == y[..RunLen(y)]
    ensures (y + sp)[RunLen(y)..] == y[RunLen(y)..] + sp
  {
    var s := y + sp;
    var n := RunLen(y);
    assert forall i :: 0 <= i < |y| ==> s[i] == y[i];
    assert n < |s| ==> IsSpace(s[n]) by {
      if n == |y| && n < |s| {
        assert s[n] == sp[0];
      }
    }
  }

  /** Splitting a blank-joined list of words gives the words back. */
  lemma {:induction false} WordsOfJoin(ws: seq<string>)
    requires forall k :: 0 <= k < |ws| ==> IsWord(ws[k])
    ensures Words(JoinWith(ws, " ")) == ws
  {
    if |ws| == 0 {
    } else if |ws| == 1 {
      WordsCons(ws[0], "");
      assert ws[0] + "" == ws[0];
    } else {
      var rest := JoinWith(ws[1..], " ");
      WordsOfJoin(ws[1..]);
      WordsCons(ws[0], " " + rest);
      assert (" " + rest)[1..] == rest;
      assert ws[0] + " " + rest == ws[0] + (" " + rest);
      assert ws == [ws[0]] + ws[1..];
    }
  }

  /** Joining a list of words with single blanks gives a normalized string
      that starts and ends with the first and last word. */
  lemma {:induction false} JoinIsNormalized(ws: seq<string>)
    requires forall k :: 0 <= k < |ws| ==> IsWord(ws[k])
    ensures Normalized(JoinWith(ws, " "))
    ensures ws != [] ==> |JoinWith(ws, " ")| > 0 && !IsSpace(JoinWith(ws, " ")[0])
    ensures ws != [] ==> !IsSpace(JoinWith(ws, " ")[|JoinWith(ws, " ")| - 1])
  {
    if |ws| > 1 {
      var w := ws[0];
      var rest := JoinWith(ws[1..], " ");
      JoinIsNormalized(ws[1..]);
      var t := w + " " + rest;
      assert JoinWith(ws, " ") == t;
      forall i | 0 <= i < |t| && IsSpace(t[i])
        ensures t[i] == ' ' && 0 < i < |t| - 1 && !IsSpace(t[i + 1])
      {
        assert forall j :: 0 <= j < |w| ==> t[j] == w[j];
        if i == |w| {
          assert t[i + 1] == rest[0];
        } else {
          assert t[i] == rest[i - |w| - 1];
          assert i + 1 < |t| ==> t[i + 1] == rest[i - |w|];
        }
      }
    }
  }

  /** A normalized string is the blank-join of its own tokens. */
  lemma {:induction false} JoinOfWords(t: string)
    requires Normalized(t)
    ensures JoinWith(Words(t), " ") == t
    decreases |t|
  {
    if t != [] {
      var n := RunLen(t);
      assert Words(t) == [t[..n]] + Words(t[n..]);
      if n == |t| {
        assert t[n..] == [];
      } else {
        var u := t[n + 1..];
        assert t[n] == ' ' && !IsSpace(t[n + 1]);
        assert Normalized(u) by {
          forall i | 0 <= i < |u| && IsSpace(u[i])
            ensures u[i] == ' ' && 0 < i < |u| - 1 && !IsSpace(u[i + 1])
          {
            assert u[i] == t[n + 1 + i];
            assert i + 1 < |u| ==> u[i + 1] == t[n + 2 + i];
          }
        }
        assert t[n..][1..] == u;
        assert Words(t[n..]) == Words(u);
        JoinOfWords(u);
        assert Words(u) != [] by {
          assert !IsSpace(u[0]);
        }
        assert t == t[..n] + " " + u;
      }
    }
  }
}
