/**
 * The advanced text utilities of mypackage1.subpackage: extract_hashtags,
 * the guard of calculate_readability and the extractive summarize.
 */
module TextProcessing {
  import opened Chars
  import opened Words
  import TextAnalysis

  // ---------------------------------------------------------------- hashtags

  /** Length of the leading run of \w characters of s. */
  function WordRun(s: string): (n: nat)
    ensures n <= |s|
    ensures forall i :: 0 <= i < n ==> IsWordChar(s[i])
    ensures n < |s| ==> !IsWordChar(s[n])
  {
    if s == [] || !IsWordChar(s[0]) then 0 else 1 + WordRun(s[1..])
  }

  /** A match of #(\w+) starts at the front of s. */
  predicate TagAtFront(s: string)
  {
    |s| > 1 && s[0] == '#' && IsWordChar(s[1])
  }

  /** The tag of a match at the front of s: the whole \w run after the '#'. */
  function FrontTag(s: string): (t: string)
    requires TagAtFront(s)
    ensures |t| > 0 && 1 + |t| <= |s| && t == s[1..1 + |t|]
  {
    s[1..1 + WordRun(s[1..])]
  }

  /**
   * re.findall(r"#(\w+)", text): scanning left to right, a '#' followed by
   * a \w character starts a match, which takes the longest \w run and ends
   * there; the scan resumes after it. Elsewhere the scan moves on by one.
   */
  function ExtractHashtags(text: string): (tags: seq<string>)
    ensures forall i :: 0 <= i < |tags| ==> |tags[i]| > 0
    ensures forall i, j :: 0 <= i < |tags| && 0 <= j < |tags[i]| ==> IsWordChar(tags[i][j])
    decreases |text|
  {
    if text == [] then []
    else if TagAtFront(text) then
      var tag := FrontTag(text);
      [tag] + ExtractHashtags(text[1 + |tag|..])
    else ExtractHashtags(text[1..])
  }

  /**
   * The hashtags by position: for every '#' of the text that is followed by
   * a \w character, in order, the whole \w run after it.
   */
  function TagsByPosition(text: string): seq<string>
    decreases |text|
  {
    if text == [] then []
    else (if TagAtFront(text) then [FrontTag(text)] else []) + TagsByPosition(text[1..])
  }

  lemma {:induction false} TagsByPositionSkip(s: string, m: nat)
    requires m <= |s|
    requires forall i :: 0 <= i < m ==> s[i] != '#'
    ensures TagsByPosition(s) == TagsByPosition(s[m..])
    decreases m
  {
    if m > 0 {
      var tail := s[1..];
      assert forall i :: 0 <= i < m - 1 ==> tail[i] == s[i + 1];
      TagsByPositionSkip(tail, m - 1);
      assert tail[m - 1..] == s[m..];
    }
  }

  /**
   * Matches never overlap and the scan misses none: extract_hashtags returns
   * the tag of every '#' followed by a \w character, in order of position.
   */
  lemma {:induction false} ExtractHashtagsByPosition(text: string)
    ensures ExtractHashtags(text) == TagsByPosition(text)
    decreases |text|
  {
    if text != [] {
      if TagAtFront(text) {
        var tag := FrontTag(text);
        var tail := text[1..];
        assert forall i :: 0 <= i < |tag| ==> tail[i] == tag[i];
        TagsByPositionSkip(tail, |tag|);
        assert tail[|tag|..] == text[1 + |tag|..];
        ExtractHashtagsByPosition(text[1 + |tag|..]);
      } else {
        ExtractHashtagsByPosition(text[1..]);
      }
    }
  }

  /** Every tag is a whole \w run: the character after it in the text, if any, is not a \w character. */
  lemma FrontTagMaximal(s: string)
    requires TagAtFront(s)
    ensures 1 + |FrontTag(s)| < |s| ==> !IsWordChar(s[1 + |FrontTag(s)|])
  {
    assert s[1..][WordRun(s[1..])..] == s[1 + WordRun(s[1..])..];
  }

  // ---------------------------------------------------------------- readability guard

  /** Length of the leading run of characters that are not '.', '!' or '?'. */
  function PlainRun(s: string): (n: nat)
    ensures n <= |s|
    ensures forall i :: 0 <= i < n ==> !IsTerminator(s[i])
    ensures n < |s| ==> IsTerminator(s[n])
  {
    if s == [] || IsTerminator(s[0]) then 0 else 1 + PlainRun(s[1..])
  }

  /** Length of the leading run of '.', '!' and '?'. */
  function TerminatorRun(s: string): (n: nat)
    ensures n <= |s|
    ensures forall i :: 0 <= i < n ==> IsTerminator(s[i])
    ensures n < |s| ==> !IsTerminator(s[n])
  {
    if s == [] || !IsTerminator(s[0]) then 0 else 1 + TerminatorRun(s[1..])
  }

  /** re.split(r"[.!?]+", text): the pieces between the maximal runs of terminators. */
  function SplitAtTerminators(s: string): (pieces: seq<string>)
    ensures |pieces| > 0
    ensures forall i, j :: 0 <= i < |pieces| && 0 <= j < |pieces[i]| ==> !IsTerminator(pieces[i][j])
    decreases |s|
  {
    var k := PlainRun(s);
    if k == |s| then [s]
    else
      var m := k + TerminatorRun(s[k..]);
      [s[..k]] + SplitAtTerminators(s[m..])
  }

  /** The number of maximal runs of terminators. */
  function TerminatorRuns(s: string): nat
    decreases |s|
  {
    if s == [] then 0
    else if IsTerminator(s[0]) then 1 + TerminatorRuns(s[TerminatorRun(s)..])
    else TerminatorRuns(s[1..])
  }

  /** The counts the readability scores are computed from, or the "too short" answer. */
  datatype Readability = TooShort | Counts(words: nat, sentences: nat, chars: nat)

  /**
   * calculate_readability up to its scores: the words of text.split(), the
   * sentences len(re.split(r"[.!?]+", text)) - 1 and the characters; too
   * short when there is no word or no sentence.
   */
  function ReadabilityCounts(text: string): (r: Readability)
  {
    var words := |Split(text)|;
    var sentences := |SplitAtTerminators(text)| - 1;
    if words == 0 || sentences == 0 then TooShort
    else Counts(words, sentences, |text|)
  }

  lemma {:induction false} TerminatorRunsSkip(s: string, k: nat)
    requires k <= |s|
    requires forall i :: 0 <= i < k ==> !IsTerminator(s[i])
    ensures TerminatorRuns(s) == TerminatorRuns(s[k..])
    decreases k
  {
    if k > 0 {
      var tail := s[1..];
      assert forall i :: 0 <= i < k - 1 ==> tail[i] == s[i + 1];
      TerminatorRunsSkip(tail, k - 1);
      assert tail[k - 1..] == s[k..];
    }
  }

  /** re.split gives one piece more than there are terminator runs. */
  lemma {:induction false} SplitAtTerminatorsCount(s: string)
    ensures |SplitAtTerminators(s)| == 1 + TerminatorRuns(s)
    decreases |s|
  {
    var k := PlainRun(s);
    TerminatorRunsSkip(s, k);
    if k == |s| {
      assert s[k..] == [];
    } else {
      var t := s[k..];
      var m := k + TerminatorRun(t);
      assert t[TerminatorRun(t)..] == s[m..];
      SplitAtTerminatorsCount(s[m..]);
    }
  }

  /** There are no terminator runs exactly when there is no '.', '!' or '?'. */
  lemma {:induction false} TerminatorRunsZero(s: string)
    ensures TerminatorRuns(s) == 0 <==> forall i :: 0 <= i < |s| ==> !IsTerminator(s[i])
    decreases |s|
  {
    if s != [] && !IsTerminator(s[0]) {
      TerminatorRunsZero(s[1..]);
      assert forall i :: 0 < i < |s| ==> s[i] == s[1..][i - 1];
    }
  }

  /** A run holds at least one terminator, so there are never more runs than sentence_count counts characters. */
  lemma {:induction false} TerminatorRunsAtMost(s: string)
    ensures TerminatorRuns(s) <= TextAnalysis.SentenceCount(s)
    decreases |s|
  {
    if s != [] {
      if IsTerminator(s[0]) {
        var m := TerminatorRun(s);
        TerminatorRunsAtMost(s[m..]);
        assert s == s[..m] + s[m..];
        TextAnalysis.SentenceCountAppend(s[..m], s[m..]);
        assert s[..m][1..] == s[1..m];
        assert TextAnalysis.SentenceCount(s[..m]) >= 1;
      } else {
        TerminatorRunsAtMost(s[1..]);
      }
    }
  }

  /**
   * The readability guard: calculate_readability answers "too short" exactly
   * when the text has no whitespace-separated word or no '.', '!' or '?';
   * otherwise the sentences counted are the maximal runs of terminators.
   */
  lemma ReadabilityTooShort(text: string)
    ensures ReadabilityCounts(text) == TooShort <==>
      (forall i :: 0 <= i < |text| ==> IsSpace(text[i])) ||
      (forall i :: 0 <= i < |text| ==> !IsTerminator(text[i]))
    ensures ReadabilityCounts(text).Counts? ==>
      ReadabilityCounts(text).sentences == TerminatorRuns(text) &&
      ReadabilityCounts(text).words == |Split(text)| > 0
  {
    SplitEmpty(text);
    SplitAtTerminatorsCount(text);
    TerminatorRunsZero(text);
  }

  // ---------------------------------------------------------------- summarize

  /** A sentence break starts at i: whitespace right after '.', '!' or '?'. */
  predicate BreakAt(s: string, i: nat)
    requires i < |s|
  {
    i > 0 && IsTerminator(s[i - 1]) && IsSpace(s[i])
  }

  /** The first break at or after i, or |s| when there is none. */
  function NextBreak(s: string, i: nat): (b: nat)
    requires i <= |s|
    ensures i <= b <= |s|
    ensures b < |s| ==> BreakAt(s, b)
    ensures forall j :: i <= j < b ==> !BreakAt(s, j)
    decreases |s| - i
  {
    if i == |s| then |s| else if BreakAt(s, i) then i else NextBreak(s, i + 1)
  }

  /** The end of the whitespace run starting at i. */
  function SpaceRunEnd(s: string, i: nat): (e: nat)
    requires i <= |s|
    ensures i <= e <= |s|
    ensures forall j :: i <= j < e ==> IsSpace(s[j])
    ensures e < |s| ==> !IsSpace(s[e])
    decreases |s| - i
  {
    if i == |s| || !IsSpace(s[i]) then i else SpaceRunEnd(s, i + 1)
  }

  /**
   * re.split(r"(?<=[.!?])\s+", text): the text is cut at every whitespace
   * run that directly follows '.', '!' or '?', and the run is dropped.
   */
  function Sentences(s: string): (pieces: seq<string>)
    ensures |pieces| > 0
    decreases |s|
  {
    var b := NextBreak(s, 0);
    if b == |s| then [s]
    else [s[..b]] + Sentences(s[SpaceRunEnd(s, b)..])
  }

  /** summarize(text, sentence_count) */
  function Summarize(text: string, sentenceCount: int): string
  {
    var pieces := Sentences(text);
    if |pieces| <= sentenceCount then text
    else Join(SliceTo(pieces, sentenceCount), " ")
  }

  /** Every piece but the last ends with '.', '!' or '?', and no piece holds a break. */
  lemma {:induction false} SentencesShape(s: string)
    ensures forall k :: 0 <= k < |Sentences(s)| - 1 ==>
      |Sentences(s)[k]| > 0 && IsTerminator(Sentences(s)[k][|Sentences(s)[k]| - 1])
    ensures forall k, j :: 0 <= k < |Sentences(s)| && 0 <= j < |Sentences(s)[k]| ==> !BreakAt(Sentences(s)[k], j)
    decreases |s|
  {
    var b := NextBreak(s, 0);
    if b < |s| {
      var piece := s[..b];
      var rest := s[SpaceRunEnd(s, b)..];
      SentencesShape(rest);
      assert forall j :: 0 <= j < b ==> piece[j] == s[j];
      assert forall j :: 0 <= j < b ==> !BreakAt(piece, j) by {
        forall j | 0 <= j < b
          ensures !BreakAt(piece, j)
        {
          assert !BreakAt(s, j);
        }
      }
      var ps := Sentences(s);
      assert ps == [piece] + Sentences(rest);
      assert forall k :: 0 < k < |ps| ==> ps[k] == Sentences(rest)[k - 1];
    } else {
      assert forall j :: 0 <= j < |s| ==> !BreakAt(s, j);
    }
  }

  /** Every break of the text is a single space. */
  predicate SingleSpaceBreaks(s: string)
  {
    forall i :: 0 <= i < |s| && BreakAt(s, i) ==> s[i] == ' ' && (i + 1 == |s| || !IsSpace(s[i + 1]))
  }

  lemma SingleSpaceBreaksSuffix(s: string, e: nat)
    requires SingleSpaceBreaks(s) && e <= |s|
    ensures SingleSpaceBreaks(s[e..])
  {
    var rest := s[e..];
    forall i | 0 <= i < |rest| && BreakAt(rest, i)
      ensures rest[i] == ' ' && (i + 1 == |rest| || !IsSpace(rest[i + 1]))
    {
      assert rest[i - 1] == s[e + i - 1] && rest[i] == s[e + i];
      assert BreakAt(s, e + i);
    }
  }

  /** Where every break is a single space, joining the sentences with spaces gives the text back. */
  lemma {:induction false} SentencesJoin(s: string)
    requires SingleSpaceBreaks(s)
    ensures Join(Sentences(s), " ") == s
    decreases |s|
  {
    var b := NextBreak(s, 0);
    if b < |s| {
      assert BreakAt(s, b);
      assert SpaceRunEnd(s, b + 1) == b + 1;
      var e := SpaceRunEnd(s, b);
      assert e == b + 1;
      var rest := s[e..];
      SingleSpaceBreaksSuffix(s, e);
      SentencesJoin(rest);
      var ps := Sentences(s);
      assert ps == [s[..b]] + Sentences(rest);
      assert ps[1..] == Sentences(rest);
      assert s == s[..b] + " " + rest;
    }
  }

  lemma {:induction false} JoinPrefix(ps: seq<string>, k: nat)
    requires k <= |ps|
    ensures Join(ps[..k], " ") <= Join(ps, " ")
    decreases k
  {
    if 0 < k {
      if |ps| == 1 {
        assert ps[..k] == ps;
      } else {
        JoinPrefix(ps[1..], k - 1);
        assert ps[..k][1..] == ps[1..][..k - 1];
        if k == 1 {
          assert Join(ps[..k], " ") == ps[0];
        }
      }
    }
  }

  /**
   * summarize keeps at most sentence_count pieces: when there are no more
   * pieces than that, the text itself; otherwise the first sentence_count
   * pieces (a negative count drops that many from the end) joined by single
   * spaces. Where every break of the text is a single space, the summary is
   * a prefix of the text.
   */
  lemma SummarizePrefix(text: string, sentenceCount: int)
    requires SingleSpaceBreaks(text)
    ensures Summarize(text, sentenceCount) <= text
  {
    var pieces := Sentences(text);
    if |pieces| > sentenceCount {
      var kept := SliceTo(pieces, sentenceCount);
      assert kept == pieces[..|kept|];
      JoinPrefix(pieces, |kept|);
      SentencesJoin(text);
    }
  }

  /** The first piece is a prefix of the text; every later piece starts with a non-space. */
  lemma {:induction false} SentencesLead(s: string)
    ensures Sentences(s)[0] <= s
    ensures forall k :: 0 < k < |Sentences(s)| && |Sentences(s)[k]| > 0 ==> !IsSpace(Sentences(s)[k][0])
    decreases |s|
  {
    var b := NextBreak(s, 0);
    if b < |s| {
      var e := SpaceRunEnd(s, b);
      var rest := s[e..];
      SentencesLead(rest);
      var ps := Sentences(s);
      assert ps == [s[..b]] + Sentences(rest);
      assert forall k :: 0 < k < |ps| ==> ps[k] == Sentences(rest)[k - 1];
      if |Sentences(rest)[0]| > 0 {
        assert Sentences(rest)[0][0] == rest[0] == s[e];
      }
    }
  }

  /** What the pieces of a split look like: the shape that SentencesShape and SentencesLead establish. */
  predicate SentenceList(ps: seq<string>)
  {
    |ps| > 0 &&
    (forall k :: 0 <= k < |ps| - 1 ==> |ps[k]| > 0 && IsTerminator(ps[k][|ps[k]| - 1])) &&
    (forall k, j :: 0 <= k < |ps| && 0 <= j < |ps[k]| ==> !BreakAt(ps[k], j)) &&
    (forall k :: 0 < k < |ps| && |ps[k]| > 0 ==> !IsSpace(ps[k][0]))
  }

  lemma SentencesList(s: string)
    ensures SentenceList(Sentences(s))
  {
    SentencesShape(s);
    SentencesLead(s);
  }

  /** A piece ending in a terminator, then one space: the first break is that space. */
  lemma FirstBreakOfJoin(p: string, rest: string)
    requires |p| > 0 && IsTerminator(p[|p| - 1])
    requires forall j :: 0 <= j < |p| ==> !BreakAt(p, j)
    requires rest == [] || !IsSpace(rest[0])
    ensures NextBreak(p + " " + rest, 0) == |p|
    ensures SpaceRunEnd(p + " " + rest, |p|) == |p| + 1
  {
    var s := p + " " + rest;
    forall j | 0 <= j < |p|
      ensures !BreakAt(s, j)
    {
      assert !BreakAt(p, j);
      assert s[j] == p[j];
      if j > 0 {
        assert s[j - 1] == p[j - 1];
      }
    }
    assert BreakAt(s, |p|);
    if rest != [] {
      assert s[|p| + 1] == rest[0];
    }
  }

  /** Splitting pieces of that shape, joined by single spaces, gives the pieces back. */
  lemma {:induction false} SentencesOfJoin(ps: seq<string>)
    requires SentenceList(ps)
    ensures Sentences(Join(ps, " ")) == ps
    decreases |ps|
  {
    var p := ps[0];
    if |ps| == 1 {
      assert Join(ps, " ") == p;
      assert forall j :: 0 <= j < |p| ==> !BreakAt(p, j);
    } else {
      var tail := ps[1..];
      SentenceListTail(ps);
      var rest := Join(tail, " ");
      var s := Join(ps, " ");
      assert s == p + " " + rest;
      assert rest == [] || !IsSpace(rest[0]) by {
        if |tail[0]| > 0 {
          assert rest[0] == tail[0][0];
        }
      }
      FirstBreakOfJoin(p, rest);
      assert s[..|p|] == p;
      assert s[|p| + 1..] == rest;
      SentencesOfJoin(tail);
      assert ps == [p] + tail;
    }
  }

  /** The head of a piece list of that shape, and its tail, which has the shape too. */
  lemma SentenceListTail(ps: seq<string>)
    requires SentenceList(ps) && |ps| > 1
    ensures |ps[0]| > 0 && IsTerminator(ps[0][|ps[0]| - 1])
    ensures forall j :: 0 <= j < |ps[0]| ==> !BreakAt(ps[0], j)
    ensures |ps[1]| > 0 ==> !IsSpace(ps[1][0])
    ensures |ps[1]| == 0 ==> |ps| == 2
    ensures SentenceList(ps[1..])
  {
    var tail := ps[1..];
    assert forall k :: 0 <= k < |tail| ==> tail[k] == ps[k + 1];
  }

  /**
   * summarize keeps at most sentence_count pieces: when there are no more
   * pieces than that, the text itself; otherwise, for a positive count, a
   * text whose own split gives exactly the first sentence_count pieces.
   */
  lemma SummarizeSentences(text: string, sentenceCount: int)
    ensures |Sentences(text)| <= sentenceCount ==> Summarize(text, sentenceCount) == text
    ensures 0 < sentenceCount < |Sentences(text)| ==>
      Sentences(Summarize(text, sentenceCount)) == Sentences(text)[..sentenceCount]
  {
    var pieces := Sentences(text);
    if 0 < sentenceCount < |pieces| {
      var kept := pieces[..sentenceCount];
      SentencesList(text);
      assert forall k :: 0 <= k < |kept| ==> kept[k] == pieces[k];
      assert SentenceList(kept);
      SentencesOfJoin(kept);
    }
  }
}
