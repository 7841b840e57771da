/**
 * Word statistics of mypackage1: word_frequency, get_top_words and
 * sentence_count. A dict is a sequence of (key, value) pairs in insertion
 * order with distinct keys.
 */
module TextAnalysis {
  import opened Chars
  import opened Words

  type Frequencies = seq<(string, nat)>

  // ---------------------------------------------------------------- cleaning

  /** The characters re.sub(r"[^a-zA-Z0-9\s]", "", text) keeps. */
  predicate KeptChar(c: char) { IsAlnum(c) || IsSpace(c) }

  /** re.sub(r"[^a-zA-Z0-9\s]", "", text): every other character is deleted. */
  function RemovePunctuation(s: string): (r: string)
    ensures |r| <= |s|
    ensures forall i :: 0 <= i < |r| ==> KeptChar(r[i])
  {
    if s == [] then []
    else if KeptChar(s[0]) then [s[0]] + RemovePunctuation(s[1..])
    else RemovePunctuation(s[1..])
  }

  /** Cleaning works character by character: a cut in the text is a cut in the result. */
  lemma {:induction false} RemovePunctuationAppend(a: string, b: string)
    ensures RemovePunctuation(a + b) == RemovePunctuation(a) + RemovePunctuation(b)
    decreases |a|
  {
    if a == [] {
      assert a + b == b;
    } else {
      assert (a + b)[1..] == a[1..] + b;
      RemovePunctuationAppend(a[1..], b);
    }
  }

  /**
   * Letters, digits and whitespace are all kept, each where it stood, so the
   * whitespace between words survives cleaning.
   */
  lemma {:induction false} RemovePunctuationKeeps(s: string)
    requires forall i :: 0 <= i < |s| ==> KeptChar(s[i])
    ensures RemovePunctuation(s) == s
    decreases |s|
  {
    if s != [] {
      var tail := s[1..];
      assert forall i :: 0 <= i < |tail| ==> tail[i] == s[i + 1];
      RemovePunctuationKeeps(tail);
    }
  }

  /** Every other character is deleted. */
  lemma {:induction false} RemovePunctuationDrops(s: string)
    requires forall i :: 0 <= i < |s| ==> !KeptChar(s[i])
    ensures RemovePunctuation(s) == []
    decreases |s|
  {
    if s != [] {
      var tail := s[1..];
      assert forall i :: 0 <= i < |tail| ==> tail[i] == s[i + 1];
      RemovePunctuationDrops(tail);
    }
  }

  /** The words word_frequency counts: the cleaned, lower-cased text split on whitespace. */
  function CleanWords(text: string): seq<string>
  {
    Split(Lower(RemovePunctuation(text)))
  }

  /** A counted word: lower-case letters and digits only. */
  predicate LowerAlnumWord(w: string)
  {
    |w| > 0 && forall i :: 0 <= i < |w| ==> IsLower(w[i]) || IsDigit(w[i])
  }

  predicate LowerAlnumOrSpace(s: string)
  {
    forall i :: 0 <= i < |s| ==> IsLower(s[i]) || IsDigit(s[i]) || IsSpace(s[i])
  }

  lemma {:induction false} SplitLowerAlnum(s: string)
    requires LowerAlnumOrSpace(s)
    ensures forall i :: 0 <= i < |Split(s)| ==> LowerAlnumWord(Split(s)[i])
    decreases |s|
  {
    if s != [] {
      if IsSpace(s[0]) {
        assert LowerAlnumOrSpace(s[1..]) by {
          assert forall i :: 0 <= i < |s[1..]| ==> s[1..][i] == s[i + 1];
        }
        SplitLowerAlnum(s[1..]);
      } else {
        var k := WordEnd(s);
        assert LowerAlnumOrSpace(s[k..]) by {
          assert forall i :: 0 <= i < |s[k..]| ==> s[k..][i] == s[i + k];
        }
        SplitLowerAlnum(s[k..]);
        assert LowerAlnumWord(s[..k]) by {
          assert forall i :: 0 <= i < k ==> s[..k][i] == s[i];
        }
        assert Split(s) == [s[..k]] + Split(s[k..]);
      }
    }
  }

  /** Every counted word is non-empty and made of [a-z0-9]. */
  lemma CleanWordsShape(text: string)
    ensures forall i :: 0 <= i < |CleanWords(text)| ==> LowerAlnumWord(CleanWords(text)[i])
  {
    var kept := RemovePunctuation(text);
    LowerKeepsClass(kept);
    SplitLowerAlnum(Lower(kept));
  }

  lemma {:induction false} NonSpaceRemovePunctuation(s: string)
    ensures NonSpace(RemovePunctuation(s)) == Alnums(s)
    decreases |s|
  {
    if s != [] {
      NonSpaceRemovePunctuation(s[1..]);
      if KeptChar(s[0]) {
        assert RemovePunctuation(s)[1..] == RemovePunctuation(s[1..]);
      }
    }
  }

  lemma {:induction false} NonSpaceLower(s: string)
    ensures NonSpace(Lower(s)) == Lower(NonSpace(s))
    decreases |s|
  {
    if s != [] {
      assert Lower(s)[1..] == Lower(s[1..]);
      NonSpaceLower(s[1..]);
      CaseKeepsSpace(s[0]);
      if !IsSpace(s[0]) {
        LowerAppend([s[0]], NonSpace(s[1..]));
      }
    }
  }

  /**
   * Cleaning deletes exactly the characters that are neither letters, digits
   * nor whitespace: the counted words, concatenated, are the letters and
   * digits of the text, lower-cased.
   */
  lemma CleanWordsContent(text: string)
    ensures Concat(CleanWords(text)) == Lower(Alnums(text))
  {
    var kept := RemovePunctuation(text);
    ConcatSplit(Lower(kept));
    NonSpaceLower(kept);
    NonSpaceRemovePunctuation(text);
  }

  // ---------------------------------------------------------------- counting

  function Keys(f: Frequencies): (ks: seq<string>)
    ensures |ks| == |f|
    ensures forall i :: 0 <= i < |f| ==> ks[i] == f[i].0
  {
    if f == [] then [] else [f[0].0] + Keys(f[1..])
  }

  predicate DistinctKeys(f: Frequencies)
  {
    forall i, j :: 0 <= i < j < |f| ==> f[i].0 != f[j].0
  }

  /** counts[w], or 0 for a word that is not a key. */
  function Lookup(f: Frequencies, w: string): nat
  {
    if f == [] then 0 else if f[0].0 == w then f[0].1 else Lookup(f[1..], w)
  }

  /** The sum of the counts. */
  function Total(f: Frequencies): nat
  {
    if f == [] then 0 else f[0].1 + Total(f[1..])
  }

  /** One Counter update: the word's count goes up by one, or it is added at the end with count 1. */
  function Tally(f: Frequencies, w: string): (r: Frequencies)
    ensures |r| == if w in Keys(f) then |f| else |f| + 1
  {
    if f == [] then [(w, 1)]
    else if f[0].0 == w then [(w, f[0].1 + 1)] + f[1..]
    else [f[0]] + Tally(f[1..], w)
  }

  /** Counter(ws), in insertion order. */
  function Count(ws: seq<string>): Frequencies
    decreases |ws|
  {
    if ws == [] then [] else Tally(Count(ws[..|ws| - 1]), ws[|ws| - 1])
  }

  /** word_frequency(text) */
  function WordFrequency(text: string): Frequencies
  {
    Count(CleanWords(text))
  }

  /** The words of ws without repeats, each where it first occurs. */
  function FirstOccurrences(ws: seq<string>): (r: seq<string>)
    ensures forall w :: w in r <==> w in ws
    decreases |ws|
  {
    if ws == [] then []
    else
      var seen := FirstOccurrences(ws[..|ws| - 1]);
      assert ws == ws[..|ws| - 1] + [ws[|ws| - 1]];
      if ws[|ws| - 1] in seen then seen else seen + [ws[|ws| - 1]]
  }

  lemma {:induction false} TallyKeys(f: Frequencies, w: string)
    ensures Keys(Tally(f, w)) == if w in Keys(f) then Keys(f) else Keys(f) + [w]
    decreases |f|
  {
    if f != [] {
      var tail := f[1..];
      var ks := Keys(tail);
      assert Keys(f) == [f[0].0] + ks;
      if f[0].0 == w {
        var t := Tally(f, w);
        assert t[1..] == tail;
        assert Keys(t) == [w] + Keys(t[1..]);
      } else {
        TallyKeys(tail, w);
        var t := Tally(tail, w);
        assert Tally(f, w) == [f[0]] + t;
        assert ([f[0]] + t)[1..] == t;
        assert Keys(Tally(f, w)) == [f[0].0] + Keys(t);
        assert w in Keys(f) <==> w in ks;
        if w !in ks {
          assert [f[0].0] + (ks + [w]) == ([f[0].0] + ks) + [w];
        }
      }
    }
  }

  lemma {:induction false} TallyLookup(f: Frequencies, w: string, v: string)
    ensures Lookup(Tally(f, w), v) == Lookup(f, v) + (if v == w then 1 else 0)
    decreases |f|
  {
    if f != [] && f[0].0 != w {
      TallyLookup(f[1..], w, v);
    }
  }

  lemma {:induction false} TallyTotal(f: Frequencies, w: string)
    ensures Total(Tally(f, w)) == Total(f) + 1
    decreases |f|
  {
    if f != [] && f[0].0 != w {
      TallyTotal(f[1..], w);
    }
  }

  lemma {:induction false} TallyPositive(f: Frequencies, w: string)
    requires forall i :: 0 <= i < |f| ==> f[i].1 >= 1
    ensures forall i :: 0 <= i < |Tally(f, w)| ==> Tally(f, w)[i].1 >= 1
    decreases |f|
  {
    if f != [] && f[0].0 != w {
      TallyPositive(f[1..], w);
      var r := Tally(f, w);
      assert forall i :: 0 < i < |r| ==> r[i] == Tally(f[1..], w)[i - 1];
    }
  }

  predicate Distinct(ws: seq<string>)
  {
    forall i, j :: 0 <= i < j < |ws| ==> ws[i] != ws[j]
  }

  lemma {:induction false} FirstOccurrencesDistinct(ws: seq<string>)
    ensures Distinct(FirstOccurrences(ws))
    decreases |ws|
  {
    if ws != [] {
      FirstOccurrencesDistinct(ws[..|ws| - 1]);
    }
  }

  /** The keys are the distinct words, in order of first occurrence. */
  lemma {:induction false} CountKeys(ws: seq<string>)
    ensures Keys(Count(ws)) == FirstOccurrences(ws)
    ensures DistinctKeys(Count(ws))
    decreases |ws|
  {
    if ws != [] {
      var init := ws[..|ws| - 1];
      CountKeys(init);
      TallyKeys(Count(init), ws[|ws| - 1]);
    }
    FirstOccurrencesDistinct(ws);
    var f := Count(ws);
    assert forall i :: 0 <= i < |f| ==> f[i].0 == Keys(f)[i];
  }

  /** Each word's count is the number of times it occurs; a word that does not occur counts 0. */
  lemma {:induction false} CountLookup(ws: seq<string>, v: string)
    ensures Lookup(Count(ws), v) == multiset(ws)[v]
    decreases |ws|
  {
    if ws != [] {
      var init := ws[..|ws| - 1];
      assert ws == init + [ws[|ws| - 1]];
      CountLookup(init, v);
      TallyLookup(Count(init), ws[|ws| - 1], v);
    }
  }

  /** The counts add up to the number of words. */
  lemma {:induction false} CountTotal(ws: seq<string>)
    ensures Total(Count(ws)) == |ws|
    decreases |ws|
  {
    if ws != [] {
      CountTotal(ws[..|ws| - 1]);
      TallyTotal(Count(ws[..|ws| - 1]), ws[|ws| - 1]);
    }
  }

  lemma {:induction false} CountPositive(ws: seq<string>)
    ensures forall i :: 0 <= i < |Count(ws)| ==> Count(ws)[i].1 >= 1
    decreases |ws|
  {
    if ws != [] {
      CountPositive(ws[..|ws| - 1]);
      TallyPositive(Count(ws[..|ws| - 1]), ws[|ws| - 1]);
    }
  }

  /** With distinct keys, the pair at position i holds the count Lookup finds for its key. */
  lemma {:induction false} LookupAt(f: Frequencies, i: nat)
    requires DistinctKeys(f) && i < |f|
    ensures Lookup(f, f[i].0) == f[i].1
    decreases i
  {
    if i > 0 {
      assert DistinctKeys(f[1..]) by {
        assert forall k :: 0 <= k < |f[1..]| ==> f[1..][k] == f[k + 1];
      }
      LookupAt(f[1..], i - 1);
    }
  }

  /**
   * word_frequency: the keys are the distinct cleaned words in order of
   * first occurrence, each non-empty and made of [a-z0-9]; each count is
   * the word's number of occurrences, at least 1; the counts add up to the
   * number of words.
   */
  lemma WordFrequencyProperties(text: string)
    ensures DistinctKeys(WordFrequency(text))
    ensures Keys(WordFrequency(text)) == FirstOccurrences(CleanWords(text))
    ensures forall i :: 0 <= i < |WordFrequency(text)| ==> LowerAlnumWord(WordFrequency(text)[i].0)
    ensures forall i :: 0 <= i < |WordFrequency(text)| ==>
      WordFrequency(text)[i].1 == multiset(CleanWords(text))[WordFrequency(text)[i].0] >= 1
    ensures Total(WordFrequency(text)) == |CleanWords(text)|
  {
    var ws := CleanWords(text);
    var f := Count(ws);
    CountKeys(ws);
    CountTotal(ws);
    CountPositive(ws);
    CleanWordsShape(text);
    forall i | 0 <= i < |f|
      ensures LowerAlnumWord(f[i].0)
      ensures f[i].1 == multiset(ws)[f[i].0]
    {
      assert f[i].0 == Keys(f)[i];
      assert f[i].0 in ws;
      LookupAt(f, i);
      CountLookup(ws, f[i].0);
    }
  }

  // ---------------------------------------------------------------- top words

  /** Ordered by count, highest first. */
  predicate NonIncreasing(f: Frequencies)
  {
    forall i, j :: 0 <= i < j < |f| ==> f[i].1 >= f[j].1
  }

  /** The pairs of f with count c, in order. */
  function WithCount(f: Frequencies, c: nat): Frequencies
  {
    if f == [] then []
    else (if f[0].1 == c then [f[0]] else []) + WithCount(f[1..], c)
  }

  /** Insertion of p in front of the first pair whose count is not higher. */
  function InsertByCount(p: (string, nat), s: Frequencies): (r: Frequencies)
    ensures |r| == |s| + 1
  {
    if s == [] || s[0].1 <= p.1 then [p] + s
    else [s[0]] + InsertByCount(p, s[1..])
  }

  /** sorted(f, key=count, reverse=True): a stable sort, highest count first. */
  function SortByCount(f: Frequencies): (r: Frequencies)
    ensures |r| == |f|
  {
    if f == [] then [] else InsertByCount(f[0], SortByCount(f[1..]))
  }

  /** get_top_words(text, n) */
  function GetTopWords(text: string, n: int): Frequencies
  {
    SliceTo(SortByCount(WordFrequency(text)), n)
  }

  lemma {:induction false} InsertByCountPerm(p: (string, nat), s: Frequencies)
    ensures multiset(InsertByCount(p, s)) == multiset(s) + multiset{p}
    decreases |s|
  {
    if s != [] && s[0].1 > p.1 {
      InsertByCountPerm(p, s[1..]);
      assert s == [s[0]] + s[1..];
    }
  }

  lemma {:induction false} InsertByCountSorted(p: (string, nat), s: Frequencies)
    requires NonIncreasing(s)
    ensures NonIncreasing(InsertByCount(p, s))
    decreases |s|
  {
    if s != [] && s[0].1 > p.1 {
      var tail := s[1..];
      assert forall i :: 0 <= i < |tail| ==> tail[i] == s[i + 1];
      InsertByCountSorted(p, tail);
      var rest := InsertByCount(p, tail);
      InsertByCountPerm(p, tail);
      forall i | 0 <= i < |rest|
        ensures rest[i].1 <= s[0].1
      {
        assert rest[i] in multiset(rest);
        assert rest[i] == p || rest[i] in tail;
      }
      var r := [s[0]] + rest;
      assert forall i :: 0 < i < |r| ==> r[i] == rest[i - 1];
    }
  }

  lemma {:induction false} InsertByCountStable(p: (string, nat), s: Frequencies, c: nat)
    ensures WithCount(InsertByCount(p, s), c) == (if p.1 == c then [p] else []) + WithCount(s, c)
    decreases |s|
  {
    if s == [] || s[0].1 <= p.1 {
      WithCountCons(p, s, c);
    } else {
      var tail := s[1..];
      var r := InsertByCount(p, tail);
      InsertByCountStable(p, tail, c);
      WithCountCons(s[0], r, c);
      WithCountCons(s[0], tail, c);
      assert s == [s[0]] + tail;
      if s[0].1 == c {
        assert p.1 != c;
        assert WithCount(r, c) == WithCount(tail, c);
      } else {
        assert WithCount([s[0]] + r, c) == WithCount(r, c);
        assert WithCount(s, c) == WithCount(tail, c);
      }
    }
  }

  lemma WithCountCons(x: (string, nat), f: Frequencies, c: nat)
    ensures WithCount([x] + f, c) == (if x.1 == c then [x] else []) + WithCount(f, c)
  {
    assert ([x] + f)[1..] == f;
  }

  /** The sort orders by count, highest first, and keeps every pair exactly once. */
  lemma {:induction false} SortByCountSorted(f: Frequencies)
    ensures NonIncreasing(SortByCount(f))
    ensures multiset(SortByCount(f)) == multiset(f)
    decreases |f|
  {
    if f != [] {
      SortByCountSorted(f[1..]);
      InsertByCountSorted(f[0], SortByCount(f[1..]));
      InsertByCountPerm(f[0], SortByCount(f[1..]));
      assert f == [f[0]] + f[1..];
    }
  }

  /** The sort is stable: the pairs with any one count keep their order. */
  lemma {:induction false} SortByCountStable(f: Frequencies, c: nat)
    ensures WithCount(SortByCount(f), c) == WithCount(f, c)
    decreases |f|
  {
    if f != [] {
      SortByCountStable(f[1..], c);
      InsertByCountStable(f[0], SortByCount(f[1..]), c);
    }
  }

  lemma {:induction false} WithCountAppend(a: Frequencies, b: Frequencies, c: nat)
    ensures WithCount(a + b, c) == WithCount(a, c) + WithCount(b, c)
    decreases |a|
  {
    if a == [] {
      assert a + b == b;
    } else {
      var tail := a[1..];
      WithCountAppend(tail, b, c);
      var head: Frequencies := if a[0].1 == c then [a[0]] else [];
      assert WithCount(a, c) == head + WithCount(tail, c);
      assert (a + b)[0] == a[0] && (a + b)[1..] == tail + b;
      assert WithCount(a + b, c) == head + WithCount(tail + b, c);
    }
  }

  /** For n >= 0, get_top_words returns min(n, number of distinct words) pairs; a negative n drops that many from the end. */
  lemma GetTopWordsLength(text: string, n: int)
    ensures 0 <= n ==> |GetTopWords(text, n)| == if n < |WordFrequency(text)| then n else |WordFrequency(text)|
    ensures n < 0 ==> |GetTopWords(text, n)| == if -n < |WordFrequency(text)| then |WordFrequency(text)| + n else 0
  {
  }

  /** The returned counts do not increase. */
  lemma GetTopWordsSorted(text: string, n: int)
    ensures NonIncreasing(GetTopWords(text, n))
  {
    var sorted := SortByCount(WordFrequency(text));
    var top := GetTopWords(text, n);
    SortByCountSorted(WordFrequency(text));
    assert forall i :: 0 <= i < |top| ==> top[i] == sorted[i];
  }

  /** Every returned pair is a (word, count) pair of word_frequency, none repeated or altered. */
  lemma GetTopWordsPairs(text: string, n: int)
    ensures multiset(GetTopWords(text, n)) <= multiset(WordFrequency(text))
  {
    var f := WordFrequency(text);
    var sorted := SortByCount(f);
    var top := GetTopWords(text, n);
    SortByCountSorted(f);
    PrefixMultiset(top, sorted);
  }

  /** No pair left out has a higher count than a pair returned. */
  lemma GetTopWordsBest(text: string, n: int)
    ensures forall p, q :: p in WordFrequency(text) && p !in GetTopWords(text, n) && q in GetTopWords(text, n) ==>
      p.1 <= q.1
  {
    var f := WordFrequency(text);
    var sorted := SortByCount(f);
    var top := GetTopWords(text, n);
    SortByCountSorted(f);
    forall p, q | p in f && p !in top && q in top
      ensures p.1 <= q.1
    {
      assert p in multiset(f);
      assert p in sorted;
      var j :| 0 <= j < |sorted| && sorted[j] == p;
      var i :| 0 <= i < |top| && top[i] == q;
      assert sorted[i] == q;
    }
  }

  /** Ties keep word_frequency's order: the returned pairs with any one count are the first ones with that count. */
  lemma GetTopWordsStable(text: string, n: int, c: nat)
    ensures WithCount(GetTopWords(text, n), c) <= WithCount(WordFrequency(text), c)
  {
    var f := WordFrequency(text);
    var sorted := SortByCount(f);
    var top := GetTopWords(text, n);
    assert sorted == top + sorted[|top|..];
    SortByCountStable(f, c);
    WithCountAppend(top, sorted[|top|..], c);
  }

  // ---------------------------------------------------------------- sentences

  /** sentence_count(text): the number of '.', '!' and '?' characters. */
  function SentenceCount(text: string): (n: nat)
    ensures n <= |text|
  {
    if text == [] then 0
    else (if IsTerminator(text[0]) then 1 else 0) + SentenceCount(text[1..])
  }

  /** Counting is additive over concatenation. */
  lemma {:induction false} SentenceCountAppend(a: string, b: string)
    ensures SentenceCount(a + b) == SentenceCount(a) + SentenceCount(b)
    decreases |a|
  {
    if a == [] {
      assert a + b == b;
    } else {
      assert (a + b)[1..] == a[1..] + b;
      SentenceCountAppend(a[1..], b);
    }
  }

  /** The count is 0 exactly when no character is a terminator. */
  lemma {:induction false} SentenceCountZero(text: string)
    ensures SentenceCount(text) == 0 <==> forall i :: 0 <= i < |text| ==> !IsTerminator(text[i])
    decreases |text|
  {
    if text != [] {
      SentenceCountZero(text[1..]);
      assert forall i :: 0 < i < |text| ==> text[i] == text[1..][i - 1];
    }
  }
}
