/**
 * The documented examples of the word statistics, evaluated on the model.
 * Literal facts are small lemmas of their own, combined through the general
 * lemmas.
 */
module TextAnalysisExamples {
  import opened Chars
  import opened Words
  import opened TextAnalysis

  /** The words of text that is already clean and lower case, joined by single spaces. */
  lemma CleanWordsOfJoined(text: string, ws: seq<string>)
    requires forall i :: 0 <= i < |ws| ==> IsWord(ws[i])
    requires Join(ws, " ") == text
    requires forall i :: 0 <= i < |text| ==> KeptChar(text[i]) && !IsUpper(text[i])
    ensures CleanWords(text) == ws
  {
    RemovePunctuationKeeps(text);
    LowerIs(text, text);
    SplitJoin(ws);
  }

  lemma CountSnoc(ws: seq<string>, w: string)
    ensures Count(ws + [w]) == Tally(Count(ws), w)
  {
    assert (ws + [w])[..|ws|] == ws;
  }

  /** A word that is not a key yet is added at the end with count 1. */
  lemma {:induction false} TallyNew(f: Frequencies, w: string)
    requires forall i :: 0 <= i < |f| ==> f[i].0 != w
    ensures Tally(f, w) == f + [(w, 1)]
    decreases |f|
  {
    if f != [] {
      TallyNew(f[1..], w);
      assert f == [f[0]] + f[1..];
    }
  }

  /** A word that is the first key has that count increased by one. */
  lemma TallyFront(f: Frequencies, w: string)
    requires f != [] && f[0].0 == w
    ensures Tally(f, w) == [(w, f[0].1 + 1)] + f[1..]
  {
  }

  /** A first key other than the word is kept in front. */
  lemma TallyPast(p: (string, nat), f: Frequencies, w: string)
    requires p.0 != w
    ensures Tally([p] + f, w) == [p] + Tally(f, w)
  {
    assert ([p] + f)[1..] == f;
  }

  /** Exactly one terminator, at the end. */
  lemma OneSentence(s: string)
    requires |s| > 0 && IsTerminator(s[|s| - 1])
    requires forall i :: 0 <= i < |s| - 1 ==> !IsTerminator(s[i])
    ensures SentenceCount(s) == 1
  {
    var body := s[..|s| - 1];
    assert s == body + [s[|s| - 1]];
    SentenceCountZero(body);
    SentenceCountAppend(body, [s[|s| - 1]]);
  }

  // "hello world hello"

  lemma HelloJoined() ensures Join(["hello", "world", "hello"], " ") == "hello world hello"
  {
    assert ["hello", "world", "hello"][1..] == ["world", "hello"];
    assert ["world", "hello"][1..] == ["hello"];
  }

  lemma HelloClean() ensures forall i :: 0 <= i < |"hello world hello"| ==>
    KeptChar("hello world hello"[i]) && !IsUpper("hello world hello"[i]) {}

  lemma HelloWords() ensures CleanWords("hello world hello") == ["hello", "world", "hello"]
  {
    var ws := ["hello", "world", "hello"];
    assert forall i :: 0 <= i < |ws| ==> IsWord(ws[i]) by {
      assert IsWord("hello") && IsWord("world");
    }
    HelloJoined();
    HelloClean();
    CleanWordsOfJoined("hello world hello", ws);
  }

  lemma HelloCount() ensures Count(["hello", "world", "hello"]) == [("hello", 2), ("world", 1)]
  {
    CountSnoc([], "hello");
    TallyNew([], "hello");
    CountSnoc(["hello"], "world");
    TallyNew([("hello", 1)], "world");
    CountSnoc(["hello", "world"], "hello");
    TallyFront([("hello", 1), ("world", 1)], "hello");
    assert [("hello", 1), ("world", 1)][1..] == [("world", 1)];
  }

  /** word_frequency("hello world hello") is {"hello": 2, "world": 1}. */
  lemma WordFrequencyExample()
    ensures WordFrequency("hello world hello") == [("hello", 2), ("world", 1)]
  {
    HelloWords();
    HelloCount();
  }

  // "a b c a b a"

  lemma LettersJoined() ensures Join(["a", "b", "c", "a", "b", "a"], " ") == "a b c a b a"
  {
    var ws := ["a", "b", "c", "a", "b", "a"];
    assert ws[1..] == ["b", "c", "a", "b", "a"];
    assert ws[1..][1..] == ["c", "a", "b", "a"];
    assert ws[1..][1..][1..] == ["a", "b", "a"];
    assert ws[1..][1..][1..][1..] == ["b", "a"];
    assert ws[1..][1..][1..][1..][1..] == ["a"];
  }

  lemma LettersClean() ensures forall i :: 0 <= i < |"a b c a b a"| ==>
    KeptChar("a b c a b a"[i]) && !IsUpper("a b c a b a"[i]) {}

  lemma LettersWords() ensures CleanWords("a b c a b a") == ["a", "b", "c", "a", "b", "a"]
  {
    var ws := ["a", "b", "c", "a", "b", "a"];
    assert forall i :: 0 <= i < |ws| ==> IsWord(ws[i]) by {
      assert IsWord("a") && IsWord("b") && IsWord("c");
    }
    LettersJoined();
    LettersClean();
    CleanWordsOfJoined("a b c a b a", ws);
  }

  lemma LettersFirstThree() ensures Count(["a", "b", "c"]) == [("a", 1), ("b", 1), ("c", 1)]
  {
    CountSnoc([], "a");
    TallyNew([], "a");
    CountSnoc(["a"], "b");
    TallyNew([("a", 1)], "b");
    CountSnoc(["a", "b"], "c");
    TallyNew([("a", 1), ("b", 1)], "c");
  }

  lemma LettersFour() ensures Count(["a", "b", "c", "a"]) == [("a", 2), ("b", 1), ("c", 1)]
  {
    LettersFirstThree();
    CountSnoc(["a", "b", "c"], "a");
    assert ["a", "b", "c"] + ["a"] == ["a", "b", "c", "a"];
    TallyFront([("a", 1), ("b", 1), ("c", 1)], "a");
    assert [("a", 1), ("b", 1), ("c", 1)][1..] == [("b", 1), ("c", 1)];
  }

  lemma LettersFive() ensures Count(["a", "b", "c", "a", "b"]) == [("a", 2), ("b", 2), ("c", 1)]
  {
    LettersFour();
    CountSnoc(["a", "b", "c", "a"], "b");
    assert ["a", "b", "c", "a"] + ["b"] == ["a", "b", "c", "a", "b"];
    TallyPast(("a", 2), [("b", 1), ("c", 1)], "b");
    assert [("a", 2), ("b", 1), ("c", 1)] == [("a", 2)] + [("b", 1), ("c", 1)];
    TallyFront([("b", 1), ("c", 1)], "b");
    assert [("b", 1), ("c", 1)][1..] == [("c", 1)];
  }

  lemma LettersCount() ensures Count(["a", "b", "c", "a", "b", "a"]) == [("a", 3), ("b", 2), ("c", 1)]
  {
    LettersFive();
    CountSnoc(["a", "b", "c", "a", "b"], "a");
    assert ["a", "b", "c", "a", "b"] + ["a"] == ["a", "b", "c", "a", "b", "a"];
    TallyFront([("a", 2), ("b", 2), ("c", 1)], "a");
    assert [("a", 2), ("b", 2), ("c", 1)][1..] == [("b", 2), ("c", 1)];
  }

  lemma LettersSorted() ensures SortByCount([("a", 3), ("b", 2), ("c", 1)]) == [("a", 3), ("b", 2), ("c", 1)]
  {
    var f: Frequencies := [("a", 3), ("b", 2), ("c", 1)];
    assert f[1..] == [("b", 2), ("c", 1)] && f[1..][1..] == [("c", 1)] && |f[1..][1..][1..]| == 0;
  }

  /** get_top_words("a b c a b a", 2) is [("a", 3), ("b", 2)]. */
  lemma GetTopWordsExample()
    ensures GetTopWords("a b c a b a", 2) == [("a", 3), ("b", 2)]
  {
    LettersWords();
    LettersCount();
    LettersSorted();
  }

  // sentence_count

  lemma HelloSentence() ensures SentenceCount("Hello.") == 1 { OneSentence("Hello."); }
  lemma TestSentence() ensures SentenceCount(" This is a test!") == 1 { OneSentence(" This is a test!"); }
  lemma QuestionSentence() ensures SentenceCount(" How are you?") == 1 { OneSentence(" How are you?"); }
  lemma SentenceTail() ensures " This is a test!" + " How are you?" == " This is a test! How are you?" {}
  lemma SentenceWhole() ensures "Hello." + " This is a test! How are you?" == "Hello. This is a test! How are you?" {}

  /** sentence_count("Hello. This is a test! How are you?") is 3, and sentence_count("") is 0. */
  lemma SentenceCountExample()
    ensures SentenceCount("Hello. This is a test! How are you?") == 3
    ensures SentenceCount("") == 0
  {
    HelloSentence();
    TestSentence();
    QuestionSentence();
    SentenceCountAppend(" This is a test!", " How are you?");
    SentenceTail();
    SentenceCountAppend("Hello.", " This is a test! How are you?");
    SentenceWhole();
  }
}
