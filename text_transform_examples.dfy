/**
 * The documented examples of textkit's transformers, evaluated on the model:
 * literal facts are established character by character and combined
 * through the general lemmas.
 */
module TextTransformExamples {
  import opened Chars
  import opened Words
  import opened TextTransform

  /** Where the pattern does not start, the first character is kept. */
  lemma ReplaceNoMatch(c: char, rest: string, pattern: string, replacement: string)
    requires pattern != [] && !StartsWith([c] + rest, pattern)
    ensures Replace([c] + rest, pattern, replacement) == [c] + Replace(rest, pattern, replacement)
  {
    assert ([c] + rest)[1..] == rest;
  }

  lemma FirstCharMismatch(c: char, rest: string, pattern: string)
    requires pattern != [] && c != pattern[0]
    ensures !StartsWith([c] + rest, pattern)
  {
    var s := [c] + rest;
    if |pattern| <= |s| {
      assert s[..|pattern|][0] == c;
    }
  }

  /** A stretch of text holding no first character of the pattern is copied as it is. */
  lemma {:induction false} ReplaceSkip(a: string, rest: string, pattern: string, replacement: string)
    requires pattern != []
    requires forall i :: 0 <= i < |a| ==> a[i] != pattern[0]
    ensures Replace(a + rest, pattern, replacement) == a + Replace(rest, pattern, replacement)
    decreases |a|
  {
    if a == [] {
      assert a + rest == rest;
    } else {
      var c, tail := a[0], a[1..];
      var done := Replace(rest, pattern, replacement);
      assert forall i :: 0 <= i < |tail| ==> tail[i] != pattern[0] by {
        assert forall i :: 0 <= i < |tail| ==> tail[i] == a[i + 1];
      }
      ReplaceSkip(tail, rest, pattern, replacement);
      FirstCharMismatch(c, tail + rest, pattern);
      ReplaceNoMatch(c, tail + rest, pattern, replacement);
      assert a + rest == [c] + (tail + rest);
      assert a + done == [c] + (tail + done);
    }
  }

  /** An occurrence at the front is replaced, and the scan resumes after it. */
  lemma ReplaceMatch(pattern: string, rest: string, replacement: string)
    requires pattern != []
    ensures Replace(pattern + rest, pattern, replacement) == replacement + Replace(rest, pattern, replacement)
  {
    var s := pattern + rest;
    assert s[..|pattern|] == pattern && s[|pattern|..] == rest;
  }

  lemma CatSplit() ensures "The quick cat jumped" == "The qui" + "ck cat jumped" {}
  lemma CatSplitC() ensures "ck cat jumped" == ['c'] + "k cat jumped" {}
  lemma CatSplitK() ensures "k cat jumped" == "k " + ("cat" + " jumped") {}
  lemma CatJoin() ensures "The qui" + (['c'] + ("k " + ("dog" + " jumped"))) == "The quick dog jumped" {}

  lemma CatNotAtC()
    ensures !StartsWith("ck cat jumped", "cat")
  {
    assert "ck cat jumped"[1] != "cat"[1];
  }

  lemma CatFreeStretches()
    ensures forall i :: 0 <= i < |"The qui"| ==> "The qui"[i] != 'c'
    ensures forall i :: 0 <= i < |"k "| ==> "k "[i] != 'c'
    ensures forall i :: 0 <= i < |" jumped"| ==> " jumped"[i] != 'c'
  {
  }

  lemma JumpedUnchanged(pattern: string, replacement: string)
    requires pattern != [] && pattern[0] != ' ' && pattern[0] != 'j' && pattern[0] != 'u'
    requires pattern[0] != 'm' && pattern[0] != 'p' && pattern[0] != 'e' && pattern[0] != 'd'
    ensures Replace(" jumped", pattern, replacement) == " jumped"
  {
    ReplaceSkip(" jumped", [], pattern, replacement);
    assert " jumped" + [] == " jumped";
  }

  lemma CatReplaced()
    ensures Replace("The quick cat jumped", "cat", "dog") == "The quick dog jumped"
  {
    var tail := "k cat jumped";
    CatFreeStretches();
    JumpedUnchanged("cat", "dog");
    ReplaceMatch("cat", " jumped", "dog");
    ReplaceSkip("k ", "cat" + " jumped", "cat", "dog");
    CatSplitK();
    assert Replace(tail, "cat", "dog") == "k " + ("dog" + " jumped");
    CatNotAtC();
    CatSplitC();
    ReplaceNoMatch('c', tail, "cat", "dog");
    assert Replace("ck cat jumped", "cat", "dog") == ['c'] + ("k " + ("dog" + " jumped"));
    ReplaceSkip("The qui", "ck cat jumped", "cat", "dog");
    CatSplit();
    CatJoin();
  }

  lemma QuickSplit() ensures "The quick dog jumped" == "The " + ("quick" + " dog jumped") {}
  lemma QuickJoin() ensures "The " + ("slow" + " dog jumped") == "The slow dog jumped" {}

  lemma QuickFreeStretches()
    ensures forall i :: 0 <= i < |"The "| ==> "The "[i] != 'q'
    ensures forall i :: 0 <= i < |" dog jumped"| ==> " dog jumped"[i] != 'q'
  {
  }

  lemma QuickReplaced()
    ensures Replace("The quick dog jumped", "quick", "slow") == "The slow dog jumped"
  {
    QuickSplit();
    QuickFreeStretches();
    ReplaceSkip(" dog jumped", [], "quick", "slow");
    assert " dog jumped" + [] == " dog jumped";
    ReplaceMatch("quick", " dog jumped", "slow");
    ReplaceSkip("The ", "quick" + " dog jumped", "quick", "slow");
    QuickJoin();
  }

  /** replace_all("The quick cat jumped", {"cat": "dog", "quick": "slow"}) is "The slow dog jumped". */
  lemma ReplaceAllExample()
    ensures ReplaceEach("The quick cat jumped", [("cat", "dog"), ("quick", "slow")]) == "The slow dog jumped"
  {
    var pairs := [("cat", "dog"), ("quick", "slow")];
    assert pairs[..1] == [("cat", "dog")] && pairs[..1][..0] == [];
    CatReplaced();
    QuickReplaced();
  }

  /** When the spaced-out, lower-cased text is that of a slug, slugify returns that slug. */
  lemma SlugifyBySpacing(text: string, slug: string)
    requires IsSlug(slug)
    requires SpaceOutNonSlug(Lower(text)) == SpaceOutNonSlug(slug)
    ensures Slugify(text) == slug
  {
    HyphenateRestores(slug);
    StripNothing(slug, '-');
  }

  lemma HelloWorldLower() ensures Lower("Hello World") == "hello world" { LowerIs("Hello World", "hello world"); }
  lemma HelloWorldSpaced() ensures SpaceOutNonSlug("hello world") == "hello world" { SpaceOutSlugIs("hello world", "hello world"); }
  lemma HelloWorldSlugSpaced() ensures SpaceOutNonSlug("hello-world") == "hello world" { SpaceOutSlugIs("hello-world", "hello world"); }
  lemma HelloWorldIsSlug() ensures IsSlug("hello-world") {}

  lemma TestingLower() ensures Lower("Testing 123") == "testing 123" { LowerIs("Testing 123", "testing 123"); }
  lemma TestingSpaced() ensures SpaceOutNonSlug("testing 123") == "testing 123" { SpaceOutSlugIs("testing 123", "testing 123"); }
  lemma TestingSlugSpaced() ensures SpaceOutNonSlug("testing-123") == "testing 123" { SpaceOutSlugIs("testing-123", "testing 123"); }
  lemma TestingIsSlug() ensures IsSlug("testing-123") {}

  lemma PythonLower() ensures Lower("Python 3.9") == "python 3.9" { LowerIs("Python 3.9", "python 3.9"); }
  lemma PythonSpaced() ensures SpaceOutNonSlug("python 3.9") == "python 3 9" { SpaceOutSlugIs("python 3.9", "python 3 9"); }
  lemma PythonSlugSpaced() ensures SpaceOutNonSlug("python-3-9") == "python 3 9" { SpaceOutSlugIs("python-3-9", "python 3 9"); }
  lemma PythonIsSlug() ensures IsSlug("python-3-9") {}

  /** slugify("Hello World") is "hello-world", slugify("Testing 123") is "testing-123", slugify("Python 3.9") is "python-3-9". */
  lemma SlugifyExamples()
    ensures Slugify("Hello World") == "hello-world"
    ensures Slugify("Testing 123") == "testing-123"
    ensures Slugify("Python 3.9") == "python-3-9"
  {
    HelloWorldLower();
    HelloWorldSpaced();
    HelloWorldSlugSpaced();
    HelloWorldIsSlug();
    SlugifyBySpacing("Hello World", "hello-world");
    TestingLower();
    TestingSpaced();
    TestingSlugSpaced();
    TestingIsSlug();
    SlugifyBySpacing("Testing 123", "testing-123");
    PythonLower();
    PythonSpaced();
    PythonSlugSpaced();
    PythonIsSlug();
    SlugifyBySpacing("Python 3.9", "python-3-9");
  }

  /** A run of whitespace in front of more whitespace adds nothing. */
  lemma {:induction false} HyphenateSkipsSpaces(spaces: string, s: string)
    requires forall i :: 0 <= i < |spaces| ==> IsSpace(spaces[i])
    requires s != [] && IsSpace(s[0])
    ensures HyphenateSpaceRuns(spaces + s) == HyphenateSpaceRuns(s)
    decreases |spaces|
  {
    if spaces == [] {
      assert spaces + s == s;
    } else {
      var t := spaces + s;
      assert t[1..] == spaces[1..] + s;
      assert IsSpace(t[0]) && IsSpace(t[1]);
      assert HyphenateSpaceRuns(t) == HyphenateSpaceRuns(t[1..]);
      HyphenateSkipsSpaces(spaces[1..], s);
    }
  }

  /** A word without whitespace followed by whitespace: hyphenation keeps the word and treats the rest on its own. */
  lemma {:induction false} HyphenateAfterWord(w: string, s: string)
    requires NoSpace(w)
    ensures HyphenateSpaceRuns(w + s) == w + HyphenateSpaceRuns(s)
    decreases |w|
  {
    if w == [] {
      assert w + s == s;
    } else {
      var t := w + s;
      assert t[0] == w[0] && t[1..] == w[1..] + s;
      HyphenateAfterWord(w[1..], s);
      assert w == [w[0]] + w[1..];
      assert w + HyphenateSpaceRuns(s) == [w[0]] + (w[1..] + HyphenateSpaceRuns(s));
    }
  }

  lemma SpecialLower() ensures Lower("Special@#$% Characters") == "special@#$% characters" { LowerIs("Special@#$% Characters", "special@#$% characters"); }
  lemma SpecialSpaced() ensures SpaceOutNonSlug("special@#$% characters") == "special     characters" { SpaceOutSlugIs("special@#$% characters", "special     characters"); }
  lemma SpecialSplit() ensures "special     characters" == "special" + ("    " + " characters") {}
  lemma SpecialSpaces() ensures forall i :: 0 <= i < |"    "| ==> IsSpace("    "[i]) {}
  lemma SpecialWord() ensures NoSpace("special") {}
  lemma CharactersSpaced() ensures SpaceOutNonSlug("-characters") == " characters" { SpaceOutSlugIs("-characters", " characters"); }
  lemma CharactersShape() ensures SlugChars("-characters") && NoDoubleHyphen("-characters") {}
  lemma SpecialJoin() ensures "special" + "-characters" == "special-characters" {}
  lemma SpecialIsSlug() ensures IsSlug("special-characters") {}

  lemma SpecialHyphenated()
    ensures HyphenateSpaceRuns("special     characters") == "special-characters"
  {
    SpecialSplit();
    SpecialSpaces();
    SpecialWord();
    HyphenateAfterWord("special", "    " + " characters");
    HyphenateSkipsSpaces("    ", " characters");
    CharactersSpaced();
    CharactersShape();
    HyphenateRestores("-characters");
    SpecialJoin();
  }

  /** slugify("Special@#$% Characters") is "special-characters": the symbols and the space give one hyphen. */
  lemma SlugifySymbolsExample()
    ensures Slugify("Special@#$% Characters") == "special-characters"
  {
    SpecialLower();
    SpecialSpaced();
    SpecialHyphenated();
    SpecialIsSlug();
    StripNothing("special-characters", '-');
  }
}
