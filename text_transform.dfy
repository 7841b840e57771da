/**
 * The text transformations of textkit: slugify, truncate and replace_all.
 */
module TextTransform {
  import opened Chars
  import opened Words
  import opened Wrappers

  // ---------------------------------------------------------------- slugify

  /** [a-z0-9] */
  predicate SlugChar(c: char) { IsLower(c) || IsDigit(c) }

  predicate SlugChars(s: string)
  {
    forall i :: 0 <= i < |s| ==> SlugChar(s[i]) || s[i] == '-'
  }

  predicate NoDoubleHyphen(s: string)
  {
    forall i :: 0 <= i < |s| - 1 ==> !(s[i] == '-' && s[i + 1] == '-')
  }

  /**
   * The shape of a slug: lower-case letters, digits and hyphens, no hyphen
   * at either end and never two in a row.
   */
  predicate IsSlug(s: string)
  {
    SlugChars(s) && NoDoubleHyphen(s) && (|s| > 0 ==> s[0] != '-' && s[|s| - 1] != '-')
  }

  /** re.sub(r"[^a-z0-9]", " ", s): every other character becomes a space. */
  function SpaceOutNonSlug(s: string): (r: string)
    ensures |r| == |s|
    ensures forall i :: 0 <= i < |s| ==> r[i] == if SlugChar(s[i]) then s[i] else ' '
  {
    if s == [] then []
    else [if SlugChar(s[0]) then s[0] else ' '] + SpaceOutNonSlug(s[1..])
  }

  /** A literal's spaced-out form, checked character by character. */
  lemma SpaceOutSlugIs(s: string, t: string)
    requires |s| == |t|
    requires forall i :: 0 <= i < |s| ==> t[i] == if SlugChar(s[i]) then s[i] else ' '
    ensures SpaceOutNonSlug(s) == t
  {
  }

  /** re.sub(r"\s+", "-", s): each maximal run of whitespace becomes one hyphen. */
  function HyphenateSpaceRuns(s: string): (r: string)
    ensures |s| > 0 ==> |r| > 0 && r[0] == (if IsSpace(s[0]) then '-' else s[0])
  {
    if s == [] then []
    else if !IsSpace(s[0]) then [s[0]] + HyphenateSpaceRuns(s[1..])
    else if |s| > 1 && IsSpace(s[1]) then HyphenateSpaceRuns(s[1..])
    else "-" + HyphenateSpaceRuns(s[1..])
  }

  /** slugify(text) */
  function Slugify(text: string): string
  {
    Strip(HyphenateSpaceRuns(SpaceOutNonSlug(Lower(text))), '-')
  }

  /** After the spacing-out step, hyphenation leaves slug characters and single hyphens, and keeps every letter and digit. */
  lemma ConsKeepsSlug(c: char, rest: string)
    requires SlugChar(c) || c == '-'
    requires SlugChars(rest) && NoDoubleHyphen(rest)
    requires c == '-' && rest != [] ==> rest[0] != '-'
    ensures SlugChars([c] + rest) && NoDoubleHyphen([c] + rest)
  {
    assert forall i :: 0 < i <= |rest| ==> ([c] + rest)[i] == rest[i - 1];
  }

  /** Hyphenating the space runs of spaced-out text leaves a string of slug characters without doubled hyphens. */
  lemma {:induction false} HyphenateShape(s: string)
    requires forall i :: 0 <= i < |s| ==> SlugChar(s[i]) || s[i] == ' '
    ensures SlugChars(HyphenateSpaceRuns(s)) && NoDoubleHyphen(HyphenateSpaceRuns(s))
    decreases |s|
  {
    if s != [] {
      var tail := s[1..];
      assert forall i :: 0 <= i < |tail| ==> tail[i] == s[i + 1];
      HyphenateShape(tail);
      var rest := HyphenateSpaceRuns(tail);
      if !IsSpace(s[0]) {
        ConsKeepsSlug(s[0], rest);
      } else if !(|s| > 1 && IsSpace(s[1])) {
        assert "-" + rest == ['-'] + rest;
        ConsKeepsSlug('-', rest);
      }
    }
  }

  /** Hyphenating space runs keeps the letters and digits. */
  lemma {:induction false} HyphenateAlnums(s: string)
    ensures Alnums(HyphenateSpaceRuns(s)) == Alnums(s)
    decreases |s|
  {
    if s != [] {
      var tail := s[1..];
      HyphenateAlnums(tail);
      var rest := HyphenateSpaceRuns(tail);
      if !IsSpace(s[0]) {
        assert HyphenateSpaceRuns(s) == [s[0]] + rest;
        assert Alnums(s) == Alnums([s[0]]) + Alnums(tail) by {
          assert s == [s[0]] + tail;
          AlnumsAppend([s[0]], tail);
        }
        AlnumsAppend([s[0]], rest);
      } else {
        assert Alnums(s) == Alnums(tail);
        if !(|s| > 1 && IsSpace(s[1])) {
          assert HyphenateSpaceRuns(s) == "-" + rest;
          AlnumsAppend("-", rest);
        }
      }
    }
  }

  lemma SlugSliceKeepsShape(s: string, a: nat, b: nat)
    requires SlugChars(s) && NoDoubleHyphen(s)
    requires a <= b <= |s|
    ensures SlugChars(s[a..b]) && NoDoubleHyphen(s[a..b])
  {
    assert forall i :: 0 <= i < b - a ==> s[a..b][i] == s[a + i];
  }

  lemma SlugStripShape(s: string)
    requires SlugChars(s) && NoDoubleHyphen(s)
    ensures IsSlug(Strip(s, '-'))
    ensures Alnums(Strip(s, '-')) == Alnums(s)
  {
    var left := StripLeading(s, '-');
    SlugSliceKeepsShape(s, |s| - |left|, |s|);
    SlugSliceKeepsShape(left, 0, |StripTrailing(left, '-')|);
    StripLeadingAlnums(s, '-');
    StripTrailingAlnums(left, '-');
  }

  lemma {:induction false} SpacedOutAlnums(s: string)
    requires forall i :: 0 <= i < |s| ==> !IsUpper(s[i])
    ensures Alnums(SpaceOutNonSlug(s)) == Alnums(s)
    decreases |s|
  {
    if s != [] {
      var tail := s[1..];
      assert forall i :: 0 <= i < |tail| ==> tail[i] == s[i + 1];
      var t := SpaceOutNonSlug(s);
      assert t == [t[0]] + SpaceOutNonSlug(tail);
      SpacedOutAlnums(tail);
      assert IsAlnum(t[0]) <==> IsAlnum(s[0]);
      AlnumsAppend([t[0]], SpaceOutNonSlug(tail));
      AlnumsAppend([s[0]], tail);
      assert s == [s[0]] + tail;
    }
  }

  /** Whatever the input, slugify returns a slug. */
  lemma SlugifyShape(text: string)
    ensures IsSlug(Slugify(text))
  {
    var spaced := SpaceOutNonSlug(Lower(text));
    HyphenateShape(spaced);
    SlugStripShape(HyphenateSpaceRuns(spaced));
  }

  /**
   * slugify keeps the letters and digits of its input, in order and in
   * lower case; everything else is dropped or becomes a hyphen.
   */
  lemma SlugifyContent(text: string)
    ensures Alnums(Slugify(text)) == Lower(Alnums(text))
  {
    var spaced := SpaceOutNonSlug(Lower(text));
    HyphenateShape(spaced);
    HyphenateAlnums(spaced);
    SlugStripShape(HyphenateSpaceRuns(spaced));
    SpacedOutAlnums(Lower(text));
    AlnumsLower(text);
  }

  /** slugify returns "" exactly when the input has no letter and no digit. */
  lemma SlugifyEmpty(text: string)
    ensures Slugify(text) == [] <==> Alnums(text) == []
  {
    SlugifyShape(text);
    SlugifyContent(text);
  }

  /** Spacing out the hyphens of a slug and hyphenating again gives the slug back. */
  lemma {:induction false} HyphenateRestores(s: string)
    requires SlugChars(s) && NoDoubleHyphen(s)
    ensures HyphenateSpaceRuns(SpaceOutNonSlug(s)) == s
    decreases |s|
  {
    if s != [] {
      var spaced := SpaceOutNonSlug(s);
      assert spaced[1..] == SpaceOutNonSlug(s[1..]);
      SlugSliceKeepsShape(s, 1, |s|);
      HyphenateRestores(s[1..]);
      assert s == [s[0]] + s[1..];
    }
  }

  /** A slug is returned unchanged. */
  lemma SlugifyFixpoint(s: string)
    requires IsSlug(s)
    ensures Slugify(s) == s
  {
    assert Lower(s) == s;
    HyphenateRestores(s);
    StripNothing(s, '-');
  }

  /** slugify is idempotent. */
  lemma SlugifyIdempotent(text: string)
    ensures Slugify(Slugify(text)) == Slugify(text)
  {
    SlugifyShape(text);
    SlugifyFixpoint(Slugify(text));
  }

  // ---------------------------------------------------------------- truncate

  const MinTruncateLength := 5

  /**
   * truncate(text, length, suffix): a length under 5 raises ValueError; a
   * text that fits is returned as is; otherwise text[:length - len(suffix)]
   * followed by the suffix, where a negative slice bound counts from the end.
   */
  function Truncate(text: string, length: int, suffix: string): (r: Result<string>)
    ensures length < MinTruncateLength <==> r.Failure?
    ensures r.Failure? ==> r.error == "Length must be at least 5"
    ensures r.Success? && |text| <= length ==> r.value == text
    ensures r.Success? && |text| > length ==>
      exists kept :: kept <= text && r.value == kept + suffix &&
        |kept| == if |suffix| <= length then length - |suffix|
                  else if |suffix| - length < |text| then |text| - (|suffix| - length)
                  else 0
  {
    if length < MinTruncateLength then Failure("Length must be at least 5")
    else if |text| <= length then Success(text)
    else Success(SliceTo(text, length - |suffix|) + suffix)
  }

  /** With a suffix no longer than the limit, the result never exceeds the limit; when cut, it is exactly the limit long and ends with the suffix. */
  lemma TruncateFits(text: string, length: int, suffix: string)
    requires length >= MinTruncateLength && |suffix| <= length
    ensures Truncate(text, length, suffix).Success?
    ensures |Truncate(text, length, suffix).value| <= length
    ensures |text| > length ==>
      |Truncate(text, length, suffix).value| == length &&
      Truncate(text, length, suffix).value[length - |suffix|..] == suffix &&
      Truncate(text, length, suffix).value[..length - |suffix|] == text[..length - |suffix|]
  {
  }

  /** truncate("Hello World", 5) is "He...", with length 8 it is "Hello...", and truncate("Short", 10) is "Short". */
  lemma TruncateExamples()
    ensures Truncate("Hello World", 5, "...") == Success("He...")
    ensures Truncate("Hello World", 8, "...") == Success("Hello...")
    ensures Truncate("Short", 10, "...") == Success("Short")
    ensures Truncate("Short", 4, "...").Failure?
  {
    assert SliceTo("Hello World", 2) == "He";
    assert "He" + "..." == "He...";
    assert SliceTo("Hello World", 5) == "Hello";
    assert "Hello" + "..." == "Hello...";
  }

  // ---------------------------------------------------------------- replace_all

  /** s.startswith(p) */
  predicate StartsWith(s: string, p: string)
  {
    |p| <= |s| && s[..|p|] == p
  }

  /**
   * s.replace(pattern, replacement): scanning left to right, every
   * occurrence of pattern that does not overlap an earlier replaced one
   * becomes replacement. An empty pattern matches before every character
   * and at the end.
   */
  function Replace(s: string, pattern: string, replacement: string): (r: string)
    decreases |s|
  {
    if pattern == [] then
      (if s == [] then replacement else replacement + [s[0]] + Replace(s[1..], pattern, replacement))
    else if s == [] then []
    else if StartsWith(s, pattern) then replacement + Replace(s[|pattern|..], pattern, replacement)
    else [s[0]] + Replace(s[1..], pattern, replacement)
  }

  /** s.count(p) for a non-empty p: the non-overlapping occurrences, counted left to right. */
  function Count(s: string, p: string): nat
    requires p != []
    decreases |s|
  {
    if s == [] then 0
    else if StartsWith(s, p) then 1 + Count(s[|p|..], p)
    else Count(s[1..], p)
  }

  /** Each replaced occurrence changes the length by the difference of the two strings. */
  lemma {:induction false} ReplaceLength(s: string, pattern: string, replacement: string)
    requires pattern != []
    ensures |Replace(s, pattern, replacement)| ==
      |s| + Count(s, pattern) * (|replacement| - |pattern|)
    decreases |s|
  {
    if s == [] {
    } else if StartsWith(s, pattern) {
      var rest := s[|pattern|..];
      assert Replace(s, pattern, replacement) == replacement + Replace(rest, pattern, replacement);
      assert Count(s, pattern) == 1 + Count(rest, pattern);
      ReplaceLength(rest, pattern, replacement);
      MulSucc(Count(rest, pattern), |replacement| - |pattern|);
    } else {
      assert Replace(s, pattern, replacement) == [s[0]] + Replace(s[1..], pattern, replacement);
      assert Count(s, pattern) == Count(s[1..], pattern);
      ReplaceLength(s[1..], pattern, replacement);
    }
  }

  lemma MulSucc(c: int, d: int)
    ensures (1 + c) * d == d + c * d
  {
  }

  /** An empty pattern inserts the replacement len(s) + 1 times. */
  lemma {:induction false} ReplaceEmptyPatternLength(s: string, replacement: string)
    ensures |Replace(s, [], replacement)| == |s| + (|s| + 1) * |replacement|
    decreases |s|
  {
    if s != [] {
      assert Replace(s, [], replacement) == replacement + [s[0]] + Replace(s[1..], [], replacement);
      ReplaceEmptyPatternLength(s[1..], replacement);
      MulSucc(|s|, |replacement|);
    }
  }

  /** A pattern that does not occur leaves the text unchanged. */
  lemma {:induction false} ReplaceAbsent(s: string, pattern: string, replacement: string)
    requires pattern != [] && Count(s, pattern) == 0
    ensures Replace(s, pattern, replacement) == s
    decreases |s|
  {
    if s != [] {
      ReplaceAbsent(s[1..], pattern, replacement);
      assert s == [s[0]] + s[1..];
    }
  }

  /** Replacing a string by itself changes nothing. */
  lemma {:induction false} ReplaceBySelf(s: string, pattern: string)
    ensures Replace(s, pattern, pattern) == s
    decreases |s|
  {
    if s != [] {
      if pattern != [] && StartsWith(s, pattern) {
        ReplaceBySelf(s[|pattern|..], pattern);
        assert s == s[..|pattern|] + s[|pattern|..];
      } else {
        ReplaceBySelf(s[1..], pattern);
        assert s == [s[0]] + s[1..];
      }
    }
  }

  /** The replacements applied one after the other, in order: the value replace_all computes. */
  function ReplaceEach(text: string, replacements: seq<(string, string)>): string
    decreases |replacements|
  {
    if replacements == [] then text
    else
      var (pattern, replacement) := replacements[|replacements| - 1];
      Replace(ReplaceEach(text, replacements[..|replacements| - 1]), pattern, replacement)
  }

  /**
   * replace_all(text, replacements): for each (old, new) pair in order, the
   * text is rebound to text.replace(old, new).
   */
  method ReplaceAll(text: string, replacements: seq<(string, string)>) returns (r: string)
    ensures r == ReplaceEach(text, replacements)
  {
    r := text;
    var i := 0;
    while i < |replacements|
      invariant 0 <= i <= |replacements|
      invariant r == ReplaceEach(text, replacements[..i])
    {
      var (pattern, replacement) := replacements[i];
      assert replacements[..i + 1][..i] == replacements[..i];
      r := Replace(r, pattern, replacement);
      i := i + 1;
    }
    assert replacements[..i] == replacements;
  }

  /** Later pairs see the results of earlier ones: the pairs compose left to right. */
  lemma {:induction false} ReplaceEachAppend(text: string, first: seq<(string, string)>, second: seq<(string, string)>)
    ensures ReplaceEach(text, first + second) == ReplaceEach(ReplaceEach(text, first), second)
    decreases |second|
  {
    if second == [] {
      assert first + second == first;
    } else {
      var all := first + second;
      assert all[..|all| - 1] == first + second[..|second| - 1];
      assert all[|all| - 1] == second[|second| - 1];
      ReplaceEachAppend(text, first, second[..|second| - 1]);
    }
  }

  /** No pairs leave the text as it is; pairs that map a string to itself do too. */
  lemma {:induction false} ReplaceEachIdentity(text: string, replacements: seq<(string, string)>)
    requires forall i :: 0 <= i < |replacements| ==> replacements[i].0 == replacements[i].1
    ensures ReplaceEach(text, replacements) == text
    decreases |replacements|
  {
    if replacements != [] {
      var last := replacements[|replacements| - 1];
      ReplaceEachIdentity(text, replacements[..|replacements| - 1]);
      ReplaceBySelf(text, last.0);
    }
  }

}
