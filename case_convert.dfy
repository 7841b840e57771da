/**
 * The case conversions of the data-transformation utilities: to_snake_case,
 * to_camel_case and to_title_case. Each regular-expression substitution of
 * the original is a recursive scan here.
 */
module CaseConversion {
  import opened Chars
  import opened Words

  // ---------------------------------------------------------------- snake_case

  predicate AlnumOrUnderscore(s: string)
  {
    forall i :: 0 <= i < |s| ==> IsAlnum(s[i]) || s[i] == '_'
  }

  predicate NoDoubleUnderscore(s: string)
  {
    forall i :: 0 <= i < |s| - 1 ==> !(s[i] == '_' && s[i + 1] == '_')
  }

  /** No lower-case letter or digit is directly followed by a capital. */
  predicate NoHump(s: string)
  {
    forall i :: 0 <= i < |s| - 1 ==> !HumpAt(s[i], s[i + 1])
  }

  predicate SnakeChar(c: char) { IsLower(c) || IsDigit(c) || c == '_' }

  /**
   * The shape of a snake_case identifier: lower-case letters, digits and
   * underscores, no underscore at either end and never two in a row.
   */
  predicate IsSnake(s: string)
  {
    SnakeChars(s) && NoDoubleUnderscore(s) &&
    (|s| > 0 ==> s[0] != '_' && s[|s| - 1] != '_')
  }

  /** re.sub(r"[^a-zA-Z0-9]+", "_", s): each maximal run of other characters becomes one underscore. */
  function UnderscoreRuns(s: string): (r: string)
    ensures |s| > 0 ==> |r| > 0 && r[0] == (if IsAlnum(s[0]) then s[0] else '_')
  {
    if s == [] then []
    else if IsAlnum(s[0]) then [s[0]] + UnderscoreRuns(s[1..])
    else if |s| > 1 && !IsAlnum(s[1]) then UnderscoreRuns(s[1..])
    else "_" + UnderscoreRuns(s[1..])
  }

  /** re.sub(r"([a-z0-9])([A-Z])", r"\1_\2", s): an underscore wherever a capital follows a lower-case letter or a digit. */
  function SeparateHumps(s: string): (r: string)
    ensures |s| > 0 ==> |r| > 0 && r[0] == s[0]
  {
    if |s| < 2 then s
    else if HumpAt(s[0], s[1]) then [s[0], '_'] + SeparateHumps(s[1..])
    else [s[0]] + SeparateHumps(s[1..])
  }

  /**
   * Replacing runs leaves letters, digits and single underscores, and keeps
   * every letter and digit in order.
   */
  lemma {:induction false} UnderscoreRunsShape(s: string)
    ensures AlnumOrUnderscore(UnderscoreRuns(s)) && NoDoubleUnderscore(UnderscoreRuns(s))
    ensures Alnums(UnderscoreRuns(s)) == Alnums(s)
    decreases |s|
  {
    if s != [] {
      UnderscoreRunsShape(s[1..]);
      var rest := UnderscoreRuns(s[1..]);
      assert Alnums(s) == (if IsAlnum(s[0]) then [s[0]] else []) + Alnums(s[1..]);
      if IsAlnum(s[0]) {
        ConsKeepsRuns(s[0], rest);
        AlnumsAppend([s[0]], rest);
      } else if |s| > 1 && !IsAlnum(s[1]) {
      } else {
        assert |s| > 1 ==> rest[0] == s[1];
        ConsKeepsRuns('_', rest);
        AlnumsAppend("_", rest);
      }
    }
  }

  lemma SuffixKeepsRuns(s: string)
    requires s != [] && AlnumOrUnderscore(s) && NoDoubleUnderscore(s)
    ensures AlnumOrUnderscore(s[1..]) && NoDoubleUnderscore(s[1..])
  {
    assert forall i :: 0 <= i < |s| - 1 ==> s[1..][i] == s[i + 1];
  }

  /** Letters, digits and single underscores are left as they are. */
  lemma {:induction false} UnderscoreRunsFixpoint(s: string)
    requires AlnumOrUnderscore(s) && NoDoubleUnderscore(s)
    ensures UnderscoreRuns(s) == s
    decreases |s|
  {
    if s != [] {
      SuffixKeepsRuns(s);
      UnderscoreRunsFixpoint(s[1..]);
      assert s == [s[0]] + s[1..];
      if !IsAlnum(s[0]) {
        assert s[0] == '_';
        assert |s| > 1 ==> s[1] != '_';
      }
    }
  }

  /** Putting one character in front keeps the run shape, unless it makes a double underscore. */
  lemma ConsKeepsRuns(c: char, rest: string)
    requires IsAlnum(c) || c == '_'
    requires AlnumOrUnderscore(rest)
    ensures AlnumOrUnderscore([c] + rest)
    ensures NoDoubleUnderscore(rest) && !(c == '_' && rest != [] && rest[0] == '_') ==>
      NoDoubleUnderscore([c] + rest)
  {
    assert forall i :: 0 < i <= |rest| ==> ([c] + rest)[i] == rest[i - 1];
  }

  /** Separating humps adds only underscores, and only between a letter or digit and a capital. */
  lemma {:induction false} SeparateHumpsShape(s: string)
    requires AlnumOrUnderscore(s)
    ensures AlnumOrUnderscore(SeparateHumps(s))
    ensures NoDoubleUnderscore(s) ==> NoDoubleUnderscore(SeparateHumps(s))
    decreases |s|
  {
    if |s| >= 2 {
      var tail := s[1..];
      assert forall i :: 0 <= i < |tail| ==> tail[i] == s[i + 1];
      assert AlnumOrUnderscore(tail);
      assert NoDoubleUnderscore(s) ==> NoDoubleUnderscore(tail);
      SeparateHumpsShape(tail);
      var rest := SeparateHumps(tail);
      assert rest[0] == s[1];
      if HumpAt(s[0], s[1]) {
        ConsKeepsRuns('_', rest);
        ConsKeepsRuns(s[0], "_" + rest);
        assert SeparateHumps(s) == [s[0]] + ("_" + rest);
      } else {
        ConsKeepsRuns(s[0], rest);
      }
    }
  }

  lemma {:induction false} SeparateHumpsAlnums(s: string)
    ensures Alnums(SeparateHumps(s)) == Alnums(s)
    decreases |s|
  {
    if |s| >= 2 {
      SeparateHumpsAlnums(s[1..]);
      var rest := SeparateHumps(s[1..]);
      assert Alnums(s) == (if IsAlnum(s[0]) then [s[0]] else []) + Alnums(s[1..]);
      if HumpAt(s[0], s[1]) {
        assert SeparateHumps(s) == [s[0]] + ("_" + rest);
        AlnumsAppend("_", rest);
        AlnumsAppend([s[0]], "_" + rest);
      } else {
        AlnumsAppend([s[0]], rest);
      }
    }
  }

  /** Where no capital follows a lower-case letter or digit, nothing changes. */
  lemma {:induction false} SeparateHumpsFixpoint(s: string)
    requires NoHump(s)
    ensures SeparateHumps(s) == s
    decreases |s|
  {
    if |s| >= 2 {
      assert forall i :: 0 <= i < |s| - 1 ==> s[1..][i] == s[i + 1];
      SeparateHumpsFixpoint(s[1..]);
      assert s == [s[0]] + s[1..];
    }
  }

  /**
   * UnderscoreRuns works piecewise wherever the text is cut next to a letter
   * or digit.
   */
  lemma {:induction false} UnderscoreRunsAppend(a: string, b: string)
    requires a == [] || b == [] || IsAlnum(a[|a| - 1]) || IsAlnum(b[0])
    ensures UnderscoreRuns(a + b) == UnderscoreRuns(a) + UnderscoreRuns(b)
    decreases |a|
  {
    if a == [] {
      assert a + b == b;
    } else if b == [] {
      assert a + b == a;
    } else if |a| == 1 {
      UnderscoreRunsSingle(a[0], b);
      assert a == [a[0]];
    } else {
      UnderscoreRunsAppend(a[1..], b);
      UnderscoreRunsStep(a, b);
      ConcatAssoc(RunHead(a[0], a[1]), UnderscoreRuns(a[1..]), [], UnderscoreRuns(b));
    }
  }

  /** What UnderscoreRuns emits for a first character c followed by d. */
  function RunHead(c: char, d: char): string
  {
    if IsAlnum(c) then [c] else if !IsAlnum(d) then [] else "_"
  }

  lemma UnderscoreRunsSingle(c: char, b: string)
    requires b != [] && (IsAlnum(c) || IsAlnum(b[0]))
    ensures UnderscoreRuns([c] + b) == UnderscoreRuns([c]) + UnderscoreRuns(b)
  {
    var cb := [c] + b;
    assert cb[0] == c && cb[1] == b[0];
    assert cb[1..] == b;
  }

  lemma UnderscoreRunsStep(a: string, b: string)
    requires |a| > 1
    ensures UnderscoreRuns(a + b) == RunHead(a[0], a[1]) + UnderscoreRuns(a[1..] + b)
    ensures UnderscoreRuns(a) == RunHead(a[0], a[1]) + UnderscoreRuns(a[1..])
  {
    var ab := a + b;
    assert ab[0] == a[0] && ab[1] == a[1];
    assert ab[1..] == a[1..] + b;
  }

  /**
   * SeparateHumps inserts an underscore at a cut exactly when a lower-case
   * letter or digit ends the left part and a capital starts the right part.
   */
  predicate HumpAt(x: char, y: char) { (IsLower(x) || IsDigit(x)) && IsUpper(y) }

  lemma {:induction false} SeparateHumpsAppend(a: string, b: string)
    requires a != [] && b != []
    ensures SeparateHumps(a + b) ==
      SeparateHumps(a) + (if HumpAt(a[|a| - 1], b[0]) then "_" else "") + SeparateHumps(b)
    decreases |a|
  {
    var mid: string := if HumpAt(a[|a| - 1], b[0]) then "_" else "";
    var ab := a + b;
    assert ab[0] == a[0];
    if |a| == 1 {
      assert ab[1] == b[0];
      assert ab[1..] == b;
      assert a == [a[0]];
      assert SeparateHumps(a) == a;
      if HumpAt(a[0], b[0]) {
        assert SeparateHumps(ab) == [a[0], '_'] + SeparateHumps(b);
        assert [a[0], '_'] == a + mid;
      } else {
        assert SeparateHumps(ab) == [a[0]] + SeparateHumps(b);
        assert a + mid == a;
      }
    } else {
      assert ab[1] == a[1];
      assert ab[1..] == a[1..] + b;
      SeparateHumpsAppend(a[1..], b);
      var rest := SeparateHumps(a[1..] + b);
      assert rest == SeparateHumps(a[1..]) + mid + SeparateHumps(b);
      var head: string := if HumpAt(a[0], a[1]) then [a[0], '_'] else [a[0]];
      assert SeparateHumps(ab) == head + rest;
      assert SeparateHumps(a) == head + SeparateHumps(a[1..]);
      ConcatAssoc(head, SeparateHumps(a[1..]), mid, SeparateHumps(b));
    }
  }

  /** re.sub(r"_+", "_", s): each run of underscores becomes one. */
  function CollapseUnderscores(s: string): (r: string)
    ensures |s| > 0 ==> |r| > 0 && r[0] == s[0]
    ensures NoDoubleUnderscore(r)
    ensures NoDoubleUnderscore(s) ==> r == s
  {
    if s == [] then []
    else if |s| > 1 && s[0] == '_' && s[1] == '_' then CollapseUnderscores(s[1..])
    else [s[0]] + CollapseUnderscores(s[1..])
  }

  /** The characters of s other than underscores, in order. */
  function NonUnderscores(s: string): (r: string)
    ensures |r| <= |s|
    ensures forall i :: 0 <= i < |r| ==> r[i] != '_'
  {
    if s == [] then []
    else if s[0] == '_' then NonUnderscores(s[1..])
    else [s[0]] + NonUnderscores(s[1..])
  }

  /** Collapsing deletes underscores only: every other character is kept, in order. */
  lemma {:induction false} CollapseKeepsOthers(s: string)
    ensures NonUnderscores(CollapseUnderscores(s)) == NonUnderscores(s)
    decreases |s|
  {
    if s != [] {
      var tail := s[1..];
      CollapseKeepsOthers(tail);
      if !(|s| > 1 && s[0] == '_' && s[1] == '_') {
        assert ([s[0]] + CollapseUnderscores(tail))[1..] == CollapseUnderscores(tail);
      }
    }
  }

  /** A run of underscores becomes a single one. */
  lemma {:induction false} CollapseRun(s: string)
    requires |s| > 0 && forall i :: 0 <= i < |s| ==> s[i] == '_'
    ensures CollapseUnderscores(s) == "_"
    decreases |s|
  {
    if |s| > 1 {
      var tail := s[1..];
      assert forall i :: 0 <= i < |tail| ==> tail[i] == s[i + 1];
      CollapseRun(tail);
    }
  }

  /**
   * Collapsing works piecewise at any cut that does not fall inside a run of
   * underscores.
   */
  lemma {:induction false} CollapseAppend(a: string, b: string)
    requires a == [] || b == [] || a[|a| - 1] != '_' || b[0] != '_'
    ensures CollapseUnderscores(a + b) == CollapseUnderscores(a) + CollapseUnderscores(b)
    decreases |a|
  {
    if a == [] {
      assert a + b == b;
    } else if b == [] {
      assert a + b == a;
    } else if |a| == 1 {
      CollapseSingle(a[0], b);
      assert a == [a[0]];
    } else {
      var tail := a[1..];
      assert tail[|tail| - 1] == a[|a| - 1];
      CollapseAppend(tail, b);
      CollapseStep(a, b);
      ConcatAssoc(CollapseHead(a[0], a[1]), CollapseUnderscores(tail), [], CollapseUnderscores(b));
    }
  }

  lemma CollapseSingle(c: char, b: string)
    requires b != [] && !(c == '_' && b[0] == '_')
    ensures CollapseUnderscores([c] + b) == [c] + CollapseUnderscores(b)
  {
    var cb := [c] + b;
    assert cb[0] == c && cb[1] == b[0];
    assert cb[1..] == b;
  }

  /** What CollapseUnderscores emits for a first character c followed by d. */
  function CollapseHead(c: char, d: char): string
  {
    if c == '_' && d == '_' then [] else [c]
  }

  lemma CollapseStep(a: string, b: string)
    requires |a| > 1
    ensures CollapseUnderscores(a + b) == CollapseHead(a[0], a[1]) + CollapseUnderscores(a[1..] + b)
    ensures CollapseUnderscores(a) == CollapseHead(a[0], a[1]) + CollapseUnderscores(a[1..])
  {
    var ab := a + b;
    assert ab[0] == a[0] && ab[1] == a[1];
    assert ab[1..] == a[1..] + b;
  }

  /** to_snake_case(text) */
  function ToSnakeCase(text: string): string
  {
    CollapseUnderscores(Strip(Lower(SeparateHumps(UnderscoreRuns(text))), '_'))
  }

  predicate SnakeChars(s: string)
  {
    forall i :: 0 <= i < |s| ==> SnakeChar(s[i])
  }

  lemma SliceKeepsShape(s: string, a: nat, b: nat)
    requires SnakeChars(s) && NoDoubleUnderscore(s)
    requires a <= b <= |s|
    ensures SnakeChars(s[a..b]) && NoDoubleUnderscore(s[a..b])
  {
    assert forall i :: 0 <= i < b - a ==> s[a..b][i] == s[a + i];
  }

  lemma StripKeepsShape(s: string)
    requires SnakeChars(s) && NoDoubleUnderscore(s)
    ensures IsSnake(Strip(s, '_'))
    ensures Alnums(Strip(s, '_')) == Alnums(s)
  {
    var left := StripLeading(s, '_');
    SliceKeepsShape(s, |s| - |left|, |s|);
    SliceKeepsShape(left, 0, |StripTrailing(left, '_')|);
    StripLeadingAlnums(s, '_');
    StripTrailingAlnums(left, '_');
  }

  /** The stages before the final strip and collapse leave lower-case letters, digits and single underscores. */
  lemma {:induction false} SnakeStages(text: string)
    ensures var t := Lower(SeparateHumps(UnderscoreRuns(text)));
      SnakeChars(t) && NoDoubleUnderscore(t) &&
      Alnums(t) == Lower(Alnums(text))
  {
    var runs := UnderscoreRuns(text);
    UnderscoreRunsShape(text);
    SeparateHumpsShape(runs);
    SeparateHumpsAlnums(runs);
    AlnumsLower(SeparateHumps(runs));
  }

  /** Whatever the input, to_snake_case returns a snake_case identifier. */
  lemma {:induction false} SnakeCaseShape(text: string)
    ensures IsSnake(ToSnakeCase(text))
  {
    var t := Lower(SeparateHumps(UnderscoreRuns(text)));
    SnakeStages(text);
    StripKeepsShape(t);
  }

  /**
   * to_snake_case keeps the letters and digits of its input, in order and in
   * lower case, and adds or drops nothing else but underscores.
   */
  lemma {:induction false} SnakeCaseContent(text: string)
    ensures Alnums(ToSnakeCase(text)) == Lower(Alnums(text))
  {
    var t := Lower(SeparateHumps(UnderscoreRuns(text)));
    SnakeStages(text);
    StripKeepsShape(t);
  }

  /** A string that already has the snake_case shape is returned unchanged. */
  lemma SnakeCharsClasses(s: string)
    requires SnakeChars(s)
    ensures AlnumOrUnderscore(s) && NoHump(s) && Lower(s) == s
  {
  }

  lemma {:induction false} SnakeCaseFixpoint(s: string)
    requires IsSnake(s)
    ensures ToSnakeCase(s) == s
  {
    SnakeCharsClasses(s);
    UnderscoreRunsFixpoint(s);
    SeparateHumpsFixpoint(s);
    StripNothing(s, '_');
  }

  /** to_snake_case is idempotent. */
  lemma SnakeCaseIdempotent(text: string)
    ensures ToSnakeCase(ToSnakeCase(text)) == ToSnakeCase(text)
  {
    SnakeCaseShape(text);
    SnakeCaseFixpoint(ToSnakeCase(text));
  }

  /** to_snake_case returns "" exactly when the input has no letter and no digit. */
  lemma SnakeCaseEmpty(text: string)
    ensures ToSnakeCase(text) == [] <==> Alnums(text) == []
  {
    var r := ToSnakeCase(text);
    SnakeCaseShape(text);
    SnakeCaseContent(text);
  }

  // ---------------------------------------------------------------- camelCase

  /** re.sub(r"[^a-zA-Z0-9]", " ", s): every character other than a letter or digit becomes a space. */
  function SpaceOutNonAlnum(s: string): (r: string)
    ensures |r| == |s|
    ensures forall i :: 0 <= i < |s| ==> r[i] == if IsAlnum(s[i]) then s[i] else ' '
  {
    if s == [] then []
    else [if IsAlnum(s[0]) then s[0] else ' '] + SpaceOutNonAlnum(s[1..])
  }

  /** A literal's spaced-out form, checked character by character. */
  lemma SpaceOutIs(s: string, t: string)
    requires |s| == |t|
    requires forall i :: 0 <= i < |s| ==> t[i] == if IsAlnum(s[i]) then s[i] else ' '
    ensures SpaceOutNonAlnum(s) == t
  {
  }

  /** [w.capitalize() for w in ws] */
  function CapitalizeAll(ws: seq<string>): (r: seq<string>)
    ensures |r| == |ws|
    ensures forall i :: 0 <= i < |ws| ==> r[i] == Capitalize(ws[i])
  {
    if ws == [] then [] else [Capitalize(ws[0])] + CapitalizeAll(ws[1..])
  }

  /** to_camel_case(text) */
  function ToCamelCase(text: string): string
  {
    var words := Split(SpaceOutNonAlnum(text));
    if words == [] then []
    else Lower(words[0]) + Concat(CapitalizeAll(words[1..]))
  }

  /** Length of the leading run of letters and digits of s. */
  function AlnumRunEnd(s: string): (k: nat)
    ensures k <= |s|
    ensures forall i :: 0 <= i < k ==> IsAlnum(s[i])
    ensures k < |s| ==> !IsAlnum(s[k])
  {
    if s == [] || !IsAlnum(s[0]) then 0 else 1 + AlnumRunEnd(s[1..])
  }

  /** The maximal runs of letters and digits of s, in order. */
  function AlnumRuns(s: string): (runs: seq<string>)
    ensures forall i :: 0 <= i < |runs| ==> |runs[i]| > 0
    ensures forall i, j :: 0 <= i < |runs| && 0 <= j < |runs[i]| ==> IsAlnum(runs[i][j])
    decreases |s|
  {
    if s == [] then []
    else if !IsAlnum(s[0]) then AlnumRuns(s[1..])
    else
      var k := AlnumRunEnd(s);
      [s[..k]] + AlnumRuns(s[k..])
  }

  /** Characters other than letters and digits before the text start no run. */
  lemma {:induction false} AlnumRunsGapFront(g: string, s: string)
    requires forall i :: 0 <= i < |g| ==> !IsAlnum(g[i])
    ensures AlnumRuns(g + s) == AlnumRuns(s)
    decreases |g|
  {
    if g == [] {
      assert g + s == s;
    } else {
      var tail := g[1..];
      assert forall i :: 0 <= i < |tail| ==> tail[i] == g[i + 1];
      assert (g + s)[1..] == tail + s;
      AlnumRunsGapFront(tail, s);
    }
  }

  lemma {:induction false} AlnumRunEndOf(w: string, t: string)
    requires forall i :: 0 <= i < |w| ==> IsAlnum(w[i])
    requires t == [] || !IsAlnum(t[0])
    ensures AlnumRunEnd(w + t) == |w|
    decreases |w|
  {
    if w != [] {
      var tail := w[1..];
      assert forall i :: 0 <= i < |tail| ==> tail[i] == w[i + 1];
      assert (w + t)[1..] == tail + t;
      AlnumRunEndOf(tail, t);
    }
  }

  /** A run followed by a non-alphanumeric character or by the end comes out whole. */
  lemma AlnumRunsFront(w: string, t: string)
    requires |w| > 0 && forall i :: 0 <= i < |w| ==> IsAlnum(w[i])
    requires t == [] || !IsAlnum(t[0])
    ensures AlnumRuns(w + t) == [w] + AlnumRuns(t)
  {
    AlnumRunEndOf(w, t);
    assert (w + t)[..|w|] == w;
    assert (w + t)[|w|..] == t;
  }

  /** The words to_camel_case splits off are exactly the maximal runs of letters and digits. */
  lemma {:induction false} SpacedOutRuns(s: string)
    ensures Split(SpaceOutNonAlnum(s)) == AlnumRuns(s)
    decreases |s|
  {
    if s != [] {
      var t := SpaceOutNonAlnum(s);
      if !IsAlnum(s[0]) {
        assert t == [' '] + SpaceOutNonAlnum(s[1..]);
        SplitSpaceFront([' '], SpaceOutNonAlnum(s[1..]));
        SpacedOutRuns(s[1..]);
      } else {
        var k := AlnumRunEnd(s);
        assert s == s[..k] + s[k..];
        SpacedOutRunFront(s[..k], s[k..]);
        SpacedOutRuns(s[k..]);
      }
    }
  }

  lemma SpacedOutRunFront(w: string, rest: string)
    requires |w| > 0 && forall i :: 0 <= i < |w| ==> IsAlnum(w[i])
    requires rest == [] || !IsAlnum(rest[0])
    ensures Split(SpaceOutNonAlnum(w + rest)) == [w] + Split(SpaceOutNonAlnum(rest))
  {
    SpaceOutAppend(w, rest);
    SpaceOutIs(w, w);
    var spaced := SpaceOutNonAlnum(rest);
    assert rest != [] ==> spaced[0] == ' ';
    assert IsWord(w) by {
      assert forall i :: 0 <= i < |w| ==> IsAlnum(w[i]) && !IsSpace(w[i]);
    }
    SplitWordFront(w, spaced);
  }

  /**
   * to_camel_case gives "" when there is no letter or digit; otherwise the
   * first run of letters and digits in lower case, then every later run
   * capitalized: upper case at its first character, lower case after it.
   */
  lemma CamelCaseRuns(text: string)
    ensures var runs := AlnumRuns(text);
      ToCamelCase(text) == if runs == [] then [] else Lower(runs[0]) + Concat(CapitalizeAll(runs[1..]))
  {
    SpacedOutRuns(text);
  }

  lemma {:induction false} NonSpaceOfSpacedOut(s: string)
    ensures NonSpace(SpaceOutNonAlnum(s)) == Alnums(s)
    decreases |s|
  {
    if s != [] {
      assert SpaceOutNonAlnum(s)[1..] == SpaceOutNonAlnum(s[1..]);
      NonSpaceOfSpacedOut(s[1..]);
    }
  }

  lemma LowerCapitalize(w: string)
    ensures Lower(Capitalize(w)) == Lower(w)
  {
  }

  lemma LowerLower(s: string)
    ensures Lower(Lower(s)) == Lower(s)
  {
  }

  /** Capitalizing words changes no letter but its case. */
  lemma {:induction false} LowerConcatCapitalized(ws: seq<string>)
    ensures Lower(Concat(CapitalizeAll(ws))) == Lower(Concat(ws))
    decreases |ws|
  {
    if ws != [] {
      assert CapitalizeAll(ws)[1..] == CapitalizeAll(ws[1..]);
      LowerAppend(Capitalize(ws[0]), Concat(CapitalizeAll(ws[1..])));
      LowerAppend(ws[0], Concat(ws[1..]));
      LowerCapitalize(ws[0]);
      LowerConcatCapitalized(ws[1..]);
    }
  }

  /**
   * to_camel_case keeps exactly the letters and digits of its input, in
   * order: only their case may change.
   */
  lemma {:induction false} CamelCaseContent(text: string)
    ensures Lower(ToCamelCase(text)) == Lower(Alnums(text))
    ensures |ToCamelCase(text)| == |Alnums(text)|
  {
    var words := Split(SpaceOutNonAlnum(text));
    ConcatSplit(SpaceOutNonAlnum(text));
    NonSpaceOfSpacedOut(text);
    if words != [] {
      assert Concat(words) == words[0] + Concat(words[1..]);
      LowerAppend(Lower(words[0]), Concat(CapitalizeAll(words[1..])));
      LowerAppend(words[0], Concat(words[1..]));
      LowerLower(words[0]);
      LowerConcatCapitalized(words[1..]);
    }
  }

  /**
   * to_camel_case returns "" exactly when the input has no letter and no
   * digit; otherwise it starts with the first of them in lower case, and
   * holds nothing but letters and digits.
   */
  lemma CamelCaseShape(text: string)
    ensures ToCamelCase(text) == [] <==> Alnums(text) == []
    ensures ToCamelCase(text) != [] ==> ToCamelCase(text)[0] == ToLower(Alnums(text)[0])
    ensures forall i :: 0 <= i < |ToCamelCase(text)| ==> IsAlnum(ToCamelCase(text)[i])
  {
    var r := ToCamelCase(text);
    CamelCaseContent(text);
    assert forall i :: 0 <= i < |r| ==> ToLower(r[i]) == ToLower(Alnums(text)[i]);
    var words := Split(SpaceOutNonAlnum(text));
    if words != [] {
      assert r[0] == Lower(words[0])[0];
    }
  }

  // ---------------------------------------------------------------- Title Case

  /** to_title_case(text) */
  function ToTitleCase(text: string): string
  {
    Join(CapitalizeAll(Split(text)), " ")
  }

  lemma CapitalizeWord(w: string)
    requires IsWord(w)
    ensures IsWord(Capitalize(w))
  {
    forall j | 0 <= j < |w|
      ensures !IsSpace(Capitalize(w)[j])
    {
      CaseKeepsSpace(w[j]);
    }
  }

  lemma CapitalizeWords(ws: seq<string>)
    requires forall i :: 0 <= i < |ws| ==> IsWord(ws[i])
    ensures forall i :: 0 <= i < |ws| ==> IsWord(CapitalizeAll(ws)[i])
  {
    forall i | 0 <= i < |ws|
      ensures IsWord(CapitalizeAll(ws)[i])
    {
      CapitalizeWord(ws[i]);
    }
  }

  /** The words of the title-cased text are the input's words, each capitalized. */
  lemma TitleCaseWords(text: string)
    ensures Split(ToTitleCase(text)) == CapitalizeAll(Split(text))
  {
    CapitalizeWords(Split(text));
    SplitJoin(CapitalizeAll(Split(text)));
  }

  lemma CapitalizeIdempotent(w: string)
    ensures Capitalize(Capitalize(w)) == Capitalize(w)
  {
    assert forall i :: 0 <= i < |w| ==> Capitalize(Capitalize(w))[i] == Capitalize(w)[i];
  }

  lemma CapitalizeTwice(ws: seq<string>)
    ensures CapitalizeAll(CapitalizeAll(ws)) == CapitalizeAll(ws)
  {
    forall i | 0 <= i < |ws| {
      CapitalizeIdempotent(ws[i]);
    }
  }

  /** to_title_case is idempotent. */
  lemma TitleCaseIdempotent(text: string)
    ensures ToTitleCase(ToTitleCase(text)) == ToTitleCase(text)
  {
    TitleCaseWords(text);
    CapitalizeTwice(Split(text));
  }

  /** to_title_case changes nothing but the case of the non-whitespace characters and the whitespace between words. */
  lemma TitleCaseContent(text: string)
    ensures Lower(NonSpace(ToTitleCase(text))) == Lower(NonSpace(text))
  {
    TitleCaseWords(text);
    ConcatSplit(ToTitleCase(text));
    ConcatSplit(text);
    LowerConcatCapitalized(Split(text));
  }

  // ---------------------------------------------------------------- examples
  // Each literal fact below is its own small lemma: evaluating several
  // functions over literals in one proof is far more expensive than
  // combining the facts afterwards.

  lemma SnakeFinish(t: string)
    requires IsSnake(t)
    ensures CollapseUnderscores(Strip(t, '_')) == t
  {
  }

  lemma HelloWorldRuns()
    ensures AlnumOrUnderscore("HelloWorld") && NoDoubleUnderscore("HelloWorld")
  {
  }

  lemma HelloWorldCut()
    ensures "HelloWorld" == "Hello" + "World"
    ensures NoHump("Hello") && NoHump("World") && HumpAt('o', 'W')
  {
  }

  lemma HelloWorldLower()
    ensures Lower("Hello" + "_" + "World") == "hello_world"
  {
    ConcatIs("Hello", "_", "Hello_");
    ConcatIs("Hello_", "World", "Hello_World");
    LowerIs("Hello_World", "hello_world");
  }

  lemma HelloWorldSnake()
    ensures IsSnake("hello_world")
  {
  }

  /** to_snake_case("HelloWorld") is "hello_world": an underscore at the lower-to-upper boundary. */
  lemma SnakeCaseHumpExample()
    ensures ToSnakeCase("HelloWorld") == "hello_world"
  {
    HelloWorldRuns();
    UnderscoreRunsFixpoint("HelloWorld");
    HelloWorldCut();
    SeparateHumpsAppend("Hello", "World");
    SeparateHumpsFixpoint("Hello");
    SeparateHumpsFixpoint("World");
    HelloWorldLower();
    HelloWorldSnake();
    SnakeFinish("hello_world");
  }

  lemma UserNameCut()
    ensures "user-name" == "user" + ("-" + "name")
    ensures UnderscoreRuns("-") == "_"
  {
  }

  lemma UserNameRuns()
    ensures AlnumOrUnderscore("user") && NoDoubleUnderscore("user")
    ensures AlnumOrUnderscore("name") && NoDoubleUnderscore("name")
  {
  }

  lemma UserNameJoined()
    ensures "user" + ("_" + "name") == "user_name"
  {
  }

  lemma UserNameSnake()
    ensures IsSnake("user_name")
  {
  }

  lemma UserNameNoHump()
    ensures NoHump("user_name")
  {
  }

  lemma UserNameLower()
    ensures Lower("user_name") == "user_name"
  {
    LowerIs("user_name", "user_name");
  }

  lemma UserNameUnderscored()
    ensures UnderscoreRuns("user-name") == "user_name"
  {
    UserNameCut();
    UserNameRuns();
    UnderscoreRunsFixpoint("user");
    UnderscoreRunsFixpoint("name");
    UnderscoreRunsAppend("-", "name");
    UnderscoreRunsAppend("user", "-" + "name");
    UserNameJoined();
  }

  /** to_snake_case("user-name") is "user_name": the hyphen becomes an underscore. */
  lemma SnakeCaseHyphenExample()
    ensures ToSnakeCase("user-name") == "user_name"
  {
    UserNameUnderscored();
    UserNameNoHump();
    SeparateHumpsFixpoint("user_name");
    UserNameLower();
    UserNameSnake();
    SnakeFinish("user_name");
  }

  lemma ApiResponseCut()
    ensures "API Response" == "API" + (" " + "Response")
    ensures UnderscoreRuns(" ") == "_"
  {
  }

  lemma ApiResponseRuns()
    ensures AlnumOrUnderscore("API") && NoDoubleUnderscore("API")
    ensures AlnumOrUnderscore("Response") && NoDoubleUnderscore("Response")
  {
  }

  lemma ApiResponseJoined()
    ensures "API" + ("_" + "Response") == "API_Response"
  {
  }

  lemma ApiResponseNoHump()
    ensures NoHump("API_Response")
  {
  }

  lemma ApiResponseLower()
    ensures Lower("API_Response") == "api_response"
  {
    LowerIs("API_Response", "api_response");
  }

  lemma ApiResponseSnake()
    ensures IsSnake("api_response")
  {
  }

  lemma ApiResponseUnderscored()
    ensures UnderscoreRuns("API Response") == "API_Response"
  {
    ApiResponseCut();
    ApiResponseRuns();
    UnderscoreRunsFixpoint("API");
    UnderscoreRunsFixpoint("Response");
    UnderscoreRunsAppend(" ", "Response");
    UnderscoreRunsAppend("API", " " + "Response");
    ApiResponseJoined();
  }

  /** to_snake_case("API Response") is "api_response": the space becomes an underscore. */
  lemma SnakeCaseSpaceExample()
    ensures ToSnakeCase("API Response") == "api_response"
  {
    ApiResponseUnderscored();
    ApiResponseNoHump();
    SeparateHumpsFixpoint("API_Response");
    ApiResponseLower();
    ApiResponseSnake();
    SnakeFinish("api_response");
  }

  lemma HelloWorldSpaced()
    ensures SpaceOutNonAlnum("hello world") == "hello world"
  {
    SpaceOutIs("hello world", "hello world");
  }

  lemma HelloWorldJoined()
    ensures Join(["hello", "world"], " ") == "hello world"
  {
  }

  lemma HelloWorldIsWords()
    ensures IsWord("hello") && IsWord("world")
  {
  }

  lemma HelloLower()
    ensures Lower("hello") == "hello"
  {
    LowerIs("hello", "hello");
  }

  lemma HelloWorldCapitalized()
    ensures CapitalizeAll(["world"]) == ["World"]
    ensures CapitalizeAll(["hello", "world"]) == ["Hello", "World"]
  {
    CapitalizeIs("world", "World");
    CapitalizeIs("hello", "Hello");
  }

  lemma WorldConcat()
    ensures Concat(["World"]) == "World"
  {
  }

  /** The words of "hello world" are "hello" and "world". */
  lemma HelloWorldSplit()
    ensures Split("hello world") == ["hello", "world"]
  {
    HelloWorldJoined();
    HelloWorldIsWords();
    SplitJoin(["hello", "world"]);
  }

  lemma HelloWorldCamelWords()
    ensures Split(SpaceOutNonAlnum("hello world")) == ["hello", "world"]
  {
    HelloWorldSpaced();
    HelloWorldSplit();
  }

  lemma HelloWorldCamelJoined()
    ensures Lower("hello") + Concat(CapitalizeAll(["world"])) == "helloWorld"
  {
    HelloLower();
    HelloWorldCapitalized();
    WorldConcat();
  }

  /** to_camel_case("hello world") is "helloWorld". */
  lemma CamelCaseSpaceExample()
    ensures ToCamelCase("hello world") == "helloWorld"
  {
    HelloWorldCamelWords();
    assert ["hello", "world"][1..] == ["world"];
    HelloWorldCamelJoined();
  }

  lemma SpaceOutAppend(a: string, b: string)
    ensures SpaceOutNonAlnum(a + b) == SpaceOutNonAlnum(a) + SpaceOutNonAlnum(b)
  {
    var ab, t := a + b, SpaceOutNonAlnum(a) + SpaceOutNonAlnum(b);
    forall i | 0 <= i < |ab|
      ensures t[i] == if IsAlnum(ab[i]) then ab[i] else ' '
    {
      if i < |a| {
        assert ab[i] == a[i];
      } else {
        assert ab[i] == b[i - |a|];
      }
    }
    SpaceOutIs(ab, t);
  }

  lemma SnakeExampleCut()
    ensures "snake_case_example" == "snake_" + ("case_" + "example")
    ensures "snake " + ("case " + "example") == "snake case example"
  {
  }

  lemma SnakeExamplePiecesSpaced()
    ensures SpaceOutNonAlnum("snake_") == "snake "
    ensures SpaceOutNonAlnum("case_") == "case "
    ensures SpaceOutNonAlnum("example") == "example"
  {
    SpaceOutIs("snake_", "snake ");
    SpaceOutIs("case_", "case ");
    SpaceOutIs("example", "example");
  }

  lemma SnakeExampleSpaced()
    ensures SpaceOutNonAlnum("snake_case_example") == "snake case example"
  {
    SnakeExampleCut();
    SpaceOutAppend("case_", "example");
    SpaceOutAppend("snake_", "case_" + "example");
    SnakeExamplePiecesSpaced();
  }

  lemma SnakeExampleJoined()
    ensures Join(["snake", "case", "example"], " ") == "snake case example"
  {
    assert ["snake", "case", "example"][1..] == ["case", "example"];
    assert ["case", "example"][1..] == ["example"];
  }

  lemma SnakeExampleIsWords()
    ensures IsWord("snake") && IsWord("case") && IsWord("example")
  {
  }

  lemma SnakeExampleSplit()
    ensures Split("snake case example") == ["snake", "case", "example"]
  {
    var ws := ["snake", "case", "example"];
    SnakeExampleIsWords();
    assert forall i :: 0 <= i < |ws| ==> IsWord(ws[i]) by {
      assert ws[0] == "snake" && ws[1] == "case" && ws[2] == "example";
    }
    SplitJoin(ws);
    SnakeExampleJoined();
  }

  lemma SnakeExampleCapitalized()
    ensures CapitalizeAll(["case", "example"]) == ["Case", "Example"]
  {
    CapitalizeIs("case", "Case");
    CapitalizeIs("example", "Example");
  }

  lemma SnakeExampleConcat()
    ensures Concat(["Case", "Example"]) == "CaseExample"
  {
    assert ["Case", "Example"][1..] == ["Example"];
  }

  lemma SnakeExampleLower()
    ensures Lower("snake") == "snake" && "snake" + "CaseExample" == "snakeCaseExample"
  {
    LowerIs("snake", "snake");
    ConcatIs("snake", "CaseExample", "snakeCaseExample");
  }

  lemma SnakeExampleCamelWords()
    ensures Split(SpaceOutNonAlnum("snake_case_example")) == ["snake", "case", "example"]
  {
    SnakeExampleSpaced();
    SnakeExampleSplit();
  }

  lemma SnakeExampleCamelJoined()
    ensures Lower("snake") + Concat(CapitalizeAll(["case", "example"])) == "snakeCaseExample"
  {
    SnakeExampleCapitalized();
    SnakeExampleConcat();
    SnakeExampleLower();
  }

  /** to_camel_case("snake_case_example") is "snakeCaseExample"; to_camel_case("") is "". */
  lemma CamelCaseUnderscoreExample()
    ensures ToCamelCase("snake_case_example") == "snakeCaseExample"
    ensures ToCamelCase("") == ""
  {
    SnakeExampleCamelWords();
    assert ["snake", "case", "example"][1..] == ["case", "example"];
    SnakeExampleCamelJoined();
  }

  lemma HelloWorldTitleJoined()
    ensures Join(["Hello", "World"], " ") == "Hello World"
  {
  }

  /** to_title_case("hello world") is "Hello World". */
  lemma TitleCaseExample()
    ensures ToTitleCase("hello world") == "Hello World"
  {
    HelloWorldSplit();
    HelloWorldCapitalized();
    HelloWorldTitleJoined();
  }

  lemma ShoutingJoined()
    ensures Join(["SHOUTING", "TEXT"], " ") == "SHOUTING TEXT"
    ensures IsWord("SHOUTING") && IsWord("TEXT")
  {
  }

  lemma ShoutingSplit()
    ensures Split("SHOUTING TEXT") == ["SHOUTING", "TEXT"]
  {
    ShoutingJoined();
    SplitJoin(["SHOUTING", "TEXT"]);
  }

  lemma ShoutingCapitalized()
    ensures CapitalizeAll(["SHOUTING", "TEXT"]) == ["Shouting", "Text"]
  {
    CapitalizeIs("SHOUTING", "Shouting");
    CapitalizeIs("TEXT", "Text");
  }

  lemma ShoutingTitleJoined()
    ensures Join(["Shouting", "Text"], " ") == "Shouting Text"
  {
  }

  /** to_title_case("SHOUTING TEXT") is "Shouting Text". */
  lemma TitleCaseShoutingExample()
    ensures ToTitleCase("SHOUTING TEXT") == "Shouting Text"
  {
    ShoutingSplit();
    ShoutingCapitalized();
    ShoutingTitleJoined();
  }
}
