/**
 * The Python str and list operations the text modules share: str.split()
 * with no separator, sep.join(words), "".join(words) and the slice s[:k].
 */
module Words {
  import opened Chars

  predicate NoSpace(w: string) { forall i :: 0 <= i < |w| ==> !IsSpace(w[i]) }

  /** A word as str.split() produces it: non-empty, without whitespace. */
  predicate IsWord(w: string) { |w| > 0 && NoSpace(w) }

  /** Length of the leading run of non-whitespace characters of s. */
  function WordEnd(s: string): (k: nat)
    ensures k <= |s|
    ensures NoSpace(s[..k])
    ensures k < |s| ==> IsSpace(s[k])
  {
    if s == [] || IsSpace(s[0]) then 0 else 1 + WordEnd(s[1..])
  }

  /** str.split(): the maximal runs of non-whitespace characters, in order. */
  function Split(s: string): (ws: seq<string>)
    ensures forall i :: 0 <= i < |ws| ==> IsWord(ws[i])
    decreases |s|
  {
    if s == [] then []
    else if IsSpace(s[0]) then Split(s[1..])
    else
      var k := WordEnd(s);
      [s[..k]] + Split(s[k..])
  }

  /** sep.join(ws) */
  function Join(ws: seq<string>, sep: string): string
  {
    if |ws| == 0 then []
    else if |ws| == 1 then ws[0]
    else ws[0] + sep + Join(ws[1..], sep)
  }

  /** "".join(ws) */
  function Concat(ws: seq<string>): string
  {
    if ws == [] then [] else ws[0] + Concat(ws[1..])
  }

  /** The characters of s that are not whitespace, in order. */
  function NonSpace(s: string): (r: string)
    ensures |r| <= |s|
  {
    if s == [] then []
    else if IsSpace(s[0]) then NonSpace(s[1..])
    else [s[0]] + NonSpace(s[1..])
  }

  /** The slice s[:k] of Python, where a negative k counts from the end. */
  function SliceTo<T>(s: seq<T>, k: int): (r: seq<T>)
    ensures r <= s
    ensures 0 <= k ==> |r| == if k < |s| then k else |s|
    ensures k < 0 ==> |r| == if -k < |s| then |s| + k else 0
  {
    if 0 <= k then (if k < |s| then s[..k] else s)
    else if -k < |s| then s[..|s| + k]
    else []
  }

  lemma {:induction false} NonSpaceAppend(a: string, b: string)
    ensures NonSpace(a + b) == NonSpace(a) + NonSpace(b)
    decreases |a|
  {
    if a == [] {
      assert a + b == b;
    } else {
      assert (a + b)[1..] == a[1..] + b;
      NonSpaceAppend(a[1..], b);
    }
  }

  lemma {:induction false} NonSpaceOfWord(w: string)
    requires NoSpace(w)
    ensures NonSpace(w) == w
    decreases |w|
  {
    if w != [] {
      NonSpaceOfWord(w[1..]);
    }
  }

  /** Splitting drops exactly the whitespace: the words, concatenated, are the non-whitespace characters. */
  lemma {:induction false} ConcatSplit(s: string)
    ensures Concat(Split(s)) == NonSpace(s)
    decreases |s|
  {
    if s == [] {
    } else if IsSpace(s[0]) {
      ConcatSplit(s[1..]);
    } else {
      var k := WordEnd(s);
      assert s == s[..k] + s[k..];
      ConcatSplit(s[k..]);
      NonSpaceAppend(s[..k], s[k..]);
      NonSpaceOfWord(s[..k]);
    }
  }

  /** str.split() gives no word exactly when the text is all whitespace. */
  lemma {:induction false} SplitEmpty(s: string)
    ensures Split(s) == [] <==> forall i :: 0 <= i < |s| ==> IsSpace(s[i])
    decreases |s|
  {
    if s != [] && IsSpace(s[0]) {
      SplitEmpty(s[1..]);
      assert forall i :: 0 < i < |s| ==> s[i] == s[1..][i - 1];
    }
  }

  lemma WordEndOfWord(w: string, t: string)
    requires NoSpace(w)
    requires t == [] || IsSpace(t[0])
    ensures WordEnd(w + t) == |w|
    decreases |w|
  {
    if w != [] {
      assert (w + t)[1..] == w[1..] + t;
      WordEndOfWord(w[1..], t);
    }
  }

  /** Whitespace before the text yields no word and no empty word. */
  lemma {:induction false} SplitSpaceFront(g: string, s: string)
    requires forall i :: 0 <= i < |g| ==> IsSpace(g[i])
    ensures Split(g + s) == Split(s)
    decreases |g|
  {
    if g == [] {
      assert g + s == s;
    } else {
      var tail := g[1..];
      assert forall i :: 0 <= i < |tail| ==> tail[i] == g[i + 1];
      assert (g + s)[1..] == tail + s;
      SplitSpaceFront(tail, s);
    }
  }

  /**
   * A word followed by whitespace or by the end of the text comes out whole,
   * as one word: the words are the maximal runs of non-whitespace.
   */
  lemma SplitWordFront(w: string, t: string)
    requires IsWord(w)
    requires t == [] || IsSpace(t[0])
    ensures Split(w + t) == [w] + Split(t)
  {
    WordEndOfWord(w, t);
    assert (w + t)[..|w|] == w;
    assert (w + t)[|w|..] == t;
  }

  /**
   * Joining words with single spaces and splitting again gives the same
   * words back.
   */
  lemma {:induction false} SplitJoin(ws: seq<string>)
    requires forall i :: 0 <= i < |ws| ==> IsWord(ws[i])
    ensures Split(Join(ws, " ")) == ws
    decreases |ws|
  {
    if |ws| == 1 {
      WordEndOfWord(ws[0], []);
      assert ws[0] + [] == ws[0];
      assert ws[0][|ws[0]|..] == [];
    } else if |ws| > 1 {
      var rest := Join(ws[1..], " ");
      var s := ws[0] + " " + rest;
      assert s == ws[0] + (" " + rest);
      WordEndOfWord(ws[0], " " + rest);
      assert s[..|ws[0]|] == ws[0];
      assert s[|ws[0]|..] == " " + rest;
      assert (" " + rest)[1..] == rest;
      SplitJoin(ws[1..]);
      assert ws == [ws[0]] + ws[1..];
    }
  }

  /** s.lstrip(c): s without its leading run of c. */
  function StripLeading(s: string, c: char): (r: string)
    ensures |r| <= |s| && r == s[|s| - |r|..]
    ensures forall i :: 0 <= i < |s| - |r| ==> s[i] == c
    ensures |r| > 0 ==> r[0] != c
  {
    if s != [] && s[0] == c then StripLeading(s[1..], c) else s
  }

  /** s.rstrip(c): s without its trailing run of c. */
  function StripTrailing(s: string, c: char): (r: string)
    ensures |r| <= |s| && r == s[..|r|]
    ensures forall i :: |r| <= i < |s| ==> s[i] == c
    ensures |r| > 0 ==> r[|r| - 1] != c
  {
    if s != [] && s[|s| - 1] == c then StripTrailing(s[..|s| - 1], c) else s
  }

  /** s.strip(c) */
  function Strip(s: string, c: char): string
  {
    StripTrailing(StripLeading(s, c), c)
  }

  /** The letters and digits of s, in order. */
  function Alnums(s: string): (r: string)
    ensures |r| <= |s|
    ensures forall i :: 0 <= i < |r| ==> IsAlnum(r[i])
  {
    if s == [] then []
    else if IsAlnum(s[0]) then [s[0]] + Alnums(s[1..])
    else Alnums(s[1..])
  }

  lemma {:induction false} AlnumsAppend(a: string, b: string)
    ensures Alnums(a + b) == Alnums(a) + Alnums(b)
    decreases |a|
  {
    if a == [] {
      assert a + b == b;
    } else {
      assert (a + b)[1..] == a[1..] + b;
      AlnumsAppend(a[1..], b);
    }
  }

  lemma {:induction false} AlnumsNone(s: string)
    requires forall i :: 0 <= i < |s| ==> !IsAlnum(s[i])
    ensures Alnums(s) == []
    decreases |s|
  {
    if s != [] {
      AlnumsNone(s[1..]);
    }
  }

  lemma {:induction false} AlnumsLower(s: string)
    ensures Alnums(Lower(s)) == Lower(Alnums(s))
    decreases |s|
  {
    if s != [] {
      assert Lower(s) == [ToLower(s[0])] + Lower(s[1..]);
      assert Lower(s)[1..] == Lower(s[1..]);
      AlnumsLower(s[1..]);
    }
  }

  lemma LowerAppend(a: string, b: string)
    ensures Lower(a + b) == Lower(a) + Lower(b)
  {
    forall i | 0 <= i < |a + b|
      ensures Lower(a + b)[i] == (Lower(a) + Lower(b))[i]
    {
      if i < |a| {
        assert (a + b)[i] == a[i];
      } else {
        assert (a + b)[i] == b[i - |a|];
      }
    }
  }

  lemma StripLeadingAlnums(s: string, c: char)
    requires !IsAlnum(c)
    ensures Alnums(StripLeading(s, c)) == Alnums(s)
  {
    var r := StripLeading(s, c);
    assert s == s[..|s| - |r|] + r;
    AlnumsNone(s[..|s| - |r|]);
    AlnumsAppend(s[..|s| - |r|], r);
  }

  lemma StripTrailingAlnums(s: string, c: char)
    requires !IsAlnum(c)
    ensures Alnums(StripTrailing(s, c)) == Alnums(s)
  {
    var r := StripTrailing(s, c);
    assert s == r + s[|r|..];
    AlnumsNone(s[|r|..]);
    AlnumsAppend(r, s[|r|..]);
  }

  /** A literal concatenation, checked character by character. */
  lemma ConcatIs(a: string, b: string, t: string)
    requires |a| + |b| == |t|
    requires forall i :: 0 <= i < |a| ==> a[i] == t[i]
    requires forall i :: 0 <= i < |b| ==> b[i] == t[|a| + i]
    ensures a + b == t
  {
    assert forall i :: 0 <= i < |t| ==> (a + b)[i] == t[i];
  }

  lemma ConcatAssoc(h: string, x: string, m: string, y: string)
    ensures h + (x + m + y) == h + x + m + y
  {
  }

  /** Stripping c from a string that neither starts nor ends with c changes nothing. */
  lemma StripNothing(s: string, c: char)
    requires |s| > 0 ==> s[0] != c && s[|s| - 1] != c
    ensures Strip(s, c) == s
  {
  }

  /** A prefix holds no more of any element than the whole sequence. */
  lemma PrefixMultiset<T>(a: seq<T>, b: seq<T>)
    requires a <= b
    ensures multiset(a) <= multiset(b)
  {
    assert b == a + b[|a|..];
  }
}
