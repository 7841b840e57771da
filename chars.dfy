/**
 * ASCII character classes and case mapping, as Python's str methods and
 * the regular-expression classes [a-z], [A-Z], [0-9], \w and \s see them on
 * ASCII text. Characters outside ASCII belong to none of the classes and are
 * left alone by the case mappings.
 */
module Chars {

  predicate IsLower(c: char) { 'a' <= c <= 'z' }

  predicate IsUpper(c: char) { 'A' <= c <= 'Z' }

  predicate IsDigit(c: char) { '0' <= c <= '9' }

  predicate IsAlpha(c: char) { IsLower(c) || IsUpper(c) }

  /** [a-zA-Z0-9] */
  predicate IsAlnum(c: char) { IsAlpha(c) || IsDigit(c) }

  /** \w on ASCII: [a-zA-Z0-9_] */
  predicate IsWordChar(c: char) { IsAlnum(c) || c == '_' }

  /**
   * Whitespace for str.split() and \s: tab, line feed, vertical tab,
   * form feed, carriage return, the four separators 0x1C-0x1F, and space.
   */
  predicate IsSpace(c: char) { 9 <= c as int <= 13 || 28 <= c as int <= 32 }

  /** One of the sentence terminators '.', '!', '?'. */
  predicate IsTerminator(c: char) { c == '.' || c == '!' || c == '?' }

  function ToLower(c: char): (d: char)
    ensures IsUpper(c) ==> IsLower(d) && d as int == c as int + 32
    ensures !IsUpper(c) ==> d == c
  {
    if IsUpper(c) then (c as int + 32) as char else c
  }

  function ToUpper(c: char): (d: char)
    ensures IsLower(c) ==> IsUpper(d) && d as int == c as int - 32
    ensures !IsLower(c) ==> d == c
  {
    if IsLower(c) then (c as int - 32) as char else c
  }

  /** str.lower() */
  function Lower(s: string): (r: string)
    ensures |r| == |s|
    ensures forall i :: 0 <= i < |s| ==> r[i] == ToLower(s[i])
  {
    if s == [] then [] else [ToLower(s[0])] + Lower(s[1..])
  }

  /** str.capitalize(): the first character upper case, the rest lower case. */
  function Capitalize(s: string): (r: string)
    ensures |r| == |s|
    ensures |s| > 0 ==> r[0] == ToUpper(s[0])
    ensures forall i :: 0 < i < |s| ==> r[i] == ToLower(s[i])
  {
    if s == [] then [] else [ToUpper(s[0])] + Lower(s[1..])
  }

  lemma LowerKeepsClass(s: string)
    ensures forall i :: 0 <= i < |s| ==>
      (IsAlnum(Lower(s)[i]) <==> IsAlnum(s[i])) &&
      (IsSpace(Lower(s)[i]) <==> IsSpace(s[i])) &&
      (IsWordChar(Lower(s)[i]) <==> IsWordChar(s[i])) &&
      !IsUpper(Lower(s)[i])
  {
  }

  /** A literal's lower-case form, checked character by character. */
  lemma LowerIs(s: string, t: string)
    requires |s| == |t|
    requires forall i :: 0 <= i < |s| ==> ToLower(s[i]) == t[i]
    ensures Lower(s) == t
  {
  }

  /** A literal's capitalized form, checked character by character. */
  lemma CapitalizeIs(s: string, t: string)
    requires |s| == |t| && (|s| > 0 ==> ToUpper(s[0]) == t[0])
    requires forall i :: 0 < i < |s| ==> ToLower(s[i]) == t[i]
    ensures Capitalize(s) == t
  {
  }

  /** Changing case never turns a character into whitespace or whitespace into something else. */
  lemma CaseKeepsSpace(c: char)
    ensures IsSpace(ToLower(c)) <==> IsSpace(c)
    ensures IsSpace(ToUpper(c)) <==> IsSpace(c)
  {
  }
}
