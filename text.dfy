/**
  The two string operations both classifiers rely on: the substring test that
  `String.prototype.includes` performs, and the lower-casing of the joined
  text. Lower-casing is modelled on ASCII letters only; every keyword the
  classifiers look for is free of ASCII letters, and the lemma at the end of
  this module shows that lowering then neither creates nor destroys a match.
 */
module Text {

  /** `needle` occurs in `text` starting at index `i`. */
  ghost predicate OccursAt(text: string, needle: string, i: int)
  {
    0 <= i && i + |needle| <= |text| && text[i..i + |needle|] == needle
  }

  /** The meaning of `text.includes(needle)`: some occurrence exists. */
  ghost predicate Contains(text: string, needle: string)
  {
    exists i :: OccursAt(text, needle, i)
  }

  /** An occurrence in `text[1..]` is an occurrence in `text`, one place later. */
  lemma OccursAtTail(text: string, needle: string, i: int)
    requires |text| > 0 && i >= 0
    ensures OccursAt(text[1..], needle, i) <==> OccursAt(text, needle, i + 1)
  {
  }

  /**
    The substring search `text.includes(needle)`: try the match at the front,
    then search the rest. An empty needle is found everywhere, as in JavaScript.
   */
  function Includes(text: string, needle: string): (found: bool)
    ensures found <==> Contains(text, needle)
    decreases |text|
  {
    if |text| < |needle| then
      assert forall i :: !OccursAt(text, needle, i);
      false
    else if text[..|needle|] == needle then
      assert OccursAt(text, needle, 0);
      true
    else
      var rest := Includes(text[1..], needle);
      assert rest <==> Contains(text, needle) by {
        if rest {
          var i :| OccursAt(text[1..], needle, i);
          OccursAtTail(text, needle, i);
        }
        if Contains(text, needle) {
          var j :| OccursAt(text, needle, j);
          assert j != 0;
          OccursAtTail(text, needle, j - 1);
        }
      }
      rest
  }

  predicate IsAsciiUpper(c: char)
  {
    'A' <= c <= 'Z'
  }

  predicate IsAsciiLower(c: char)
  {
    'a' <= c <= 'z'
  }

  /**
    A character other than an ASCII letter: the model's lowering never
    changes it and never produces it from a different character.
   */
  predicate NotAsciiLetter(c: char)
  {
    !IsAsciiUpper(c) && !IsAsciiLower(c)
  }

  function LowerChar(c: char): (l: char)
    ensures !IsAsciiUpper(l)
    ensures IsAsciiUpper(c) ==> IsAsciiLower(l) && l as int == c as int + 32
    ensures !IsAsciiUpper(c) ==> l == c
  {
    if IsAsciiUpper(c) then (c as int + 32) as char else c
  }

  /** `s.toLowerCase()`, restricted to the ASCII letters. */
  function Lower(s: string): (r: string)
    ensures |r| == |s|
    ensures forall i :: 0 <= i < |s| ==> !IsAsciiUpper(r[i])
    ensures forall i :: 0 <= i < |s| && !IsAsciiUpper(s[i]) ==> r[i] == s[i]
    ensures forall i :: 0 <= i < |s| && IsAsciiUpper(s[i]) ==> r[i] as int == s[i] as int + 32
  {
    seq(|s|, i requires 0 <= i < |s| => LowerChar(s[i]))
  }

  /**
    For a needle without ASCII letters, lowering the text keeps every
    occurrence and adds none: the classification of a text does not depend on
    how its ASCII letters are cased.
   */
  lemma LoweringKeepsNonLetterMatches(s: string, needle: string)
    requires forall j :: 0 <= j < |needle| ==> NotAsciiLetter(needle[j])
    ensures Contains(Lower(s), needle) <==> Contains(s, needle)
  {
    var low := Lower(s);
    forall i | 0 <= i && i + |needle| <= |s|
      ensures OccursAt(low, needle, i) <==> OccursAt(s, needle, i)
    {
      if OccursAt(low, needle, i) {
        forall j | 0 <= j < |needle| ensures s[i + j] == needle[j] {
          assert low[i + j] == needle[j];
        }
        assert s[i..i + |needle|] == needle;
      }
      if OccursAt(s, needle, i) {
        forall j | 0 <= j < |needle| ensures low[i + j] == needle[j] {
          assert s[i + j] == needle[j];
        }
        assert low[i..i + |needle|] == needle;
      }
    }
    if Contains(low, needle) {
      var i :| OccursAt(low, needle, i);
      assert OccursAt(s, needle, i);
    }
    if Contains(s, needle) {
      var i :| OccursAt(s, needle, i);
      assert OccursAt(low, needle, i);
    }
  }
}
