/** The two string operations the filtered view relies on:
    `String.prototype.toLowerCase`, restricted to ASCII letters, and
    `String.prototype.includes`. */
module Text {

  predicate IsUpper(c: char) {
    'A' <= c <= 'Z'
  }

  predicate IsLowerLetter(c: char) {
    'a' <= c <= 'z'
  }

  /** The capital form of a lower-case ASCII letter. */
  function UpperOf(c: char): (r: char)
    requires IsLowerLetter(c)
    ensures IsUpper(r)
  {
    (c as int - 32) as char
  }

  /** ASCII case folding of one character; every other character is kept. */
  function LowerChar(c: char): (r: char)
    ensures !IsUpper(r)
    ensures r != c ==> IsUpper(c)
  {
    if IsUpper(c) then (c as int + 32) as char else c
  }

  /** Both cases of a letter fold to its lower-case form, and no other
      character folds to it. */
  lemma LowerCharCases(c: char, ch: char)
    requires IsLowerLetter(ch)
    ensures LowerChar(ch) == ch && LowerChar(UpperOf(ch)) == ch
    ensures LowerChar(c) == ch <==> c == ch || c == UpperOf(ch)
  {
  }

  /** `s.toLowerCase()` for ASCII text: every character folded on its own. */
  function Lower(s: string): (r: string)
    ensures |r| == |s|
    ensures forall i :: 0 <= i < |s| ==> r[i] == LowerChar(s[i])
  {
    seq(|s|, i requires 0 <= i < |s| => LowerChar(s[i]))
  }

  /** The two strings are equal up to the case of ASCII letters: at every
      position the characters are equal or are the two cases of one letter. */
  predicate SameUpToCase(s: string, t: string) {
    && |s| == |t|
    && forall i :: 0 <= i < |s| ==>
         s[i] == t[i] || (IsUpper(s[i]) && t[i] as int == s[i] as int + 32)
                      || (IsUpper(t[i]) && s[i] as int == t[i] as int + 32)
  }

  /** Strings equal up to case have the same lower-cased form. */
  lemma LowerSameUpToCase(s: string, t: string)
    requires SameUpToCase(s, t)
    ensures Lower(s) == Lower(t)
  {
    forall i | 0 <= i < |s| ensures Lower(s)[i] == Lower(t)[i] {
    }
  }

  /** Lower-casing an already lower-cased string changes nothing. */
  lemma LowerIdempotent(s: string)
    ensures Lower(Lower(s)) == Lower(s)
  {
  }

  /** A lower-case letter absent from `s` in both cases is absent from
      `Lower(s)`. */
  lemma LowerLacks(s: string, ch: char)
    requires IsLowerLetter(ch)
    requires ch !in s && UpperOf(ch) !in s
    ensures ch !in Lower(s)
  {
    forall i | 0 <= i < |s| ensures Lower(s)[i] != ch {
      assert s[i] in s;
    }
  }

  /** `pat` occurs in `text` starting at position `i`. */
  predicate OccursAt(text: string, pat: string, i: nat) {
    i + |pat| <= |text| && text[i..i + |pat|] == pat
  }

  /** `text.includes(pat)`: is `pat` a prefix of some suffix of `text`? */
  function Includes(text: string, pat: string): (r: bool)
    ensures pat == [] ==> r
    ensures r ==> |pat| <= |text|
  {
    pat <= text || (text != [] && Includes(text[1..], pat))
  }

  /** An occurrence in `text` after its first character is an occurrence
      in the tail, one position earlier. */
  lemma OccursInTail(text: string, pat: string, i: nat)
    requires text != []
    ensures OccursAt(text, pat, i + 1) <==> OccursAt(text[1..], pat, i)
  {
    if i + 1 + |pat| <= |text| {
      assert text[1..][i..i + |pat|] == text[i + 1..i + 1 + |pat|];
    }
  }

  /** Whatever Includes accepts has an occurrence at some position. */
  lemma {:induction false} IncludesHasOccurrence(text: string, pat: string) returns (i: nat)
    requires Includes(text, pat)
    ensures OccursAt(text, pat, i)
  {
    if pat <= text {
      i := 0;
    } else {
      var j := IncludesHasOccurrence(text[1..], pat);
      OccursInTail(text, pat, j);
      i := j + 1;
    }
  }

  /** An occurrence at any position makes Includes hold. */
  lemma {:induction false} OccurrenceIncludes(text: string, pat: string, i: nat)
    requires OccursAt(text, pat, i)
    ensures Includes(text, pat)
  {
    if i == 0 {
      assert pat <= text;
    } else {
      OccursInTail(text, pat, i - 1);
      OccurrenceIncludes(text[1..], pat, i - 1);
    }
  }

  /** Includes agrees with the positional definition of a substring. */
  lemma IncludesIff(text: string, pat: string)
    ensures Includes(text, pat) <==> exists i: nat :: OccursAt(text, pat, i)
  {
    if Includes(text, pat) {
      var i := IncludesHasOccurrence(text, pat);
    }
    forall i: nat | OccursAt(text, pat, i) ensures Includes(text, pat) {
      OccurrenceIncludes(text, pat, i);
    }
  }

  /** A string that misses the first character of `pat` cannot include it. */
  lemma {:induction false} IncludesNeedsHead(text: string, pat: string)
    requires pat != [] && pat[0] !in text
    ensures !Includes(text, pat)
  {
    if text != [] {
      assert pat[0] !in text[1..] by {
        assert forall c :: c in text[1..] ==> c in text;
      }
      IncludesNeedsHead(text[1..], pat);
    }
  }
}
