/** The string operations the tool relies on: `str.lower()`, `str.title()`, slicing
    `s[0:n]` and Python's ordering of strings. Case mapping covers ASCII letters. */
module Text {

  import opened Base

  predicate IsUpper(c: char) {
    'A' <= c <= 'Z'
  }

  predicate IsLower(c: char) {
    'a' <= c <= 'z'
  }

  /** A character that has an upper- and a lower-case form. */
  predicate IsCased(c: char) {
    IsUpper(c) || IsLower(c)
  }

  function ToLower(c: char): (r: char)
    ensures !IsUpper(r)
    ensures IsCased(c) <==> IsLower(r)
    ensures !IsCased(c) ==> r == c
  {
    if IsUpper(c) then (c as int + 32) as char else c
  }

  function ToUpper(c: char): (r: char)
    ensures !IsLower(r)
    ensures IsCased(c) <==> IsUpper(r)
    ensures !IsCased(c) ==> r == c
  {
    if IsLower(c) then (c as int - 32) as char else c
  }

  /** `s.lower()`: every letter is put in lower case, everything else is kept. */
  function Lower(s: string): (r: string)
    ensures |r| == |s|
    decreases |s|
  {
    if |s| == 0 then [] else [ToLower(s[0])] + Lower(s[1..])
  }

  /** Each character of `s.lower()` is the lower-cased character of `s` at the same place. */
  lemma {:induction false} LowerAt(s: string)
    ensures forall i :: 0 <= i < |s| ==> Lower(s)[i] == ToLower(s[i])
    decreases |s|
  {
    if |s| > 0 {
      LowerAt(s[1..]);
      assert forall i :: 1 <= i < |s| ==> s[1..][i - 1] == s[i];
    }
  }

  /** Lower-casing a second time changes nothing. */
  lemma LowerIdempotent(s: string)
    ensures Lower(Lower(s)) == Lower(s)
  {
    LowerAt(s);
    LowerAt(Lower(s));
  }

  /** `s[0:n]`: the first `n` characters, or all of `s` when it is shorter. */
  function Truncate(s: string, n: nat): (r: string)
    ensures |r| == Min(|s|, n)
    ensures r <= s
  {
    if |s| <= n then s else s[..n]
  }

  /** `str.title()` on the rest of a string, `afterCased` telling whether the
      preceding character was cased: a cased character directly after another
      one is put in lower case, any other cased character in upper case. */
  function TitleFrom(s: string, afterCased: bool): (r: string)
    ensures |r| == |s|
    decreases |s|
  {
    if |s| == 0 then []
    else
      var c := s[0];
      var d := if !IsCased(c) then c else if afterCased then ToLower(c) else ToUpper(c);
      [d] + TitleFrom(s[1..], IsCased(c))
  }

  /** `s.title()`. */
  function Title(s: string): (r: string)
    ensures |r| == |s|
  {
    TitleFrom(s, false)
  }

  /** A non-empty run of lower-case letters, such as `"monday"`. */
  predicate Word(s: string) {
    |s| > 0 && forall i :: 0 <= i < |s| ==> IsLower(s[i])
  }

  /** An upper-case letter followed by lower-case letters, such as `"Monday"`. */
  predicate Capitalized(s: string) {
    |s| > 0 && IsUpper(s[0]) && forall i :: 1 <= i < |s| ==> IsLower(s[i])
  }

  lemma {:induction false} TitleKeepsLowerTail(s: string)
    requires forall i :: 0 <= i < |s| ==> IsLower(s[i])
    ensures TitleFrom(s, true) == s
    decreases |s|
  {
    if |s| > 0 {
      TitleKeepsLowerTail(s[1..]);
    }
  }

  /** Title-casing a lower-case word capitalises it, and lower-casing undoes that. */
  lemma TitleOfWord(s: string)
    requires Word(s)
    ensures Capitalized(Title(s))
    ensures Lower(Title(s)) == s
  {
    TitleKeepsLowerTail(s[1..]);
    assert Title(s) == [ToUpper(s[0])] + s[1..];
    LowerAt(Title(s));
    assert forall i :: 1 <= i < |s| ==> Title(s)[i] == s[i];
  }

  /** Lower-casing a capitalised word changes only its first letter. */
  lemma LowerCapitalized(s: string)
    requires Capitalized(s)
    ensures Lower(s) == [ToLower(s[0])] + s[1..]
  {
    LowerAt(s);
    assert forall i :: 1 <= i < |s| ==> ToLower(s[i]) == s[i];
  }

  /** Lower-casing a capitalised word and title-casing it again gives the word back. */
  lemma LowerOfCapitalized(s: string)
    requires Capitalized(s)
    ensures Word(Lower(s))
    ensures Title(Lower(s)) == s
  {
    var l := Lower(s);
    LowerAt(s);
    TitleKeepsLowerTail(l[1..]);
    assert Title(l) == [ToUpper(l[0])] + l[1..];
  }

  /** For a lower-case word `d` and a capitalised word `c`, title-casing `d`
      matches `c` exactly when lower-casing `c` matches `d`. */
  lemma TitleMatchesIffLowerMatches(d: string, c: string)
    requires Word(d) && Capitalized(c)
    ensures Title(d) == c <==> Lower(c) == d
  {
    TitleOfWord(d);
    LowerOfCapitalized(c);
  }

  /** Python's `a < b` on strings: lexicographic by code point, a proper
      prefix coming first. */
  predicate Precedes(a: string, b: string)
    decreases |a|
  {
    |b| > 0 && (|a| == 0 || a[0] < b[0] || (a[0] == b[0] && Precedes(a[1..], b[1..])))
  }

  lemma {:induction false} PrecedesIrreflexive(a: string)
    ensures !Precedes(a, a)
    decreases |a|
  {
    if |a| > 0 {
      PrecedesIrreflexive(a[1..]);
    }
  }

  lemma {:induction false} PrecedesTransitive(a: string, b: string, c: string)
    requires Precedes(a, b) && Precedes(b, c)
    ensures Precedes(a, c)
    decreases |a|
  {
    if |a| > 0 && a[0] == b[0] && b[0] == c[0] {
      PrecedesTransitive(a[1..], b[1..], c[1..]);
    }
  }

  lemma {:induction false} PrecedesTotal(a: string, b: string)
    requires a != b
    ensures Precedes(a, b) || Precedes(b, a)
    decreases |a|
  {
    if |a| > 0 && |b| > 0 && a[0] == b[0] {
      assert a == [a[0]] + a[1..] && b == [b[0]] + b[1..];
      PrecedesTotal(a[1..], b[1..]);
    }
  }
}
