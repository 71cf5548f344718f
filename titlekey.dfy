/** The comparison key of sorter.h (`sanitize_title`) and the comparator built on it
    (`alphabetic_priority_c`, `alphabetic_priority_s`). Both authors and titles are compared
    through this key. */
module TitleKey {
  import opened Text

  /** The leading words `sanitize_title` strips, in the order its OFFSET lines test them. */
  const Determiners: seq<string> := ["The ", "An ", "On ", "A "]

  /** How many leading characters `sanitize_title` skips (sorter.h:485-493). Each OFFSET line
      overwrites the offset when its literal is a case-sensitive prefix of the title; the four
      literals exclude one another, so at most one of them can match. */
  function DeterminerLength(title: string): (n: nat)
    ensures n <= |title|
    ensures n == 0 <==> forall d | d in Determiners :: !IsPrefix(d, title)
    ensures n > 0 ==> title[..n] in Determiners
    ensures forall d | d in Determiners && IsPrefix(d, title) :: n == |d|
  {
    DeterminersExclusive(title);
    var afterThe := if IsPrefix("The ", title) then 4 else 0;
    var afterAn := if IsPrefix("An ", title) then 3 else afterThe;
    var afterOn := if IsPrefix("On ", title) then 3 else afterAn;
    if IsPrefix("A ", title) then 2 else afterOn
  }

  /** No title starts with two of the literals: they differ in the first or second character. */
  lemma DeterminersExclusive(title: string)
    ensures forall d, e | d in Determiners && e in Determiners && IsPrefix(d, title) && IsPrefix(e, title) :: d == e
  {
    forall d, e | d in Determiners && e in Determiners && IsPrefix(d, title) && IsPrefix(e, title)
      ensures d == e
    {
      assert title[..|d|] == d && title[..|e|] == e;
      assert title[0] == d[0] == e[0];
      assert title[1] == d[1] == e[1];
    }
  }

  /** A title whose first character is not `T`, `A` or `O` starts with no determiner. */
  lemma NoDeterminer(title: string)
    requires |title| > 0 && title[0] != 'T' && title[0] != 'A' && title[0] != 'O'
    ensures DeterminerLength(title) == 0
  {
    forall d | d in Determiners
      ensures !IsPrefix(d, title)
    {
      NotPrefixAt(d, title, 0);
    }
  }

  /** A key character is a lower-case ASCII letter. */
  predicate IsKeyChar(c: char) {
    'a' <= c <= 'z'
  }

  /** What one title character contributes to the key (sorter.h:498-507): spaces are skipped,
      `A`..`Z` are lowered, and only `a`..`z` are kept. */
  function KeyPiece(c: char): string {
    if c != ' ' && IsKeyChar(LowerChar(c)) then [LowerChar(c)] else []
  }

  /** The character loop of `sanitize_title` (sorter.h:497-508) over the rest of the title. */
  function KeyChars(s: string): (r: string)
    ensures |r| <= |s|
    ensures forall i :: 0 <= i < |r| ==> IsKeyChar(r[i])
  {
    if s == [] then [] else KeyPiece(s[0]) + KeyChars(s[1..])
  }

  /** `sanitize_title` (sorter.h:480-511). The 256-byte static buffer is not modelled. */
  function SanitizeTitle(title: string): (key: string)
    ensures |key| <= |title|
    ensures forall i :: 0 <= i < |key| ==> IsKeyChar(key[i])
  {
    KeyChars(title[DeterminerLength(title)..])
  }

  lemma {:induction false} KeyCharsAppend(a: string, b: string)
    ensures KeyChars(a + b) == KeyChars(a) + KeyChars(b)
  {
    if a == [] {
      assert a + b == b;
    } else {
      assert (a + b)[0] == a[0];
      assert (a + b)[1..] == a[1..] + b;
      KeyCharsAppend(a[1..], b);
    }
  }

  /** A string that is already a key is its own key. */
  lemma {:induction false} KeyCharsOfKey(s: string)
    requires forall i :: 0 <= i < |s| ==> IsKeyChar(s[i])
    ensures KeyChars(s) == s
  {
    if s != [] {
      KeyCharsOfKey(s[1..]);
    }
  }

  /** Applying `sanitize_title` to a key changes nothing: a key starts with a lower-case letter,
      so no determiner matches, and every character is kept. */
  lemma SanitizeTitleIdempotent(title: string)
    ensures SanitizeTitle(SanitizeTitle(title)) == SanitizeTitle(title)
  {
    var key := SanitizeTitle(title);
    if key != [] {
      forall d | d in Determiners
        ensures !IsPrefix(d, key)
      {
        NotPrefixAt(d, key, 0);
      }
    }
    KeyCharsOfKey(key);
  }

  /** Exactly one leading determiner is stripped: the rest of the title is keyed as it is, so a
      second determiner ("The The ...") stays in the key. */
  lemma DeterminerStripped(d: string, rest: string)
    requires d in Determiners
    ensures SanitizeTitle(d + rest) == KeyChars(rest)
  {
    assert (d + rest)[..|d|] == d;
    assert (d + rest)[|d|..] == rest;
  }

  /** A title and the same title after a determiner have the same key. */
  lemma SameKeyAfterDeterminer(d: string, title: string)
    requires d in Determiners
    requires DeterminerLength(title) == 0
    ensures SanitizeTitle(d + title) == SanitizeTitle(title)
  {
    DeterminerStripped(d, title);
  }

  lemma {:induction false} KeyCharsIgnoresCase(s: string)
    ensures KeyChars(ToLower(s)) == KeyChars(s)
  {
    if s != [] {
      assert ToLower(s)[1..] == ToLower(s[1..]);
      KeyCharsIgnoresCase(s[1..]);
    }
  }

  /** Titles that differ only in letter case (and start with no determiner) have one key. */
  lemma SameKeyIgnoringCase(a: string, b: string)
    requires DeterminerLength(a) == 0 && DeterminerLength(b) == 0
    requires ToLower(a) == ToLower(b)
    ensures SanitizeTitle(a) == SanitizeTitle(b)
  {
    KeyCharsIgnoresCase(a);
    KeyCharsIgnoresCase(b);
  }

  lemma StrangerHasNoDeterminer()
    ensures DeterminerLength("Stranger") == 0
  {
    NoDeterminer("Stranger");
  }

  /** "The Stranger" and "Stranger" share a key. */
  lemma TheStrangerExample()
    ensures SanitizeTitle("The Stranger") == SanitizeTitle("Stranger")
  {
    StrangerHasNoDeterminer();
    assert "The Stranger" == "The " + "Stranger";
    SameKeyAfterDeterminer("The ", "Stranger");
  }

  lemma BeingAndTimeHasNoDeterminer()
    ensures DeterminerLength("Being And Time") == 0
    ensures DeterminerLength("Being and Time") == 0
  {
    NoDeterminer("Being And Time");
    NoDeterminer("Being and Time");
  }

  lemma BeingAndTimeLowered()
    ensures ToLower("Being And Time") == ToLower("Being and Time")
  {
  }

  /** "Being And Time" and "Being and Time" share a key (sorter.h:479). */
  lemma BeingAndTimeExample()
    ensures SanitizeTitle("Being And Time") == SanitizeTitle("Being and Time")
  {
    BeingAndTimeHasNoDeterminer();
    BeingAndTimeLowered();
    SameKeyIgnoringCase("Being And Time", "Being and Time");
  }

  lemma TheKey()
    ensures KeyChars("The ") == "the"
  {
    assert KeyChars(" ") == [];
    assert KeyChars("e ") == "e";
    assert KeyChars("he ") == "he";
  }

  lemma TheStrangerChars()
    ensures KeyChars("The Stranger") == "the" + KeyChars("Stranger")
  {
    assert "The Stranger" == "The " + "Stranger";
    KeyCharsAppend("The ", "Stranger");
    TheKey();
  }

  /** Only one determiner is stripped: the second "The " of "The The Stranger" stays. */
  lemma DoubleDeterminerExample()
    ensures SanitizeTitle("The The Stranger") == "the" + SanitizeTitle("Stranger")
  {
    StrangerHasNoDeterminer();
    assert "The The Stranger" == "The " + "The Stranger";
    DeterminerStripped("The ", "The Stranger");
    TheStrangerChars();
  }

  /** `alphabetic_priority_c` (sorter.h:471-475). */
  function ComparePriorityChar(a: char, b: char): int {
    if a < b then -1 else if a > b then 1 else 0
  }

  /** The loop of `alphabetic_priority_s` (sorter.h:458-468) from position `i`: the first
      differing character decides, and running out of either key means "equal". */
  function CompareFrom(a: string, b: string, i: nat): (r: int)
    requires i <= |a| && i <= |b|
    ensures r == -1 || r == 0 || r == 1
    decreases |a| - i
  {
    if i == |a| || i == |b| then 0
    else if ComparePriorityChar(a[i], b[i]) != 0 then ComparePriorityChar(a[i], b[i])
    else CompareFrom(a, b, i + 1)
  }

  /** `alphabetic_priority_s` on two keys: compares only the first `min(|a|, |b|)` characters. */
  function CompareKeys(a: string, b: string): (r: int)
    ensures r == -1 || r == 0 || r == 1
  {
    CompareFrom(a, b, 0)
  }

  /** `alphabetic_priority_s` (sorter.h:450-469): both arguments go through `sanitize_title`. */
  function AlphabeticPriority(a: string, b: string): (r: int)
    ensures r == -1 || r == 0 || r == 1
  {
    CompareKeys(SanitizeTitle(a), SanitizeTitle(b))
  }

  lemma {:induction false} CompareFromZeroIffPrefix(a: string, b: string, i: nat)
    requires i <= |a| && i <= |b|
    requires a[..i] == b[..i]
    ensures CompareFrom(a, b, i) == 0 <==> IsPrefix(a, b) || IsPrefix(b, a)
    decreases |a| - i
  {
    if i == |a| {
      assert b[..|a|] == a[..i];
    } else if i == |b| {
      assert a[..|b|] == b[..i];
    } else if a[i] != b[i] {
      NotPrefixAt(a, b, i);
    } else {
      assert a[..i + 1] == a[..i] + [a[i]];
      assert b[..i + 1] == b[..i] + [b[i]];
      CompareFromZeroIffPrefix(a, b, i + 1);
    }
  }

  /** The comparator calls two keys equal exactly when one is a prefix of the other. */
  lemma CompareKeysZeroIffPrefix(a: string, b: string)
    ensures CompareKeys(a, b) == 0 <==> IsPrefix(a, b) || IsPrefix(b, a)
  {
    CompareFromZeroIffPrefix(a, b, 0);
  }

  lemma {:induction false} CompareFromAntisymmetric(a: string, b: string, i: nat)
    requires i <= |a| && i <= |b|
    ensures CompareFrom(a, b, i) == -CompareFrom(b, a, i)
    decreases |a| - i
  {
    if i < |a| && i < |b| && a[i] == b[i] {
      CompareFromAntisymmetric(a, b, i + 1);
    }
  }

  lemma CompareKeysAntisymmetric(a: string, b: string)
    ensures CompareKeys(a, b) == -CompareKeys(b, a)
  {
    CompareFromAntisymmetric(a, b, 0);
  }

  lemma {:induction false} CompareFromFirstDifference(a: string, b: string, i: nat, j: nat)
    requires i <= j < |a| && j < |b|
    requires a[i..j] == b[i..j] && a[j] != b[j]
    ensures CompareFrom(a, b, i) == if a[j] < b[j] then -1 else 1
    decreases j - i
  {
    if i < j {
      assert a[i] == a[i..j][0] && b[i] == b[i..j][0];
      assert a[i + 1..j] == a[i..j][1..] && b[i + 1..j] == b[i..j][1..];
      CompareFromFirstDifference(a, b, i + 1, j);
    }
  }

  /** Otherwise the first position where the keys differ decides the order. */
  lemma CompareKeysFirstDifference(a: string, b: string, j: nat)
    requires j < |a| && j < |b|
    requires a[..j] == b[..j] && a[j] != b[j]
    ensures CompareKeys(a, b) == if a[j] < b[j] then -1 else 1
  {
    assert a[0..j] == a[..j] && b[0..j] == b[..j];
    CompareFromFirstDifference(a, b, 0, j);
  }

  /** `alphabetic_priority_s` is antisymmetric and reflexive. */
  lemma AlphabeticPriorityAntisymmetric(a: string, b: string)
    ensures AlphabeticPriority(a, b) == -AlphabeticPriority(b, a)
    ensures AlphabeticPriority(a, a) == 0
  {
    CompareKeysAntisymmetric(SanitizeTitle(a), SanitizeTitle(b));
    CompareKeysZeroIffPrefix(SanitizeTitle(a), SanitizeTitle(a));
  }

  /** A title whose key extends another's compares equal to it ("Being" and "Beingness"). */
  lemma AlphabeticPriorityPrefixEqual(a: string, b: string)
    requires IsPrefix(SanitizeTitle(a), SanitizeTitle(b))
    ensures AlphabeticPriority(a, b) == 0 && AlphabeticPriority(b, a) == 0
  {
    CompareKeysZeroIffPrefix(SanitizeTitle(a), SanitizeTitle(b));
    CompareKeysZeroIffPrefix(SanitizeTitle(b), SanitizeTitle(a));
  }

  lemma BeingAndBeingness()
    ensures AlphabeticPriority("Being", "Beingness") == 0
  {
    NoDeterminer("Being");
    NoDeterminer("Beingness");
    assert "Beingness" == "Being" + "ness";
    KeyCharsAppend("Being", "ness");
    AlphabeticPriorityPrefixEqual("Being", "Beingness");
  }

  lemma ShortKeys()
    ensures SanitizeTitle("a") == "a" && SanitizeTitle("ab") == "ab" && SanitizeTitle("ac") == "ac"
  {
    NoDeterminer("a");
    NoDeterminer("ab");
    NoDeterminer("ac");
  }

  /** "Equal" is not transitive: "ab" ~ "a" and "a" ~ "ac", yet "ab" < "ac". So the
      comparator is not a total preorder and sorted output is only adjacent-sorted. */
  lemma ComparatorNotTransitive()
    ensures AlphabeticPriority("ab", "a") == 0
    ensures AlphabeticPriority("a", "ac") == 0
    ensures AlphabeticPriority("ab", "ac") == -1
  {
    ShortKeys();
    AlphabeticPriorityPrefixEqual("a", "ab");
    AlphabeticPriorityPrefixEqual("a", "ac");
    CompareKeysFirstDifference("ab", "ac", 1);
  }
}
