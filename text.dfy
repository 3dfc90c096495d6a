/** The string operations the contact book relies on: `trim`, `toLowerCase`,
    `includes` and the `localeCompare` ordering. */
module Text {

  /** The code points `String.prototype.trim` removes: ECMAScript WhiteSpace
      (tab, vertical tab, form feed, space, no-break space, byte order mark and
      the Unicode space separators U+1680, U+2000 to U+200A, U+202F, U+205F and
      U+3000) and LineTerminator (line feed, carriage return, U+2028, U+2029). */
  const TrimmedChars: set<char> := {
    '\t', '\n', '\U{000B}', '\U{000C}', '\r', ' ', '\U{00A0}', '\U{1680}',
    '\U{2000}', '\U{2001}', '\U{2002}', '\U{2003}', '\U{2004}', '\U{2005}',
    '\U{2006}', '\U{2007}', '\U{2008}', '\U{2009}', '\U{200A}',
    '\U{2028}', '\U{2029}', '\U{202F}', '\U{205F}', '\U{3000}', '\U{FEFF}'
  }

  predicate IsTrimmed(c: char)
  {
    c in TrimmedChars
  }

  /** The first position at or after `i` that does not hold white space. */
  function SkipLeading(s: string, i: nat): (k: nat)
    requires i <= |s|
    ensures i <= k <= |s|
    ensures forall m :: i <= m < k ==> IsTrimmed(s[m])
    ensures k < |s| ==> !IsTrimmed(s[k])
    decreases |s| - i
  {
    if i < |s| && IsTrimmed(s[i]) then SkipLeading(s, i + 1) else i
  }

  /** The end, going back from `j` but not past `lo`, of the text before the
      trailing white space. */
  function SkipTrailing(s: string, lo: nat, j: nat): (k: nat)
    requires lo <= j <= |s|
    ensures lo <= k <= j
    ensures forall m :: k <= m < j ==> IsTrimmed(s[m])
    ensures k > lo ==> !IsTrimmed(s[k - 1])
  {
    if j > lo && IsTrimmed(s[j - 1]) then SkipTrailing(s, lo, j - 1) else j
  }

  /** `s.trim()`: the slice of `s` left once the white space at both ends is cut off. */
  function Trim(s: string): (r: string)
    ensures exists i, j :: 0 <= i <= j <= |s| && r == s[i..j]
                           && (forall k :: 0 <= k < i ==> IsTrimmed(s[k]))
                           && (forall k :: j <= k < |s| ==> IsTrimmed(s[k]))
    ensures r == [] || (!IsTrimmed(r[0]) && !IsTrimmed(r[|r| - 1]))
  {
    var i := SkipLeading(s, 0);
    var j := SkipTrailing(s, i, |s|);
    assert s[i..j] == [] || (s[i..j][0] == s[i] && s[i..j][j - i - 1] == s[j - 1]);
    s[i..j]
  }

  /** The trimmed string is empty exactly when the input is all white space,
      which is when `s.trim()` is falsy. */
  lemma TrimEmptyIff(s: string)
    ensures Trim(s) == [] <==> forall k :: 0 <= k < |s| ==> IsTrimmed(s[k])
  {
    if Trim(s) == [] {
      var i, j :| 0 <= i <= j <= |s| && Trim(s) == s[i..j]
                  && (forall k :: 0 <= k < i ==> IsTrimmed(s[k]))
                  && (forall k :: j <= k < |s| ==> IsTrimmed(s[k]));
      assert i == j;
    }
  }

  function LowerChar(c: char): char
  {
    if 'A' <= c <= 'Z' then (c as int + 32) as char else c
  }

  /** `s.toLowerCase()` on the ASCII letters. */
  function Lower(s: string): (r: string)
    ensures |r| == |s|
    ensures forall i :: 0 <= i < |r| ==> !('A' <= r[i] <= 'Z')
    ensures forall i :: 0 <= i < |s| && !('A' <= s[i] <= 'Z') ==> r[i] == s[i]
    ensures forall i :: 0 <= i < |s| && 'A' <= s[i] <= 'Z' ==> r[i] == (s[i] as int + 32) as char && 'a' <= r[i] <= 'z'
  {
    seq(|s|, i requires 0 <= i < |s| => LowerChar(s[i]))
  }

  /** Lower-casing a string without upper-case ASCII letters changes nothing. */
  lemma LowerWithoutUpper(s: string)
    requires forall i :: 0 <= i < |s| ==> !('A' <= s[i] <= 'Z')
    ensures Lower(s) == s
  {
  }

  /** A lower-case letter occurs in `Lower(s)` only if it or its upper-case
      form occurs in `s`. */
  lemma LowerLetterAbsent(s: string, c: char)
    requires 'a' <= c <= 'z' && c !in s && (c as int - 32) as char !in s
    ensures c !in Lower(s)
  {
    forall i | 0 <= i < |s| ensures Lower(s)[i] != c {
      assert s[i] != c && s[i] != (c as int - 32) as char;
    }
  }

  predicate IsAsciiLetter(c: char)
  {
    'A' <= c <= 'Z' || 'a' <= c <= 'z'
  }

  /** Two strings that lower-case alike are equal when one has no ASCII letter:
      case folding only merges the two cases of a letter. */
  lemma SameFoldWithoutLetters(a: string, b: string)
    requires Lower(a) == Lower(b)
    requires forall i :: 0 <= i < |a| ==> !IsAsciiLetter(a[i])
    ensures a == b
  {
    assert |a| == |Lower(a)| == |b|;
    forall i | 0 <= i < |a| ensures a[i] == b[i] {
      assert Lower(b)[i] == Lower(a)[i] == a[i];
      assert !('A' <= b[i] <= 'Z');
    }
  }

  /** `needle` occurs in `hay` starting at position `i`. */
  ghost predicate OccursAt(hay: string, needle: string, i: int)
  {
    0 <= i <= |hay| - |needle| && hay[i..i + |needle|] == needle
  }

  /** `hay.includes(needle)`: `needle` occurs as a contiguous slice of `hay`
      (the empty string occurs in every string). */
  function Contains(hay: string, needle: string): (r: bool)
    ensures r <==> exists i :: OccursAt(hay, needle, i)
    decreases |hay|
  {
    if needle <= hay then
      assert OccursAt(hay, needle, 0);
      true
    else if hay == [] then
      false
    else
      var r := Contains(hay[1..], needle);
      assert r ==> exists i :: OccursAt(hay, needle, i) by {
        if r {
          var j :| OccursAt(hay[1..], needle, j);
          OccursInTail(hay, needle, j);
        }
      }
      assert (exists i :: OccursAt(hay, needle, i)) ==> r by {
        if exists i :: OccursAt(hay, needle, i) {
          var i :| OccursAt(hay, needle, i);
          OccursPastHead(hay, needle, i);
        }
      }
      r
  }

  /** An occurrence in the tail of `hay` is one in `hay`, one place further on. */
  lemma OccursInTail(hay: string, needle: string, j: int)
    requires hay != [] && OccursAt(hay[1..], needle, j)
    ensures OccursAt(hay, needle, j + 1)
  {
    assert hay[j + 1..j + 1 + |needle|] == hay[1..][j..j + |needle|];
  }

  /** An occurrence in `hay` that is not at its start is one in its tail. */
  lemma OccursPastHead(hay: string, needle: string, i: int)
    requires hay != [] && !(needle <= hay) && OccursAt(hay, needle, i)
    ensures OccursAt(hay[1..], needle, i - 1)
  {
    assert i != 0;
    assert hay[1..][i - 1..i - 1 + |needle|] == hay[i..i + |needle|];
  }

  /** A non-empty needle whose first character never appears in `hay` is not found. */
  lemma FirstCharAbsent(hay: string, needle: string)
    requires needle != [] && needle[0] !in hay
    ensures !Contains(hay, needle)
  {
    forall i | 0 <= i <= |hay| - |needle| ensures !OccursAt(hay, needle, i) {
      assert hay[i..i + |needle|][0] == hay[i];
    }
  }

  /** What `localeCompare` is assumed to be: a comparison whose sign is
      antisymmetric and whose "not after" relation is transitive, so that it
      orders strings as a total preorder. */
  ghost predicate IsCollation(collate: (string, string) -> int)
  {
    && (forall a, b :: collate(a, b) < 0 <==> collate(b, a) > 0)
    && (forall a, b, c :: collate(a, b) <= 0 && collate(b, c) <= 0 ==> collate(a, c) <= 0)
  }

  /** Comparison by code point: one ordering that satisfies `IsCollation`, so
      the assumption made of `localeCompare` is satisfiable. */
  function OrdinalCompare(a: string, b: string): int
  {
    if a == [] && b == [] then 0
    else if a == [] then -1
    else if b == [] then 1
    else if a[0] < b[0] then -1
    else if a[0] > b[0] then 1
    else OrdinalCompare(a[1..], b[1..])
  }

  lemma {:induction false} OrdinalAntisymmetric(a: string, b: string)
    ensures OrdinalCompare(a, b) < 0 <==> OrdinalCompare(b, a) > 0
  {
    if a != [] && b != [] && a[0] == b[0] {
      OrdinalAntisymmetric(a[1..], b[1..]);
    }
  }

  lemma {:induction false} OrdinalTransitive(a: string, b: string, c: string)
    requires OrdinalCompare(a, b) <= 0 && OrdinalCompare(b, c) <= 0
    ensures OrdinalCompare(a, c) <= 0
  {
    if a != [] && b != [] && c != [] && a[0] == b[0] == c[0] {
      OrdinalTransitive(a[1..], b[1..], c[1..]);
    }
  }

  /** Code-point order is a collation, so every result proved for an arbitrary
      collation holds of it. */
  lemma OrdinalIsCollation()
    ensures IsCollation(OrdinalCompare)
  {
    forall a, b ensures OrdinalCompare(a, b) < 0 <==> OrdinalCompare(b, a) > 0 {
      OrdinalAntisymmetric(a, b);
    }
    forall a, b, c | OrdinalCompare(a, b) <= 0 && OrdinalCompare(b, c) <= 0
      ensures OrdinalCompare(a, c) <= 0
    {
      OrdinalTransitive(a, b, c);
    }
  }
}
