/**
 * The string operations the extraction and the search use: Python's
 * `str.lower()`, `str.title()`, `str.strip()` and a case-insensitive
 * substring test. The case mappings and the whitespace class are those of
 * Python restricted to ASCII: every other character is uncased, maps to
 * itself and is not whitespace.
 */
module Text {

  /** `c.isspace()` for code points below 128: space, \t \n \v \f \r and \x1c-\x1f. */
  predicate IsSpace(c: char)
  {
    c == ' ' || ('\t' <= c <= '\r') || ('\U{1C}' <= c <= '\U{1F}')
  }

  /** A cased character in Python's sense, restricted to ASCII letters. */
  predicate IsCased(c: char)
  {
    'a' <= c <= 'z' || 'A' <= c <= 'Z'
  }

  function LowerChar(c: char): char
  {
    if 'A' <= c <= 'Z' then (c as int + 32) as char else c
  }

  function UpperChar(c: char): char
  {
    if 'a' <= c <= 'z' then (c as int - 32) as char else c
  }

  /** `s.lower()`. */
  function Lower(s: string): string
  {
    seq(|s|, i requires 0 <= i < |s| => LowerChar(s[i]))
  }

  /**
   * `s.title()`: a character that follows a cased character is lower-cased,
   * every other character is upper-cased (title-cased).
   */
  function Title(s: string): string
  {
    seq(|s|, i requires 0 <= i < |s| => if i > 0 && IsCased(s[i - 1]) then LowerChar(s[i]) else UpperChar(s[i]))
  }

  /** `s.lstrip()`. */
  function TrimLeft(s: string): string
  {
    if s != [] && IsSpace(s[0]) then TrimLeft(s[1..]) else s
  }

  /** `s.rstrip()`. */
  function TrimRight(s: string): string
  {
    if s != [] && IsSpace(s[|s| - 1]) then TrimRight(s[..|s| - 1]) else s
  }

  /** `s.strip()`. */
  function Strip(s: string): string
  {
    TrimRight(TrimLeft(s))
  }

  /** No whitespace at either end: the strings `Strip` returns. */
  predicate Trimmed(s: string)
  {
    s == [] || (!IsSpace(s[0]) && !IsSpace(s[|s| - 1]))
  }

  /** `needle in hay`: the needle occurs in the hay at some position. */
  predicate IsSubstring(needle: string, hay: string)
  {
    needle <= hay || (hay != [] && IsSubstring(needle, hay[1..]))
  }

  /** Case-insensitive containment, as a search with `case=False` performs it. */
  predicate ContainsCaseless(hay: string, needle: string)
  {
    IsSubstring(Lower(needle), Lower(hay))
  }

  // ---------------------------------------------------------------------
  // Case mapping

  lemma CaseMapsAgree(c: char)
    ensures LowerChar(UpperChar(c)) == LowerChar(c) && LowerChar(LowerChar(c)) == LowerChar(c)
    ensures UpperChar(LowerChar(c)) == UpperChar(c) && UpperChar(UpperChar(c)) == UpperChar(c)
    ensures IsCased(LowerChar(c)) == IsCased(c) && IsCased(UpperChar(c)) == IsCased(c)
    ensures IsSpace(LowerChar(c)) == IsSpace(c) && IsSpace(UpperChar(c)) == IsSpace(c)
  {
  }

  /** Title-casing only changes the case of letters: lower-casing undoes the difference. */
  lemma LowerOfTitle(s: string)
    ensures |Title(s)| == |s|
    ensures Lower(Title(s)) == Lower(s)
  {
    forall i | 0 <= i < |s| ensures Lower(Title(s))[i] == Lower(s)[i] {
      CaseMapsAgree(s[i]);
    }
  }

  /** Two strings equal up to case have the same title form. */
  lemma TitleIgnoresCase(a: string, b: string)
    requires Lower(a) == Lower(b)
    ensures Title(a) == Title(b)
  {
    assert |a| == |Lower(a)| == |Lower(b)| == |b|;
    forall i | 0 <= i < |a| ensures Title(a)[i] == Title(b)[i] {
      assert Lower(a)[i] == Lower(b)[i];
      CaseMapsAgree(a[i]);
      CaseMapsAgree(b[i]);
      if i > 0 {
        assert Lower(a)[i - 1] == Lower(b)[i - 1];
        CaseMapsAgree(a[i - 1]);
        CaseMapsAgree(b[i - 1]);
      }
    }
  }

  /** `s.title().title() == s.title()`. */
  lemma TitleIdempotent(s: string)
    ensures Title(Title(s)) == Title(s)
  {
    var t := Title(s);
    forall i | 0 <= i < |s| ensures Title(t)[i] == t[i] {
      CaseMapsAgree(s[i]);
      if i > 0 {
        CaseMapsAgree(s[i - 1]);
      }
    }
  }

  /** Title-casing puts whitespace exactly where it was. */
  lemma TitleKeepsSpaces(s: string)
    ensures |Title(s)| == |s|
    ensures forall i :: 0 <= i < |s| ==> IsSpace(Title(s)[i]) == IsSpace(s[i])
  {
    forall i | 0 <= i < |s| ensures IsSpace(Title(s)[i]) == IsSpace(s[i]) {
      CaseMapsAgree(s[i]);
    }
  }

  // ---------------------------------------------------------------------
  // Stripping

  /** Every character is whitespace. */
  predicate AllSpace(s: string)
  {
    forall k :: 0 <= k < |s| ==> IsSpace(s[k])
  }

  /** The number of whitespace characters `lstrip` removes. */
  function LeadingSpace(s: string): (n: nat)
    ensures n <= |s|
  {
    if s != [] && IsSpace(s[0]) then 1 + LeadingSpace(s[1..]) else 0
  }

  /** Where the whitespace that `rstrip` removes begins. */
  function TrailingSpaceStart(s: string): (n: nat)
    ensures n <= |s|
  {
    if s != [] && IsSpace(s[|s| - 1]) then TrailingSpaceStart(s[..|s| - 1]) else |s|
  }

  lemma {:induction false} TrimLeftShape(s: string)
    ensures TrimLeft(s) == s[LeadingSpace(s)..]
    ensures AllSpace(s[..LeadingSpace(s)])
    ensures TrimLeft(s) == [] || !IsSpace(TrimLeft(s)[0])
  {
    if s != [] && IsSpace(s[0]) {
      var t := s[1..];
      TrimLeftShape(t);
      var i := LeadingSpace(t);
      assert t[i..] == s[i + 1..];
      forall k | 0 <= k < i + 1 ensures IsSpace(s[k]) {
        if k > 0 {
          assert s[k] == t[..i][k - 1];
        }
      }
    } else {
      assert s[0..] == s;
    }
  }

  lemma {:induction false} TrimRightShape(s: string)
    ensures TrimRight(s) == s[..TrailingSpaceStart(s)]
    ensures AllSpace(s[TrailingSpaceStart(s)..])
    ensures TrimRight(s) == [] || !IsSpace(TrimRight(s)[|TrimRight(s)| - 1])
  {
    if s != [] && IsSpace(s[|s| - 1]) {
      var p := s[..|s| - 1];
      TrimRightShape(p);
      var j := TrailingSpaceStart(p);
      assert p[..j] == s[..j];
      forall k | 0 <= k < |s| - j ensures IsSpace(s[j..][k]) {
        if k < |p| - j {
          assert s[j..][k] == p[j..][k];
        }
      }
    } else {
      assert s[..|s|] == s;
    }
  }

  /** A string without whitespace at its ends is left alone. */
  lemma StripTrimmed(s: string)
    requires Trimmed(s)
    ensures Strip(s) == s
  {
    assert TrimLeft(s) == s;
  }

  /**
   * `s.strip()` is the slice of `s` between leading and trailing whitespace,
   * and has no whitespace at either end itself.
   */
  lemma StripShape(s: string)
    ensures exists i, j :: 0 <= i <= j <= |s| && Strip(s) == s[i..j] && AllSpace(s[..i]) && AllSpace(s[j..])
    ensures Trimmed(Strip(s))
  {
    TrimLeftShape(s);
    var i := LeadingSpace(s);
    var l := TrimLeft(s);
    TrimRightShape(l);
    var j := TrailingSpaceStart(l);
    assert l[..j] == s[i..i + j];
    assert l[j..] == s[i + j..];
    assert Trimmed(Strip(s)) by {
      if Strip(s) != [] {
        assert Strip(s)[0] == l[0];
      }
    }
  }

  /** `s.strip()` is empty exactly when `s` is all whitespace. */
  lemma StripEmptyIff(s: string)
    ensures Strip(s) == [] <==> AllSpace(s)
  {
    TrimLeftShape(s);
    var i := LeadingSpace(s);
    TrimRightShape(TrimLeft(s));
    var j := i + TrailingSpaceStart(TrimLeft(s));
    assert TrimLeft(s)[TrailingSpaceStart(TrimLeft(s))..] == s[j..];
    if Strip(s) == [] {
      assert TrimLeft(s) == [];
      assert s[..i] == s;
    }
  }

  // ---------------------------------------------------------------------
  // Substrings

  /** The needle sits in the hay starting at index `i`. */
  predicate OccursAt(needle: string, hay: string, i: int)
  {
    0 <= i && i + |needle| <= |hay| && hay[i..i + |needle|] == needle
  }

  lemma {:induction false} SubstringHasIndex(needle: string, hay: string)
    requires IsSubstring(needle, hay)
    ensures exists i :: OccursAt(needle, hay, i)
  {
    if needle <= hay {
      assert OccursAt(needle, hay, 0);
    } else {
      SubstringHasIndex(needle, hay[1..]);
      var i :| OccursAt(needle, hay[1..], i);
      assert hay[1..][i..i + |needle|] == hay[i + 1..i + 1 + |needle|];
      assert OccursAt(needle, hay, i + 1);
    }
  }

  lemma {:induction false} IndexGivesSubstring(needle: string, hay: string, i: int)
    requires OccursAt(needle, hay, i)
    ensures IsSubstring(needle, hay)
    decreases i
  {
    if i == 0 {
      assert needle <= hay;
    } else {
      assert hay[1..][i - 1..i - 1 + |needle|] == hay[i..i + |needle|];
      IndexGivesSubstring(needle, hay[1..], i - 1);
    }
  }

  /** `IsSubstring` holds exactly when the needle sits at some index of the hay. */
  lemma SubstringAt(needle: string, hay: string)
    ensures IsSubstring(needle, hay) <==> exists i :: OccursAt(needle, hay, i)
  {
    if IsSubstring(needle, hay) {
      SubstringHasIndex(needle, hay);
    }
    if exists i :: OccursAt(needle, hay, i) {
      var i :| OccursAt(needle, hay, i);
      IndexGivesSubstring(needle, hay, i);
    }
  }
}
