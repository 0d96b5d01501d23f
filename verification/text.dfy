/** String primitives the grocery-list core relies on: JavaScript's
    `String.prototype.trim`, `toLowerCase` (ASCII letters only) and
    `includes`, over strings seen as sequences of code points. */
module Text {

  /** The code points `trim` strips: the WhiteSpace and LineTerminator
      productions of ECMAScript (tab, vertical tab, form feed, space,
      no-break space, byte-order mark, the Unicode space separators,
      line feed, carriage return, line and paragraph separator). */
  predicate IsSpace(c: char) {
    || c == '\t' || c == '\n' || c == '\U{000B}' || c == '\U{000C}' || c == '\r'
    || c == ' ' || c == '\U{00A0}' || c == '\U{1680}'
    || ('\U{2000}' <= c <= '\U{200A}')
    || c == '\U{2028}' || c == '\U{2029}' || c == '\U{202F}' || c == '\U{205F}'
    || c == '\U{3000}' || c == '\U{FEFF}'
  }

  /** Every code point of s in [i, j) is a space. */
  predicate SpacesBetween(s: string, i: int, j: int)
    requires 0 <= i && j <= |s|
  {
    forall k :: i <= k < j ==> IsSpace(s[k])
  }

  predicate AllSpace(s: string) {
    SpacesBetween(s, 0, |s|)
  }

  /** Neither starts nor ends with a space. */
  predicate Bare(s: string) {
    s == [] || (!IsSpace(s[0]) && !IsSpace(s[|s| - 1]))
  }

  /** r is what is left of s after cutting off the spaces before offset i
      and after offset i + |r|. */
  predicate TrimmedAt(s: string, r: string, i: int) {
    && 0 <= i && i + |r| <= |s|
    && s[i..i + |r|] == r
    && SpacesBetween(s, 0, i) && SpacesBetween(s, i + |r|, |s|)
  }

  /** The offset of the first non-space code point of s at or after i. */
  function SkipSpaces(s: string, i: int): (j: int)
    requires 0 <= i <= |s|
    ensures i <= j <= |s| && SpacesBetween(s, i, j)
    ensures j == |s| || !IsSpace(s[j])
    decreases |s| - i
  {
    if i < |s| && IsSpace(s[i]) then SkipSpaces(s, i + 1) else i
  }

  /** The offset just past the last non-space code point of s in [lo, j),
      or lo when there is none. */
  function SkipSpacesBack(s: string, lo: int, j: int): (e: int)
    requires 0 <= lo <= j <= |s|
    ensures lo <= e <= j && SpacesBetween(s, e, j)
    ensures e == lo || !IsSpace(s[e - 1])
    decreases j
  {
    if lo < j && IsSpace(s[j - 1]) then SkipSpacesBack(s, lo, j - 1) else j
  }

  /** `s.trim()`: cuts the spaces off both ends. */
  function Trim(s: string): (r: string)
    ensures Bare(r)
    ensures TrimmedAt(s, r, SkipSpaces(s, 0))
  {
    var a := SkipSpaces(s, 0);
    var e := SkipSpacesBack(s, a, |s|);
    s[a..e]
  }

  /** A string trims to nothing exactly when it is all spaces. */
  lemma TrimEmptyIff(s: string)
    ensures Trim(s) == [] <==> AllSpace(s)
  {
    var a := SkipSpaces(s, 0);
    if Trim(s) == [] {
      assert SpacesBetween(s, 0, a) && SpacesBetween(s, a, |s|);
    } else {
      assert s[a] == Trim(s)[0];
    }
  }

  /** Trim is determined by the two conditions of its contract: any bare
      string obtained by cutting spaces off both ends of s is Trim(s). */
  lemma TrimUnique(s: string, r: string, i: int)
    requires Bare(r) && TrimmedAt(s, r, i)
    ensures r == Trim(s)
  {
    var t := Trim(s);
    var j := SkipSpaces(s, 0);
    if r == [] {
      assert SpacesBetween(s, 0, i) && SpacesBetween(s, i, |s|);
      TrimEmptyIff(s);
    } else if t == [] {
      TrimEmptyIff(s);
      assert false;
    } else {
      // both start at the first non-space code point of s
      assert s[i] == r[0] && s[j] == t[0];
      assert i == j;
      // both end just after the last non-space code point of s
      var e, f := i + |r|, j + |t|;
      assert s[e - 1] == r[|r| - 1] && s[f - 1] == t[|t| - 1];
      assert e == f;
    }
  }

  /** Trimming twice is trimming once. */
  lemma TrimIdempotent(s: string)
    ensures Trim(Trim(s)) == Trim(s)
  {
    var r := Trim(s);
    assert r[0..|r|] == r;
    assert TrimmedAt(r, r, 0);
    TrimUnique(r, r, 0);
  }

  function LowerChar(c: char): char {
    if 'A' <= c <= 'Z' then (c as int + 32) as char else c
  }

  /** `s.toLowerCase()` restricted to the ASCII letters. */
  function Lower(s: string): (r: string)
    ensures |r| == |s|
    ensures forall i :: 0 <= i < |s| ==> r[i] == LowerChar(s[i])
  {
    if s == [] then [] else [LowerChar(s[0])] + Lower(s[1..])
  }

  lemma LowerIdempotent(s: string)
    ensures Lower(Lower(s)) == Lower(s)
  {
  }

  /** needle occurs in hay starting at offset i. */
  predicate OccursAt(hay: string, needle: string, i: int) {
    0 <= i && i + |needle| <= |hay| && hay[i..i + |needle|] == needle
  }

  /** `hay.includes(needle)`: scans the offsets of hay from the left. */
  function Includes(hay: string, needle: string): (r: bool)
    ensures needle == [] ==> r
    ensures r ==> |needle| <= |hay|
    decreases |hay|
  {
    (|needle| <= |hay| && hay[..|needle|] == needle)
    || (hay != [] && Includes(hay[1..], needle))
  }

  /** Every offset the scan accepts is an occurrence: it returns the first one. */
  lemma {:induction false} IncludesSound(hay: string, needle: string) returns (i: int)
    requires Includes(hay, needle)
    ensures OccursAt(hay, needle, i)
    decreases |hay|
  {
    if |needle| <= |hay| && hay[..|needle|] == needle {
      i := 0;
    } else {
      var j := IncludesSound(hay[1..], needle);
      assert hay[1..][j..j + |needle|] == hay[j + 1..j + 1 + |needle|];
      i := j + 1;
    }
  }

  /** The scan finds every occurrence. */
  lemma {:induction false} IncludesComplete(hay: string, needle: string, i: int)
    requires OccursAt(hay, needle, i)
    ensures Includes(hay, needle)
    decreases i
  {
    if i > 0 {
      assert hay[1..][i - 1..i - 1 + |needle|] == hay[i..i + |needle|];
      IncludesComplete(hay[1..], needle, i - 1);
    }
  }

  /** The scan finds needle exactly when it occurs somewhere in hay. */
  lemma IncludesIff(hay: string, needle: string)
    ensures Includes(hay, needle) <==> exists i :: OccursAt(hay, needle, i)
  {
    if Includes(hay, needle) {
      var i := IncludesSound(hay, needle);
    }
    forall i | OccursAt(hay, needle, i) ensures Includes(hay, needle) {
      IncludesComplete(hay, needle, i);
    }
  }

  lemma IncludesEmpty(hay: string)
    ensures Includes(hay, [])
  {
    assert hay[..0] == [];
  }
}
