/**
 * The two string operations the payment-terms resolver relies on:
 * substring membership (the `in` test on strings) and stripping of
 * surrounding whitespace.
 */
module Text {

  /** p occurs in s starting at index i. */
  predicate OccursAt(s: string, p: string, i: int) {
    0 <= i && i + |p| <= |s| && s[i..i + |p|] == p
  }

  predicate IsPrefix(p: string, s: string) {
    |p| <= |s| && s[..|p|] == p
  }

  /** Substring test, scanning s from the left. */
  predicate Contains(s: string, p: string): (r: bool)
    ensures r ==> |p| <= |s|
    ensures p == [] ==> r
    decreases |s|
  {
    IsPrefix(p, s) || (|s| > 0 && Contains(s[1..], p))
  }

  /** The scan finds p exactly when p occurs somewhere in s. */
  lemma {:induction false} ContainsIffOccurs(s: string, p: string)
    ensures Contains(s, p) <==> exists i :: OccursAt(s, p, i)
    decreases |s|
  {
    if IsPrefix(p, s) {
      assert OccursAt(s, p, 0);
    } else if |s| > 0 {
      ContainsIffOccurs(s[1..], p);
      if Contains(s[1..], p) {
        var i :| OccursAt(s[1..], p, i);
        assert s[i + 1..i + 1 + |p|] == s[1..][i..i + |p|];
        assert OccursAt(s, p, i + 1);
      } else {
        forall i | OccursAt(s, p, i) ensures false {
          assert i != 0;
          assert s[1..][i - 1..i - 1 + |p|] == s[i..i + |p|];
          assert OccursAt(s[1..], p, i - 1);
        }
      }
    } else {
      assert |p| > 0;
    }
  }

  /** The characters Python's str.isspace accepts: no ASCII letter or
      digit, and every ASCII blank, tab and line break. */
  predicate IsSpace(c: char): (r: bool)
    ensures r ==> !('0' <= c <= '9' || 'A' <= c <= 'Z' || 'a' <= c <= 'z')
    ensures c == ' ' || c == '\t' || c == '\n' || c == '\r' ==> r
  {
    ('\t' <= c <= '\r') || ('\U{1c}' <= c <= ' ')
    || c == '\U{85}' || c == '\U{a0}' || c == '\U{1680}'
    || ('\U{2000}' <= c <= '\U{200a}') || c == '\U{2028}' || c == '\U{2029}'
    || c == '\U{202f}' || c == '\U{205f}' || c == '\U{3000}'
  }

  /** Every character of s at the indices lo .. hi-1 is whitespace. */
  predicate SpaceBetween(s: string, lo: int, hi: int)
    requires 0 <= lo <= hi <= |s|
  {
    forall i :: lo <= i < hi ==> IsSpace(s[i])
  }

  /** Scanning forward from i over whitespace: the index of the first
      character at or after i that is not whitespace, or |s|. */
  function SkipSpace(s: string, i: nat): (j: nat)
    requires i <= |s|
    ensures i <= j <= |s|
    ensures SpaceBetween(s, i, j)
    ensures j == |s| || !IsSpace(s[j])
    decreases |s| - i
  {
    if i < |s| && IsSpace(s[i]) then SkipSpace(s, i + 1) else i
  }

  /** Scanning backward from hi over whitespace, never below lo: the index
      where the run of whitespace that ends at hi begins (or lo, when the
      run reaches it). */
  function SkipSpaceBack(s: string, lo: nat, hi: nat): (k: nat)
    requires lo <= hi <= |s|
    ensures lo <= k <= hi
    ensures SpaceBetween(s, k, hi)
    ensures k == lo || !IsSpace(s[k - 1])
    decreases hi
  {
    if lo < hi && IsSpace(s[hi - 1]) then SkipSpaceBack(s, lo, hi - 1) else hi
  }

  /** s with whitespace removed from both ends (Python's str.strip()):
      the slice of s that starts after its leading whitespace and has only
      whitespace after it, and that neither starts nor ends with whitespace. */
  function Strip(s: string): (r: string)
    ensures SkipSpace(s, 0) + |r| <= |s|
    ensures r == s[SkipSpace(s, 0)..SkipSpace(s, 0) + |r|]
    ensures SpaceBetween(s, 0, SkipSpace(s, 0)) && SpaceBetween(s, SkipSpace(s, 0) + |r|, |s|)
    ensures r == [] || (!IsSpace(r[0]) && !IsSpace(r[|r| - 1]))
  {
    var a := SkipSpace(s, 0);
    var b := SkipSpaceBack(s, a, |s|);
    assert b > a ==> s[a..b][0] == s[a] && s[a..b][b - a - 1] == s[b - 1];
    s[a..b]
  }

  /** A pattern that neither starts nor ends with whitespace. */
  predicate Marker(p: string) {
    |p| > 0 && !IsSpace(p[0]) && !IsSpace(p[|p| - 1])
  }

  /** An occurrence inside a slice of s is an occurrence in s. */
  lemma OccursInSlice(s: string, a: int, b: int, p: string, i: int)
    requires 0 <= a <= b <= |s| && OccursAt(s[a..b], p, i)
    ensures OccursAt(s, p, a + i)
  {
    forall k | 0 <= k < |p| ensures s[a + i + k] == p[k] {
      assert s[a..b][i..i + |p|][k] == p[k];
    }
    assert s[a + i..a + i + |p|] == p;
  }

  /** An occurrence of a marker in s cannot overlap whitespace that
      surrounds the slice s[a..b], so it lies inside that slice. */
  lemma MarkerInsideSlice(s: string, a: int, b: int, p: string, j: int)
    requires 0 <= a <= b <= |s| && SpaceBetween(s, 0, a) && SpaceBetween(s, b, |s|)
    requires Marker(p) && OccursAt(s, p, j)
    ensures OccursAt(s[a..b], p, j - a)
  {
    assert s[j] == p[0];
    assert s[j + |p| - 1] == p[|p| - 1];
    assert a <= j && j + |p| <= b;
    forall k | 0 <= k < |p| ensures s[a..b][j - a + k] == p[k] {
      assert s[j..j + |p|][k] == p[k];
    }
    assert s[a..b][j - a..j - a + |p|] == p;
  }

  /** Every occurrence in the stripped text is one in the original. */
  lemma StripKeepsOccurrence(s: string, p: string)
    requires Contains(Strip(s), p)
    ensures Contains(s, p)
  {
    var r, a := Strip(s), SkipSpace(s, 0);
    ContainsIffOccurs(r, p);
    var i :| OccursAt(r, p, i);
    OccursInSlice(s, a, a + |r|, p, i);
    ContainsIffOccurs(s, p);
  }

  /** Every occurrence of a marker in the original survives stripping. */
  lemma StripFindsMarker(s: string, p: string)
    requires Marker(p) && Contains(s, p)
    ensures Contains(Strip(s), p)
  {
    var r, a := Strip(s), SkipSpace(s, 0);
    var b := a + |r|;
    ContainsIffOccurs(s, p);
    var j :| OccursAt(s, p, j);
    assert 0 <= a <= b <= |s| && r == s[a..b];
    assert SpaceBetween(s, 0, a) && SpaceBetween(s, b, |s|);
    MarkerInsideSlice(s, a, b, p, j);
    assert OccursAt(r, p, j - a);
    ContainsIffOccurs(r, p);
  }

  /** Stripping never adds or removes an occurrence of a marker. */
  lemma StripKeepsMarker(s: string, p: string)
    requires Marker(p)
    ensures Contains(Strip(s), p) <==> Contains(s, p)
  {
    if Contains(Strip(s), p) {
      StripKeepsOccurrence(s, p);
    }
    if Contains(s, p) {
      StripFindsMarker(s, p);
    }
  }

  /** A pattern whose first character never appears in s does not occur
      in s. */
  lemma AbsentFirstChar(s: string, p: string)
    requires |p| > 0 && p[0] !in s
    ensures !Contains(s, p)
  {
    ContainsIffOccurs(s, p);
  }

  /** A text that ends with p contains p. */
  lemma ContainsSuffix(pre: string, p: string)
    ensures Contains(pre + p, p)
  {
    var s := pre + p;
    assert s[|pre|..|pre| + |p|] == p;
    assert OccursAt(s, p, |pre|);
    ContainsIffOccurs(s, p);
  }

  /** Whitespace around s never adds or removes an occurrence of a marker. */
  lemma PaddingKeepsMarker(pad: string, s: string, pad': string, p: string)
    requires Marker(p) && SpaceBetween(pad, 0, |pad|) && SpaceBetween(pad', 0, |pad'|)
    ensures Contains(pad + s + pad', p) <==> Contains(s, p)
  {
    var t, a, b := pad + s + pad', |pad|, |pad| + |s|;
    assert t[a..b] == s;
    assert SpaceBetween(t, 0, a) by {
      forall i | 0 <= i < a ensures IsSpace(t[i]) {
        assert t[i] == pad[i];
      }
    }
    assert SpaceBetween(t, b, |t|) by {
      forall i | b <= i < |t| ensures IsSpace(t[i]) {
        assert t[i] == pad'[i - b];
      }
    }
    ContainsIffOccurs(t, p);
    ContainsIffOccurs(s, p);
    if i :| OccursAt(s, p, i) {
      OccursInSlice(t, a, b, p, i);
    }
    if j :| OccursAt(t, p, j) {
      MarkerInsideSlice(t, a, b, p, j);
    }
  }
}
