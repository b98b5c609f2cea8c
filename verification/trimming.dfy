/**
 The string trimming the chat component applies to every input before it is
 accepted (`content.trim()`): ECMAScript's String.prototype.trim, which strips
 leading and trailing white space and line terminators.
 */
module Trimming {

  /** The characters String.prototype.trim removes: WhiteSpace (section 12.2 of
      ECMA-262: TAB, VT, FF, SP, NBSP, ZWNBSP and the characters of Unicode
      category Zs) and LineTerminator (section 12.3: LF, CR, LS, PS). */
  const WhitespaceChars: set<char> := {
    '\t', '\n', '\U{B}', '\U{C}', '\r', ' ', '\U{A0}', '\U{1680}',
    '\U{2000}', '\U{2001}', '\U{2002}', '\U{2003}', '\U{2004}', '\U{2005}',
    '\U{2006}', '\U{2007}', '\U{2008}', '\U{2009}', '\U{200A}',
    '\U{2028}', '\U{2029}', '\U{202F}', '\U{205F}', '\U{3000}', '\U{FEFF}'
  }

  predicate IsWhitespace(c: char) {
    c in WhitespaceChars
  }

  /** Every character of `s` is white space (vacuously true of ""). */
  predicate AllWhitespace(s: string) {
    forall k :: 0 <= k < |s| ==> IsWhitespace(s[k])
  }

  /** `s` starts and ends with a character trim keeps (vacuously true of ""). */
  predicate IsTrimmed(s: string) {
    s == [] || (!IsWhitespace(s[0]) && !IsWhitespace(s[|s| - 1]))
  }

  /** `s` with its leading white space removed: the longest suffix of `s` that
      does not start with white space. */
  function TrimStart(s: string): (r: string)
    ensures |r| <= |s| && r == s[|s| - |r|..]
    ensures r == [] || !IsWhitespace(r[0])
    ensures forall k :: 0 <= k < |s| - |r| ==> IsWhitespace(s[k])
  {
    if |s| > 0 && IsWhitespace(s[0]) then
      var r := TrimStart(s[1..]);
      assert forall k :: 1 <= k < |s| - |r| ==> s[k] == s[1..][k - 1];
      r
    else
      s
  }

  /** `s` with its trailing white space removed: the longest prefix of `s` that
      does not end with white space. */
  function TrimEnd(s: string): (r: string)
    ensures |r| <= |s| && r == s[..|r|]
    ensures r == [] || !IsWhitespace(r[|r| - 1])
    ensures forall k :: |r| <= k < |s| ==> IsWhitespace(s[k])
  {
    if |s| > 0 && IsWhitespace(s[|s| - 1]) then
      var r := TrimEnd(s[..|s| - 1]);
      assert forall k :: |r| <= k < |s| - 1 ==> s[k] == s[..|s| - 1][k];
      r
    else
      s
  }

  /** String.prototype.trim. */
  function Trim(s: string): (r: string)
    ensures IsTrimmed(r)
    ensures |r| <= |s|
    ensures r == [] <==> AllWhitespace(s)
  {
    var r := TrimEnd(TrimStart(s));
    TrimBlank(s);
    assert r != [] ==> r[0] == TrimStart(s)[0];
    r
  }

  /** Trimming both ends leaves nothing exactly when the input is blank. */
  lemma TrimBlank(s: string)
    ensures TrimEnd(TrimStart(s)) == [] <==> AllWhitespace(s)
  {
    var t := TrimStart(s);
    var a := |s| - |t|;
    if TrimEnd(t) != [] {
      assert t[0] == s[a];
    }
  }

  /** Leading white space ends at the first kept character. */
  lemma TrimStartAt(s: string, i: nat)
    requires i < |s| && !IsWhitespace(s[i])
    requires forall k :: 0 <= k < i ==> IsWhitespace(s[k])
    ensures TrimStart(s) == s[i..]
  {
    var t := TrimStart(s);
    var a := |s| - |t|;
    assert a < |s| ==> t[0] == s[a];
    assert a == i;
  }

  /** Trailing white space starts after the last kept character. */
  lemma TrimEndAt(s: string, n: nat)
    requires 0 < n <= |s| && !IsWhitespace(s[n - 1])
    requires forall k :: n <= k < |s| ==> IsWhitespace(s[k])
    ensures TrimEnd(s) == s[..n]
  {
    var r := TrimEnd(s);
    assert r != [] ==> r[|r| - 1] == s[|r| - 1];
  }

  /** Trailing white space of a suffix `s[i..]` starts after the last kept
      character of `s`. */
  lemma TrimEndOfSuffix(s: string, i: nat, j: nat)
    requires i < j <= |s| && !IsWhitespace(s[j - 1])
    requires forall k :: j <= k < |s| ==> IsWhitespace(s[k])
    ensures TrimEnd(s[i..]) == s[i..j]
  {
    var t := s[i..];
    assert forall k :: j - i <= k < |t| ==> t[k] == s[i + k];
    TrimEndAt(t, j - i);
    assert t[..j - i] == s[i..j];
  }

  /** Trim keeps exactly the stretch from the first to the last kept
      character. */
  lemma TrimKeeps(s: string, i: nat, j: nat)
    requires i < j <= |s| && !IsWhitespace(s[i]) && !IsWhitespace(s[j - 1])
    requires forall k :: 0 <= k < i ==> IsWhitespace(s[k])
    requires forall k :: j <= k < |s| ==> IsWhitespace(s[k])
    ensures Trim(s) == s[i..j]
  {
    TrimStartAt(s, i);
    TrimEndOfSuffix(s, i, j);
  }

  /** Trim is characterised by where the kept text begins and ends: whenever
      `s[i..j]` has only white space before and after it and (if non-empty)
      begins and ends with a kept character, it is exactly what Trim returns. */
  lemma {:induction false} TrimUnique(s: string, i: nat, j: nat)
    requires i <= j <= |s|
    requires forall k :: 0 <= k < i ==> IsWhitespace(s[k])
    requires forall k :: j <= k < |s| ==> IsWhitespace(s[k])
    requires i < j ==> !IsWhitespace(s[i]) && !IsWhitespace(s[j - 1])
    ensures Trim(s) == s[i..j]
  {
    if i < j {
      TrimKeeps(s, i, j);
    } else {
      forall k | 0 <= k < |s| ensures IsWhitespace(s[k]) {
        assert k < i || j <= k;
      }
    }
  }

  /** Trim leaves a string that has no white space at either end as it is. */
  lemma TrimKeepsTrimmed(s: string)
    requires IsTrimmed(s)
    ensures Trim(s) == s
  {
    TrimUnique(s, 0, |s|);
    assert s[0..|s|] == s;
  }

  /** Trimming twice is the same as trimming once. */
  lemma TrimIdempotent(s: string)
    ensures Trim(Trim(s)) == Trim(s)
  {
    TrimKeepsTrimmed(Trim(s));
  }

  /** Trim only removes characters from the two ends: it returns a slice of
      its input. */
  lemma TrimIsSlice(s: string)
    ensures exists i, j :: 0 <= i <= j <= |s| && Trim(s) == s[i..j]
  {
    var a := |s| - |TrimStart(s)|;
    assert Trim(s) == s[a..a + |Trim(s)|];
  }
}
