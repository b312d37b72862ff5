/**
 The string primitives the inventory screen uses: `String.prototype.trim`,
 `toLowerCase` (restricted to ASCII) and `String.prototype.includes`.
 */
module Text {

  /** The code points ECMA-262 classes as WhiteSpace (section 12.2) or
      LineTerminator (section 12.3): exactly what `trim` strips. */
  predicate IsJsSpace(c: char) {
    || c == '\t' || c == '\n' || c == '\U{000B}' || c == '\U{000C}' || c == '\r' || c == ' '
    || c == '\U{00A0}' || c == '\U{1680}' || ('\U{2000}' <= c <= '\U{200A}')
    || c == '\U{2028}' || c == '\U{2029}' || c == '\U{202F}' || c == '\U{205F}'
    || c == '\U{3000}' || c == '\U{FEFF}'
  }

  /** Every character of s is white space (vacuously true of ""). */
  ghost predicate Blank(s: string) {
    forall k :: 0 <= k < |s| ==> IsJsSpace(s[k])
  }

  /** Drops leading white space: the result is the longest suffix of s
      that does not start with white space. */
  function TrimStart(s: string): (r: string)
    ensures |r| <= |s| && r == s[|s| - |r|..]
    ensures Blank(s[..|s| - |r|])
    ensures r == [] || !IsJsSpace(r[0])
  {
    if s != [] && IsJsSpace(s[0]) then TrimStart(s[1..]) else s
  }

  /** Drops trailing white space: the result is the longest prefix of s
      that does not end with white space. */
  function TrimEnd(s: string): (r: string)
    ensures |r| <= |s| && r == s[..|r|]
    ensures Blank(s[|r|..])
    ensures r == [] || !IsJsSpace(r[|r| - 1])
  {
    if s != [] && IsJsSpace(s[|s| - 1]) then TrimEnd(s[..|s| - 1]) else s
  }

  /** `s.trim()`: s with leading and trailing white space removed. The
      result is a slice s[i..i + |r|] with only white space outside it and
      no white space at either of its ends. */
  function Trim(s: string): (r: string)
    ensures |r| <= |s|
    ensures exists i :: TrimmedAt(s, r, i)
    ensures r == [] || (!IsJsSpace(r[0]) && !IsJsSpace(r[|r| - 1]))
  {
    var t := TrimStart(s);
    TrimSlice(s, t, TrimEnd(t));
    TrimEnd(t)
  }

  /** r is the slice of s at offset i, and s holds only white space around it. */
  ghost predicate TrimmedAt(s: string, r: string, i: int) {
    0 <= i <= |s| - |r| && r == s[i..i + |r|] && Blank(s[..i]) && Blank(s[i + |r|..])
  }

  lemma TrimSlice(s: string, t: string, r: string)
    requires |t| <= |s| && t == s[|s| - |t|..] && Blank(s[..|s| - |t|])
    requires |r| <= |t| && r == t[..|r|] && Blank(t[|r|..])
    ensures TrimmedAt(s, r, |s| - |t|)
  {
    var i := |s| - |t|;
    assert r == s[i..i + |r|];
    var tail := s[i + |r|..];
    assert tail == t[|r|..];
  }

  /** A string trims to "" exactly when it is entirely white space: the
      condition under which the add-item handlers reject a name. */
  lemma TrimEmptyIffBlank(s: string)
    ensures Trim(s) == [] <==> Blank(s)
  {
    if Blank(s) {
      BlankTrimStart(s);
    } else {
      var k :| 0 <= k < |s| && !IsJsSpace(s[k]);
      var t := TrimStart(s);
      assert s[k] == t[k - (|s| - |t|)];
    }
  }

  lemma {:induction false} BlankTrimStart(s: string)
    requires Blank(s)
    ensures TrimStart(s) == []
    decreases |s|
  {
    if s != [] {
      assert Blank(s[1..]) by {
        forall k | 0 <= k < |s[1..]| ensures IsJsSpace(s[1..][k]) {
          assert s[1..][k] == s[k + 1];
        }
      }
      BlankTrimStart(s[1..]);
    }
  }

  /** Trimming is idempotent: a trimmed name is left alone by a second trim. */
  lemma TrimIdempotent(s: string)
    ensures Trim(Trim(s)) == Trim(s)
  {
    var r := Trim(s);
    TrimmedIsFixed(r);
  }

  /** A string with no white space at either end is its own trim. */
  lemma TrimmedIsFixed(r: string)
    requires r == [] || (!IsJsSpace(r[0]) && !IsJsSpace(r[|r| - 1]))
    ensures Trim(r) == r
  {
  }

  /** ASCII upper-case letter. */
  predicate IsUpper(c: char) {
    'A' <= c <= 'Z'
  }

  /** Lower-cases one character; characters outside A-Z are unchanged. */
  function LowerChar(c: char): (d: char)
    ensures !IsUpper(d)
    ensures IsUpper(c) ==> d as int == c as int + 32
    ensures !IsUpper(c) ==> d == c
  {
    if IsUpper(c) then (c as int + 32) as char else c
  }

  /** `s.toLowerCase()` over ASCII: same length, each character lower-cased. */
  function Lower(s: string): (r: string)
    ensures |r| == |s|
    ensures forall k :: 0 <= k < |s| ==> r[k] == LowerChar(s[k])
  {
    if s == [] then [] else [LowerChar(s[0])] + Lower(s[1..])
  }

  /** Lower-casing twice is lower-casing once. */
  lemma LowerIdempotent(s: string)
    ensures Lower(Lower(s)) == Lower(s)
  {
    assert forall k :: 0 <= k < |s| ==> LowerChar(LowerChar(s[k])) == LowerChar(s[k]);
  }

  /** t occurs in s starting at index i. */
  ghost predicate OccursAt(s: string, t: string, i: int) {
    0 <= i && i + |t| <= |s| && s[i..i + |t|] == t
  }

  /** `s.includes(t)`: t occurs somewhere in s (the empty string occurs everywhere). */
  function Includes(s: string, t: string): (r: bool)
    ensures r <==> exists i :: OccursAt(s, t, i)
    decreases |s|
  {
    if t <= s then
      assert OccursAt(s, t, 0);
      true
    else if s == [] then
      false
    else
      IncludesShift(s, t);
      Includes(s[1..], t)
  }

  /** For a non-empty s that t is not a prefix of, t occurs in s exactly when it occurs in s[1..]. */
  lemma IncludesShift(s: string, t: string)
    requires s != [] && !(t <= s)
    ensures (exists i :: OccursAt(s, t, i)) <==> (exists j :: OccursAt(s[1..], t, j))
  {
    forall j | OccursAt(s[1..], t, j) ensures OccursAt(s, t, j + 1) {
      assert s[1..][j..j + |t|] == s[j + 1..j + 1 + |t|];
    }
    forall i | OccursAt(s, t, i) ensures i >= 1 && OccursAt(s[1..], t, i - 1) {
      assert s[1..][i - 1..i - 1 + |t|] == s[i..i + |t|];
    }
  }
}
