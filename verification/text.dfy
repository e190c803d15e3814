/** The string operations the task list relies on: String.prototype.trim, toLowerCase and includes. */
module Text {

  /** The characters trim strips: ECMAScript WhiteSpace (tab, vertical tab, form feed, space,
      no-break space, byte order mark, and the Zs separators) and LineTerminator. */
  predicate IsWhitespace(c: char)
  {
    || c == '\t' || c == '\n' || c == '\U{B}' || c == '\U{C}' || c == '\r' || c == ' '
    || c == '\U{A0}' || c == '\U{1680}' || ('\U{2000}' <= c <= '\U{200A}')
    || c == '\U{2028}' || c == '\U{2029}' || c == '\U{202F}' || c == '\U{205F}'
    || c == '\U{3000}' || c == '\U{FEFF}'
  }

  /** `s` without its leading whitespace. */
  function TrimStart(s: string): (r: string)
    ensures |r| <= |s| && r == s[|s| - |r|..]
    ensures forall k :: 0 <= k < |s| - |r| ==> IsWhitespace(s[k])
    ensures |r| > 0 ==> !IsWhitespace(r[0])
  {
    if |s| > 0 && IsWhitespace(s[0]) then TrimStart(s[1..]) else s
  }

  /** `s` without its trailing whitespace. */
  function TrimEnd(s: string): (r: string)
    ensures |r| <= |s| && r == s[..|r|]
    ensures forall k :: |r| <= k < |s| ==> IsWhitespace(s[k])
    ensures |r| > 0 ==> !IsWhitespace(r[|r| - 1])
  {
    if |s| > 0 && IsWhitespace(s[|s| - 1]) then TrimEnd(s[..|s| - 1]) else s
  }

  /** String.prototype.trim: `s` without leading or trailing whitespace. Which slice of `s`
      it is, is stated by TrimIsSlice. */
  function Trim(s: string): (r: string)
    ensures |r| > 0 ==> !IsWhitespace(r[0]) && !IsWhitespace(r[|r| - 1])
    ensures |r| == 0 <==> forall k :: 0 <= k < |s| ==> IsWhitespace(s[k])
  {
    var t := TrimStart(s);
    SliceBetween(s, t, TrimEnd(t));
    TrimEnd(t)
  }

  /** The trimmed string is the slice of `s` that starts where the leading whitespace ends,
      with only whitespace after it. */
  lemma TrimIsSlice(s: string)
    ensures TrimmedAt(s, |s| - |TrimStart(s)|, Trim(s))
  {
    TrimComposes(s);
    SliceBetween(s, TrimStart(s), Trim(s));
  }

  /** Trim removes the leading whitespace first and then the trailing whitespace. */
  lemma TrimComposes(s: string)
    ensures Trim(s) == TrimEnd(TrimStart(s))
  {
  }

  /** A prefix `r` of a suffix `t` of `s`, with only whitespace cut off on either side, is a
      slice of `s` with only whitespace around it. */
  lemma SliceBetween(s: string, t: string, r: string)
    requires |t| <= |s| && t == s[|s| - |t|..]
    requires forall k :: 0 <= k < |s| - |t| ==> IsWhitespace(s[k])
    requires |t| > 0 ==> !IsWhitespace(t[0])
    requires |r| <= |t| && r == t[..|r|]
    requires forall k :: |r| <= k < |t| ==> IsWhitespace(t[k])
    requires |r| > 0 ==> !IsWhitespace(r[|r| - 1])
    ensures TrimmedAt(s, |s| - |t|, r)
    ensures |r| > 0 ==> !IsWhitespace(r[0]) && !IsWhitespace(r[|r| - 1])
    ensures |r| == 0 <==> forall k :: 0 <= k < |s| ==> IsWhitespace(s[k])
  {
    var i := |s| - |t|;
    assert r == s[i..i + |r|] by {
      assert s[i..][..|r|] == s[i..i + |r|];
    }
    forall k | i + |r| <= k < |s| ensures IsWhitespace(s[k]) {
      assert s[k] == t[k - i];
    }
    if |r| > 0 {
      assert r[0] == t[0] == s[i];
    }
  }

  /** `r` is the slice of `s` starting at `i`, and only whitespace lies outside that slice. */
  predicate TrimmedAt(s: string, i: int, r: string)
  {
    && 0 <= i <= i + |r| <= |s| && r == s[i..i + |r|]
    && (forall k :: 0 <= k < i ==> IsWhitespace(s[k]))
    && (forall k :: i + |r| <= k < |s| ==> IsWhitespace(s[k]))
  }

  /** A title the submit handler refuses: nothing is left once it is trimmed. */
  predicate IsBlank(s: string)
  {
    |Trim(s)| == 0
  }

  /** A title is blank exactly when every character of it is whitespace. */
  lemma BlankIffAllWhitespace(s: string)
    ensures IsBlank(s) <==> forall k :: 0 <= k < |s| ==> IsWhitespace(s[k])
  {
  }

  /** A string whose first character is not whitespace is not blank. */
  lemma NotBlankWhenStartsVisible(s: string)
    requires |s| > 0 && !IsWhitespace(s[0])
    ensures !IsBlank(s)
  {
  }

  /** toLowerCase restricted to ASCII: A-Z map to a-z, every other character is kept. */
  function LowerChar(c: char): (r: char)
    ensures 'A' <= c <= 'Z' ==> 'a' <= r <= 'z' && r as int - c as int == 32
    ensures !('A' <= c <= 'Z') ==> r == c
  {
    if 'A' <= c <= 'Z' then (c as int + 32) as char else c
  }

  /** ASCII toLowerCase of a whole string, character by character. */
  function Lower(s: string): (r: string)
    ensures |r| == |s|
    ensures forall i :: 0 <= i < |r| ==> r[i] == LowerChar(s[i])
  {
    seq(|s|, i requires 0 <= i < |s| => LowerChar(s[i]))
  }

  /** String.prototype.startsWith. */
  predicate StartsWith(s: string, prefix: string)
  {
    |prefix| <= |s| && s[..|prefix|] == prefix
  }

  /** String.prototype.includes: `pattern` occurs somewhere in `s`. */
  function Contains(s: string, pattern: string): (b: bool)
    ensures |pattern| == 0 ==> b
    ensures b ==> |pattern| <= |s|
  {
    StartsWith(s, pattern) || (|s| > 0 && Contains(s[1..], pattern))
  }

  /** Lower-casing leaves no upper-case ASCII letter and is idempotent. */
  lemma LowerIsIdempotent(s: string)
    ensures forall i :: 0 <= i < |s| ==> !('A' <= Lower(s)[i] <= 'Z')
    ensures Lower(Lower(s)) == Lower(s)
  {
  }

  /** Two strings fold together exactly when they agree letter for letter up to ASCII case. */
  lemma LowerEqualIff(a: string, b: string)
    ensures Lower(a) == Lower(b) <==> |a| == |b| && forall i :: 0 <= i < |a| ==> LowerChar(a[i]) == LowerChar(b[i])
  {
    if |a| == |b| && forall i :: 0 <= i < |a| ==> LowerChar(a[i]) == LowerChar(b[i]) {
      assert forall i :: 0 <= i < |a| ==> Lower(a)[i] == Lower(b)[i];
    }
  }

  /** Folding only touches A-Z, which are not whitespace, so strings that fold together are
      blank together. */
  lemma BlankAgreesUnderFolding(a: string, b: string)
    requires Lower(a) == Lower(b)
    ensures IsBlank(a) <==> IsBlank(b)
  {
    BlankIffAllWhitespace(a);
    BlankIffAllWhitespace(b);
    forall k | 0 <= k < |a|
      ensures IsWhitespace(a[k]) <==> IsWhitespace(b[k])
    {
      assert Lower(a)[k] == Lower(b)[k];
      FoldingKeepsWhitespace(a[k]);
      FoldingKeepsWhitespace(b[k]);
    }
  }

  lemma FoldingKeepsWhitespace(c: char)
    ensures IsWhitespace(LowerChar(c)) <==> IsWhitespace(c)
  {
  }

  /** Every string contains the empty string, so an empty search matches everything. */
  lemma ContainsEmpty(s: string)
    ensures Contains(s, "")
  {
  }

  /** `pattern` occurs in `s` exactly when it starts at some position of `s`. */
  lemma {:induction false} ContainsIff(s: string, pattern: string)
    ensures Contains(s, pattern) <==> exists k :: 0 <= k <= |s| && StartsWith(s[k..], pattern)
  {
    if |s| > 0 {
      ContainsIff(s[1..], pattern);
      assert forall k :: 1 <= k <= |s| ==> s[k..] == s[1..][k - 1..];
      if StartsWith(s[1..][0..], pattern) {
        assert s[1..][0..] == s[1..];
      }
      assert s[0..] == s;
    } else {
      assert s[0..] == s;
    }
  }
}
