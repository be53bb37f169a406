/**
 * The string operations the services use: `string.Trim()`, `string.ToLower()`
 * and the ordering of names.
 */
module Text {

  /** The characters `char.IsWhiteSpace` accepts, i.e. the Unicode White_Space set. */
  predicate IsWhiteSpace(c: char) {
    ('\t' <= c <= '\r') || c == ' ' || c == '\U{85}' || c == '\U{A0}' || c == '\U{1680}'
    || ('\U{2000}' <= c <= '\U{200A}') || c == '\U{2028}' || c == '\U{2029}'
    || c == '\U{202F}' || c == '\U{205F}' || c == '\U{3000}'
  }

  ghost predicate AllWhiteSpace(s: string) {
    forall i :: 0 <= i < |s| ==> IsWhiteSpace(s[i])
  }

  /** `s` neither starts nor ends with white space. */
  ghost predicate IsTrimmed(s: string) {
    s == [] || (!IsWhiteSpace(s[0]) && !IsWhiteSpace(s[|s| - 1]))
  }

  /** The index of the first character at or after `i` that is not white space, or `|s|`. */
  function SkipForward(s: string, i: nat): (k: nat)
    requires i <= |s|
    ensures i <= k <= |s|
    ensures forall j :: i <= j < k ==> IsWhiteSpace(s[j])
    ensures k < |s| ==> !IsWhiteSpace(s[k])
    decreases |s| - i
  {
    if i < |s| && IsWhiteSpace(s[i]) then SkipForward(s, i + 1) else i
  }

  /** The end of the content: the least `k`, down from `j` to `lo`, after which only white space follows up to `j`. */
  function SkipBackward(s: string, lo: nat, j: nat): (k: nat)
    requires lo <= j <= |s|
    ensures lo <= k <= j
    ensures forall m :: k <= m < j ==> IsWhiteSpace(s[m])
    ensures k > lo ==> !IsWhiteSpace(s[k - 1])
    decreases j
  {
    if j > lo && IsWhiteSpace(s[j - 1]) then SkipBackward(s, lo, j - 1) else j
  }

  /**
   * `string.Trim()`: the slice of `s` left once the white space at both ends is
   * stripped. It starts and ends with non-white characters (or is empty), and what
   * was cut off on either side is white space only.
   */
  function Trim(s: string): (r: string)
    ensures IsTrimmed(r)
    ensures exists i :: 0 <= i <= |s| - |r| && r == s[i..i + |r|]
                        && AllWhiteSpace(s[..i]) && AllWhiteSpace(s[i + |r|..])
  {
    var a := SkipForward(s, 0);
    var b := SkipBackward(s, a, |s|);
    assert AllWhiteSpace(s[..a]) by {
      forall m | 0 <= m < a ensures IsWhiteSpace(s[..a][m]) { assert s[..a][m] == s[m]; }
    }
    assert AllWhiteSpace(s[b..]) by {
      forall m | 0 <= m < |s| - b ensures IsWhiteSpace(s[b..][m]) { assert s[b..][m] == s[b + m]; }
    }
    assert a < b ==> !IsWhiteSpace(s[a]);
    s[a..b]
  }

  /** Trimming is the identity exactly on strings with white space at neither end. */
  lemma {:induction false} TrimFixesTrimmed(s: string)
    ensures Trim(s) == s <==> IsTrimmed(s)
  {
    if IsTrimmed(s) && s != [] {
      assert SkipForward(s, 0) == 0;
      assert SkipBackward(s, 0, |s|) == |s|;
    }
  }

  /** Trimming twice is trimming once. */
  lemma TrimIdempotent(s: string)
    ensures Trim(Trim(s)) == Trim(s)
  {
    TrimFixesTrimmed(Trim(s));
  }

  /** A string trims to nothing exactly when it is all white space. */
  lemma TrimEmptyIffWhiteSpace(s: string)
    ensures Trim(s) == [] <==> AllWhiteSpace(s)
  {
    var a := SkipForward(s, 0);
    var b := SkipBackward(s, a, |s|);
    if Trim(s) == [] {
      assert a == b;
      forall m | 0 <= m < |s| ensures IsWhiteSpace(s[m]) {
        if m < a { assert IsWhiteSpace(s[m]); }
      }
    }
  }

  /**
   * Any slice of `s` whose margins are white space and whose ends are not is
   * what `Trim` returns: the characterisation is unique.
   */
  lemma TrimUnique(s: string, i: nat, j: nat)
    requires i < j <= |s|
    requires AllWhiteSpace(s[..i]) && AllWhiteSpace(s[j..])
    requires !IsWhiteSpace(s[i]) && !IsWhiteSpace(s[j - 1])
    ensures Trim(s) == s[i..j]
  {
    forall m | 0 <= m < i ensures IsWhiteSpace(s[m]) {
      assert s[..i][m] == s[m];
    }
    forall m | j <= m < |s| ensures IsWhiteSpace(s[m]) {
      assert s[j..][m - j] == s[m];
    }
  }

  /** `char.ToLower` on the ASCII letters; every other character is left as it is. */
  function ToLowerChar(c: char): (r: char)
  {
    if 'A' <= c <= 'Z' then (c as int + 32) as char else c
  }

  /** `string.ToLower()`: lower-cases character by character. */
  function ToLower(s: string): (r: string)
  {
    seq(|s|, i requires 0 <= i < |s| => ToLowerChar(s[i]))
  }

  /** Lower-casing keeps the length, lower-cases only letters and is idempotent. */
  lemma ToLowerIsCaseFolding(s: string)
    ensures |ToLower(s)| == |s|
    ensures ToLower(ToLower(s)) == ToLower(s)
    ensures forall i :: 0 <= i < |s| && !('A' <= s[i] <= 'Z') ==> ToLower(s)[i] == s[i]
  {
  }

  /** A string without upper-case ASCII letters is its own lower-case form. */
  lemma LowerCaseIsFixed(s: string)
    requires forall i :: 0 <= i < |s| ==> !('A' <= s[i] <= 'Z')
    ensures ToLower(s) == s
  {
    ToLowerIsCaseFolding(s);
  }

  /**
   * Ordinal comparison of names: `a` sorts no later than `b` when it is a prefix
   * of `b` or at the first difference its character code is smaller.
   */
  predicate LexLe(a: string, b: string)
  {
    if a == [] then true
    else if b == [] then false
    else if a[0] != b[0] then a[0] < b[0]
    else LexLe(a[1..], b[1..])
  }

  lemma {:induction false} LexLeTotal(a: string, b: string)
    ensures LexLe(a, b) || LexLe(b, a)
  {
    if a != [] && b != [] && a[0] == b[0] {
      LexLeTotal(a[1..], b[1..]);
    }
  }

  lemma {:induction false} LexLeTransitive(a: string, b: string, c: string)
    requires LexLe(a, b) && LexLe(b, c)
    ensures LexLe(a, c)
  {
    if a != [] && b != [] && c != [] && a[0] == b[0] && b[0] == c[0] {
      LexLeTransitive(a[1..], b[1..], c[1..]);
    }
  }

  lemma {:induction false} LexLeAntisymmetric(a: string, b: string)
    requires LexLe(a, b) && LexLe(b, a)
    ensures a == b
  {
    if a != [] && b != [] {
      LexLeAntisymmetric(a[1..], b[1..]);
      assert a == [a[0]] + a[1..];
      assert b == [b[0]] + b[1..];
    }
  }
}
