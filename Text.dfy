/** The few JavaScript string operations that the chat engine and the vocabulary
    search are built from, over Dafny strings (sequences of Unicode scalar values). */
module Text {

  datatype Option<T> = None | Some(value: T)

  /** p occurs in s starting at position i. */
  predicate OccursAt(s: string, p: string, i: nat) {
    i + |p| <= |s| && s[i..i + |p|] == p
  }

  /** `s.includes(p)`: p occurs in s as one contiguous block. */
  predicate Contains(s: string, p: string) {
    exists i: nat | i <= |s| :: OccursAt(s, p, i)
  }

  /** A pattern that holds a character the text lacks cannot occur in the text. */
  lemma AbsentCharExcludes(s: string, p: string, c: char)
    requires c in p && c !in s
    ensures !Contains(s, p)
  {
    var k :| 0 <= k < |p| && p[k] == c;
    forall i: nat | i <= |s|
      ensures !OccursAt(s, p, i)
    {
      if i + |p| <= |s| {
        assert s[i..i + |p|][k] == s[i + k] != c;
      }
    }
  }

  /** Containment is transitive. */
  lemma ContainsTransitive(a: string, b: string, c: string)
    requires Contains(a, b) && Contains(b, c)
    ensures Contains(a, c)
  {
    var i: nat :| i <= |a| && OccursAt(a, b, i);
    var j: nat :| j <= |b| && OccursAt(b, c, j);
    forall k | 0 <= k < |c|
      ensures a[i + j + k] == c[k]
    {
      assert a[i + j + k] == a[i..i + |b|][j + k];
      assert b[j + k] == b[j..j + |c|][k];
    }
    assert a[i + j..i + j + |c|] == c;
    assert OccursAt(a, c, i + j);
  }

  /** Every character of a contained string is a character of the text. */
  lemma ContainsMembers(s: string, p: string)
    requires Contains(s, p)
    ensures forall c | c in p :: c in s
  {
    var i: nat :| i <= |s| && OccursAt(s, p, i);
    forall c | c in p
      ensures c in s
    {
      var k :| 0 <= k < |p| && p[k] == c;
      assert s[i..i + |p|][k] == s[i + k];
    }
  }

  /** An occurrence at a known position is an occurrence. */
  lemma ContainsAt(s: string, p: string, i: nat)
    requires i + |p| <= |s| && s[i..i + |p|] == p
    ensures Contains(s, p)
  {
    assert OccursAt(s, p, i);
  }

  /** Every slice of a text is contained in it. */
  lemma ContainsSlice(s: string, a: nat, b: nat)
    requires a <= b <= |s|
    ensures Contains(s, s[a..b])
  {
    assert OccursAt(s, s[a..b], a);
  }

  /** Containment is kept when text is added on either side. */
  lemma ContainsInContext(a: string, s: string, b: string, p: string)
    requires Contains(s, p)
    ensures Contains(a + s + b, p)
  {
    var i: nat :| i <= |s| && OccursAt(s, p, i);
    assert (a + s + b)[|a| + i..|a| + i + |p|] == p;
    assert OccursAt(a + s + b, p, |a| + i);
  }

  predicate IsAsciiUpper(c: char) { 'A' <= c <= 'Z' }

  predicate IsAsciiLower(c: char) { 'a' <= c <= 'z' }

  /** The class `[a-zA-Z]`. */
  predicate IsAsciiLetter(c: char) { IsAsciiUpper(c) || IsAsciiLower(c) }

  /** Case folding restricted to ASCII, which is all that a case-insensitive
      match against an ASCII-only pattern can see. */
  function AsciiToLower(c: char): (d: char)
    ensures IsAsciiLetter(c) ==> IsAsciiLower(d) && AsciiToUpper(d) == AsciiToUpper(c)
    ensures !IsAsciiUpper(c) ==> d == c
  {
    if IsAsciiUpper(c) then (c as int + 32) as char else c
  }

  /** `toUpperCase()` on a character of `[a-zA-Z]`. */
  function AsciiToUpper(c: char): (d: char)
    ensures IsAsciiLetter(c) ==> IsAsciiUpper(d) && (IsAsciiUpper(c) ==> d == c)
    ensures IsAsciiLower(c) ==> d as int == c as int - 32
    ensures !IsAsciiLower(c) ==> d == c
  {
    if IsAsciiLower(c) then (c as int - 32) as char else c
  }

  /** Upper-case characters that `toLowerCase()` is modelled on: the ASCII
      letters and the Latin-1 capitals U+00C0..U+00DE except the sign U+00D7. */
  predicate HasModelledLowerCase(c: char) {
    IsAsciiUpper(c) || ('\U{C0}' <= c <= '\U{DE}' && c != '\U{D7}')
  }

  function CharToLower(c: char): (d: char)
    ensures !HasModelledLowerCase(d)
    ensures HasModelledLowerCase(c) ==> d as int == c as int + 32
    ensures !HasModelledLowerCase(c) ==> d == c
  {
    if HasModelledLowerCase(c) then (c as int + 32) as char else c
  }

  /** `s.toLowerCase()`, character by character. */
  function ToLowerCase(s: string): (r: string)
    ensures |r| == |s|
    ensures forall i | 0 <= i < |s| :: r[i] == CharToLower(s[i])
  {
    seq(|s|, i requires 0 <= i < |s| => CharToLower(s[i]))
  }

  /** Lowering twice is lowering once. */
  lemma ToLowerCaseIdempotent(s: string)
    ensures ToLowerCase(ToLowerCase(s)) == ToLowerCase(s)
  {
  }

  /** Lowering maps an occurrence to an occurrence. This is a fact about the
      character-by-character lowering modelled here only: JavaScript's
      `toLowerCase` is context-sensitive for the final sigma, so "ΑΣ" contains
      "Σ" while "ας" does not contain "σ". */
  lemma ToLowerCaseKeepsContains(s: string, p: string)
    requires Contains(s, p)
    ensures Contains(ToLowerCase(s), ToLowerCase(p))
  {
    var i: nat :| i <= |s| && OccursAt(s, p, i);
    assert ToLowerCase(s)[i..i + |p|] == ToLowerCase(p);
    assert OccursAt(ToLowerCase(s), ToLowerCase(p), i);
  }

  /** The characters JavaScript's `trim()` removes: WhiteSpace and LineTerminator
      of the ECMAScript grammar (the Zs category written out). */
  predicate IsJsWhitespace(c: char) {
    || c == '\t' || c == '\n' || c == '\U{B}' || c == '\U{C}' || c == '\r' || c == ' '
    || c == '\U{A0}' || c == '\U{1680}' || ('\U{2000}' <= c <= '\U{200A}')
    || c == '\U{2028}' || c == '\U{2029}' || c == '\U{202F}' || c == '\U{205F}'
    || c == '\U{3000}' || c == '\U{FEFF}'
  }

  /** Drops the leading whitespace: the result is the suffix of s that starts
      at its first non-whitespace character. */
  function TrimStart(s: string): (r: string)
    ensures |r| <= |s| && r == s[|s| - |r|..]
    ensures r != [] ==> !IsJsWhitespace(r[0])
  {
    if s != [] && IsJsWhitespace(s[0]) then TrimStart(s[1..]) else s
  }

  /** What TrimStart drops is whitespace. */
  lemma {:induction false} TrimStartDropsWhitespace(s: string)
    ensures forall j | 0 <= j < |s| - |TrimStart(s)| :: IsJsWhitespace(s[j])
  {
    if s != [] && IsJsWhitespace(s[0]) {
      TrimStartDropsWhitespace(s[1..]);
      forall j | 0 <= j < |s| - |TrimStart(s)|
        ensures IsJsWhitespace(s[j])
      {
        if j > 0 {
          assert s[j] == s[1..][j - 1];
        }
      }
    }
  }

  /** Drops the trailing whitespace: the result is the prefix of s that ends
      at its last non-whitespace character. */
  function TrimEnd(s: string): (r: string)
    ensures |r| <= |s| && r == s[..|r|]
    ensures r != [] ==> !IsJsWhitespace(r[|r| - 1])
  {
    if s != [] && IsJsWhitespace(s[|s| - 1]) then TrimEnd(s[..|s| - 1]) else s
  }

  /** What TrimEnd drops is whitespace. */
  lemma {:induction false} TrimEndDropsWhitespace(s: string)
    ensures forall j | |TrimEnd(s)| <= j < |s| :: IsJsWhitespace(s[j])
  {
    if s != [] && IsJsWhitespace(s[|s| - 1]) {
      var u := s[..|s| - 1];
      TrimEndDropsWhitespace(u);
      forall j | |TrimEnd(s)| <= j < |s|
        ensures IsJsWhitespace(s[j])
      {
        if j < |s| - 1 {
          assert s[j] == u[j];
        }
      }
    }
  }

  /** `s.trim()`. */
  function Trim(s: string): (r: string)
    ensures r != [] ==> !IsJsWhitespace(r[0]) && !IsJsWhitespace(r[|r| - 1])
    ensures Contains(s, r)
  {
    var t := TrimStart(s);
    var r := TrimEnd(t);
    assert OccursAt(s, r, |s| - |t|);
    r
  }

  /** Trim adds no character. */
  lemma TrimAddsNothing(s: string)
    ensures forall c | c in Trim(s) :: c in s
  {
    var t := TrimStart(s);
    var r := TrimEnd(t);
    var d := |s| - |t|;
    forall c | c in r
      ensures c in s
    {
      var k :| 0 <= k < |r| && r[k] == c;
      assert t[k] == c && s[d + k] == t[k];
    }
  }

  /** Trim loses no character that is not whitespace. */
  lemma TrimKeepsNonWhitespace(s: string)
    ensures forall c | c in s && !IsJsWhitespace(c) :: c in Trim(s)
  {
    forall c | c in s && !IsJsWhitespace(c)
      ensures c in Trim(s)
    {
      var j :| 0 <= j < |s| && s[j] == c;
      TrimKeepsAt(s, j);
    }
  }

  /** A character that is not whitespace lies between the two trimmed runs. */
  lemma TrimKeepsAt(s: string, j: nat)
    requires j < |s| && !IsJsWhitespace(s[j])
    ensures s[j] in Trim(s)
  {
    var t := TrimStart(s);
    var d := |s| - |t|;
    TrimStartDropsWhitespace(s);
    assert d <= j;
    assert t[j - d] == s[j];
    var r := TrimEnd(t);
    TrimEndDropsWhitespace(t);
    assert j - d < |r|;
    assert r[j - d] == s[j];
  }

  /** Trim removes exactly the whitespace run at each end: when s[..a] and
      s[b..] are whitespace and s[a..b] neither starts nor ends with it,
      `s.trim()` is s[a..b]. */
  lemma TrimIs(s: string, a: nat, b: nat)
    requires a <= b <= |s|
    requires forall j | 0 <= j < a :: IsJsWhitespace(s[j])
    requires forall j | b <= j < |s| :: IsJsWhitespace(s[j])
    requires a < b ==> !IsJsWhitespace(s[a]) && !IsJsWhitespace(s[b - 1])
    ensures Trim(s) == s[a..b]
  {
    if a < b {
      TrimStartIs(s, a);
      TrimEndOfSuffix(s, a, b);
    } else {
      TrimStartIs(s, |s|);
      assert TrimEnd([]) == [];
    }
  }

  /** TrimEnd of the suffix s[a..] stops at b when s[b..] is whitespace and
      s[b - 1] is not. */
  lemma TrimEndOfSuffix(s: string, a: nat, b: nat)
    requires a < b <= |s|
    requires forall j | b <= j < |s| :: IsJsWhitespace(s[j])
    requires !IsJsWhitespace(s[b - 1])
    ensures TrimEnd(s[a..]) == s[a..b]
  {
    var t := s[a..];
    forall j | b - a <= j < |t|
      ensures IsJsWhitespace(t[j])
    {
      assert t[j] == s[a + j];
    }
    assert t[b - a - 1] == s[b - 1];
    TrimEndIs(t, b - a);
    assert t[..b - a] == s[a..b];
  }

  /** TrimStart drops exactly the leading whitespace run s[..a]. */
  lemma {:induction false} TrimStartIs(s: string, a: nat)
    requires a <= |s|
    requires forall j | 0 <= j < a :: IsJsWhitespace(s[j])
    requires a < |s| ==> !IsJsWhitespace(s[a])
    ensures TrimStart(s) == s[a..]
  {
    if a > 0 {
      assert IsJsWhitespace(s[0]);
      forall j | 0 <= j < a - 1
        ensures IsJsWhitespace(s[1..][j])
      {
        assert s[1..][j] == s[j + 1];
      }
      assert a - 1 < |s[1..]| ==> s[1..][a - 1] == s[a];
      TrimStartIs(s[1..], a - 1);
      assert s[1..][a - 1..] == s[a..];
    }
  }

  /** TrimEnd drops exactly the trailing whitespace run t[m..]. */
  lemma {:induction false} TrimEndIs(t: string, m: nat)
    requires m <= |t|
    requires forall j | m <= j < |t| :: IsJsWhitespace(t[j])
    requires 0 < m ==> !IsJsWhitespace(t[m - 1])
    ensures TrimEnd(t) == t[..m]
    decreases |t|
  {
    if m < |t| {
      var u := t[..|t| - 1];
      assert IsJsWhitespace(t[|t| - 1]);
      forall j | m <= j < |u|
        ensures IsJsWhitespace(u[j])
      {
        assert u[j] == t[j];
      }
      assert 0 < m ==> u[m - 1] == t[m - 1];
      TrimEndIs(u, m);
      assert u[..m] == t[..m];
    }
  }

  /** `s.split(' ')[0]`: everything before the first space (U+0020 only). */
  function FirstWord(s: string): (r: string)
    ensures |r| <= |s| && r == s[..|r|]
    ensures ' ' !in r
    ensures |r| < |s| ==> s[|r|] == ' '
  {
    if s == [] || s[0] == ' ' then [] else [s[0]] + FirstWord(s[1..])
  }

  /** `s.replace(/[^a-zA-Z]/g, '')`: the letters of s, in order. */
  function KeepLetters(s: string): (r: string)
    ensures |r| <= |s|
    ensures forall i | 0 <= i < |r| :: IsAsciiLetter(r[i])
  {
    if s == [] then []
    else if IsAsciiLetter(s[0]) then [s[0]] + KeepLetters(s[1..])
    else KeepLetters(s[1..])
  }

  /** The letters kept are the letters of s: none added, none lost. */
  lemma {:induction false} KeepLettersMembers(s: string)
    ensures forall c | c in KeepLetters(s) :: c in s
    ensures forall c | c in s && IsAsciiLetter(c) :: c in KeepLetters(s)
  {
    if s != [] {
      KeepLettersMembers(s[1..]);
      assert forall c | c in s :: c == s[0] || c in s[1..];
    }
  }

  /** The first word is the prefix that runs up to the first space. */
  lemma {:induction false} FirstWordIs(s: string, k: nat)
    requires k <= |s| && ' ' !in s[..k] && (k < |s| ==> s[k] == ' ')
    ensures FirstWord(s) == s[..k]
  {
    if k > 0 {
      assert s[0] == s[..k][0];
      assert s[1..][..k - 1] == s[1..k];
      FirstWordIs(s[1..], k - 1);
      assert s[..k] == [s[0]] + s[1..k];
    }
  }

  /** Removing the non-letters of a concatenation removes them piecewise. */
  lemma {:induction false} KeepLettersAppend(a: string, b: string)
    ensures KeepLetters(a + b) == KeepLetters(a) + KeepLetters(b)
  {
    if a == [] {
      assert a + b == b;
    } else {
      assert (a + b)[0] == a[0];
      assert (a + b)[1..] == a[1..] + b;
      KeepLettersAppend(a[1..], b);
    }
  }

  /** A string made of letters only is left as it is. */
  lemma {:induction false} KeepLettersOfLetters(s: string)
    requires forall c | c in s :: IsAsciiLetter(c)
    ensures KeepLetters(s) == s
  {
    if s != [] {
      KeepLettersOfLetters(s[1..]);
    }
  }

  /** A string whose letters all come before its other characters keeps
      exactly that leading run of letters. */
  lemma {:induction false} KeepLettersIs(s: string, k: nat)
    requires k <= |s|
    requires forall j | 0 <= j < k :: IsAsciiLetter(s[j])
    requires forall j | k <= j < |s| :: !IsAsciiLetter(s[j])
    ensures KeepLetters(s) == s[..k]
  {
    if s != [] {
      var k' := if k == 0 then 0 else k - 1;
      KeepLettersIs(s[1..], k');
      if k > 0 {
        assert s[..k] == [s[0]] + s[1..][..k'];
      }
    }
  }

  /** `s.charAt(0).toUpperCase() + s.slice(1)`. Upper-casing is ASCII-only, which
      is exact for the words of `[a-zA-Z]` it is applied to: the same letters,
      the same length, the first one in upper case. */
  function Capitalize(s: string): (r: string)
    ensures |r| == |s| && (s != [] ==> r[1..] == s[1..])
    ensures (forall c | c in s :: IsAsciiLetter(c)) ==>
      (forall c | c in r :: IsAsciiLetter(c)) &&
      (r != [] ==> IsAsciiUpper(r[0]) && AsciiToLower(r[0]) == AsciiToLower(s[0]))
  {
    if s == [] then [] else [AsciiToUpper(s[0])] + s[1..]
  }
}
