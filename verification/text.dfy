/** The string operations the pages rely on: `trim`, `replace` with a string
    pattern, and `slice(0, n)`, with JavaScript's semantics. A `string` here is a
    sequence of code points, while JavaScript counts UTF-16 code units; the two
    agree on characters of the Basic Multilingual Plane. */
module Text {

  /** The code points `String.prototype.trim` removes: ECMAScript WhiteSpace and
      LineTerminator characters. */
  predicate IsWhitespace(c: char) {
    || c == ' ' || c == '\t' || c == '\n' || c == '\r'
    || c == '\U{000B}' || c == '\U{000C}' || c == '\U{00A0}' || c == '\U{1680}'
    || ('\U{2000}' <= c <= '\U{200A}')
    || c == '\U{2028}' || c == '\U{2029}' || c == '\U{202F}' || c == '\U{205F}'
    || c == '\U{3000}' || c == '\U{FEFF}'
  }

  predicate AllWhitespace(s: string) {
    forall i :: 0 <= i < |s| ==> IsWhitespace(s[i])
  }

  /** Neither end of `s` is whitespace (vacuously true of the empty string). */
  predicate Tight(s: string) {
    s == [] || (!IsWhitespace(s[0]) && !IsWhitespace(s[|s| - 1]))
  }

  /** `s.trim()`: `s` without its leading and trailing whitespace, peeled one
      character at a time from the front, then from the back. */
  function Trim(s: string): (r: string)
    ensures Tight(r)
    ensures r == [] <==> AllWhitespace(s)
    decreases |s|
  {
    if s == [] then s
    else if IsWhitespace(s[0]) then
      assert AllWhitespace(s) <==> AllWhitespace(s[1..]) by {
        assert forall i :: 0 < i < |s| ==> s[i] == s[1..][i - 1];
      }
      Trim(s[1..])
    else if IsWhitespace(s[|s| - 1]) then
      assert !AllWhitespace(s) && !AllWhitespace(s[..|s| - 1]);
      Trim(s[..|s| - 1])
    else
      s
  }

  /** Trimming strips exactly the whitespace padding around a tight core: a string
      made of whitespace, a tight core and whitespace trims to that core. */
  lemma {:induction false} TrimPadded(a: string, t: string, b: string)
    requires AllWhitespace(a) && AllWhitespace(b) && Tight(t)
    ensures Trim(a + t + b) == t
    decreases |a| + |b|
  {
    var s := a + t + b;
    if a != [] {
      assert s[0] == a[0];
      assert s[1..] == a[1..] + t + b;
      TrimPadded(a[1..], t, b);
    } else if b != [] && t == [] {
      assert s == b;
      assert s[1..] == [] + t + b[1..];
      TrimPadded([], t, b[1..]);
    } else if b != [] {
      assert s == t + b;
      assert s[0] == t[0] && s[|s| - 1] == b[|b| - 1];
      assert s[..|s| - 1] == [] + t + b[..|b| - 1];
      TrimPadded([], t, b[..|b| - 1]);
    } else {
      assert s == t;
    }
  }

  /** Trimming twice is trimming once. */
  lemma TrimIdempotent(s: string)
    ensures Trim(Trim(s)) == Trim(s)
  {
    TrimPadded([], Trim(s), []);
    assert [] + Trim(s) + [] == Trim(s);
  }

  /** `pat` occurs in `s` starting at index `i`. */
  predicate OccursAt(s: string, pat: string, i: nat) {
    i + |pat| <= |s| && s[i..i + |pat|] == pat
  }

  /** `i` is the leftmost index at which `pat` occurs in `s`. */
  predicate FirstOccurrence(s: string, pat: string, i: nat) {
    OccursAt(s, pat, i) && forall j: nat :: j < i ==> !OccursAt(s, pat, j)
  }

  /** An occurrence in the tail of `s` is an occurrence in `s`, one index later. */
  lemma OccursInTail(s: string, pat: string, j: nat)
    requires s != []
    ensures OccursAt(s[1..], pat, j) <==> OccursAt(s, pat, j + 1)
  {
    if j + 1 + |pat| <= |s| {
      assert s[1..][j..j + |pat|] == s[j + 1..j + 1 + |pat|];
    }
  }

  /** `s.replace(pat, rep)` with a string pattern: only the leftmost occurrence of
      `pat` is replaced; without one, `s` comes back unchanged. */
  function ReplaceFirst(s: string, pat: string, rep: string): (r: string)
    ensures (forall i: nat :: !OccursAt(s, pat, i)) ==> r == s
    ensures forall i: nat :: FirstOccurrence(s, pat, i) ==> r == s[..i] + rep + s[i + |pat|..]
    decreases |s|
  {
    if |pat| <= |s| && s[..|pat|] == pat then
      assert OccursAt(s, pat, 0);
      rep + s[|pat|..]
    else if s == [] then
      s
    else
      var tail := ReplaceFirst(s[1..], pat, rep);
      assert !OccursAt(s, pat, 0);
      forall j: nat ensures OccursAt(s[1..], pat, j) <==> OccursAt(s, pat, j + 1) {
        OccursInTail(s, pat, j);
      }
      forall i: nat | FirstOccurrence(s, pat, i)
        ensures [s[0]] + tail == s[..i] + rep + s[i + |pat|..]
      {
        assert i >= 1;
        assert FirstOccurrence(s[1..], pat, i - 1);
        assert s[..i] == [s[0]] + s[1..][..i - 1];
        assert s[i + |pat|..] == s[1..][i - 1 + |pat|..];
      }
      [s[0]] + tail
  }

  /** `s.slice(0, n)`: the first `n` characters, or all of `s` when it is shorter.
      This counts code points, so it matches JavaScript only on text without
      characters outside the Basic Multilingual Plane; the pages apply it only to
      an ISO timestamp, which is plain ASCII. */
  function Prefix(s: string, n: nat): (r: string)
    ensures |r| == if |s| <= n then |s| else n
    ensures r == s[..|r|]
  {
    if |s| <= n then s else s[..n]
  }
}
