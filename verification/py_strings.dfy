/**
 * The Python string built-ins that the summariser and the column classifier
 * depend on: `str.strip()`, `str.replace(c, "")`, `str.isdigit()`,
 * `str.lower()` and the substring test `k in s`. Their properties are stated
 * as lemmas beside them, so that callers pay for them only where they use them.
 */
module PyStrings {

  /** The characters Python's `str.isspace` accepts, which `str.strip()` removes from both ends. */
  predicate IsSpace(c: char) {
    ('\t' <= c <= '\r') || ('\U{1C}' <= c <= '\U{1F}') || c == ' ' || c == '\U{85}' || c == '\U{A0}' ||
    c == '\U{1680}' || ('\U{2000}' <= c <= '\U{200A}') || c == '\U{2028}' || c == '\U{2029}' ||
    c == '\U{202F}' || c == '\U{205F}' || c == '\U{3000}'
  }

  /** `s.lstrip()`. */
  function StripStart(s: string): string {
    if s != [] && IsSpace(s[0]) then StripStart(s[1..]) else s
  }

  /** `s.rstrip()`. */
  function StripEnd(s: string): string {
    if s != [] && IsSpace(s[|s| - 1]) then StripEnd(s[..|s| - 1]) else s
  }

  /** `s.strip()`. */
  function Strip(s: string): string {
    StripEnd(StripStart(s))
  }

  /** `lstrip` drops the leading whitespace and nothing else: what remains is a suffix that does not start with whitespace. */
  lemma {:induction false} StripStartSpec(s: string)
    ensures |StripStart(s)| <= |s| && StripStart(s) == s[|s| - |StripStart(s)|..]
    ensures StripStart(s) == [] || !IsSpace(StripStart(s)[0])
    ensures forall k :: 0 <= k < |s| - |StripStart(s)| ==> IsSpace(s[k])
  {
    if s != [] && IsSpace(s[0]) {
      var t := s[1..];
      StripStartSpec(t);
      assert StripStart(s) == StripStart(t);
      assert s[|s| - |StripStart(s)|..] == t[|t| - |StripStart(t)|..];
      forall k | 0 <= k < |s| - |StripStart(s)| ensures IsSpace(s[k]) {
        if k > 0 {
          assert s[k] == t[k - 1];
        }
      }
    }
  }

  /** `rstrip` drops the trailing whitespace and nothing else: what remains is a prefix that does not end with whitespace. */
  lemma {:induction false} StripEndSpec(s: string)
    ensures |StripEnd(s)| <= |s| && StripEnd(s) == s[..|StripEnd(s)|]
    ensures StripEnd(s) == [] || !IsSpace(StripEnd(s)[|StripEnd(s)| - 1])
    ensures forall k :: |StripEnd(s)| <= k < |s| ==> IsSpace(s[k])
  {
    if s != [] && IsSpace(s[|s| - 1]) {
      var t := s[..|s| - 1];
      StripEndSpec(t);
      assert StripEnd(s) == StripEnd(t);
      assert s[..|StripEnd(s)|] == t[..|StripEnd(t)|];
      forall k | |StripEnd(s)| <= k < |s| ensures IsSpace(s[k]) {
        if k < |t| {
          assert s[k] == t[k];
        }
      }
    }
  }

  /**
   * A stripped string neither starts nor ends with whitespace, and is the
   * piece of the original that starts after the leading whitespace and stops
   * where only whitespace is left.
   */
  lemma StripSpec(s: string)
    ensures |Strip(s)| <= |StripStart(s)| <= |s|
    ensures Strip(s) == s[|s| - |StripStart(s)|..][..|Strip(s)|]
    ensures forall k :: 0 <= k < |s| - |StripStart(s)| ==> IsSpace(s[k])
    ensures forall k :: |Strip(s)| <= k < |StripStart(s)| ==> IsSpace(StripStart(s)[k])
    ensures Strip(s) == [] || (!IsSpace(Strip(s)[0]) && !IsSpace(Strip(s)[|Strip(s)| - 1]))
  {
    StripStartSpec(s);
    StripEndSpec(StripStart(s));
    var t := StripStart(s);
    var r := Strip(s);
    if r != [] {
      assert r[0] == t[0];
    }
  }

  /** A string strips to nothing exactly when every character of it is whitespace. */
  lemma StripEmptyIff(s: string)
    ensures Strip(s) == [] <==> forall k :: 0 <= k < |s| ==> IsSpace(s[k])
  {
    StripStartSpec(s);
    var t := StripStart(s);
    StripEndSpec(t);
    if Strip(s) == [] {
      forall k | 0 <= k < |s| ensures IsSpace(s[k]) {
      }
    }
  }

  /** Stripping a string that is already stripped changes nothing. */
  lemma StripIdempotent(s: string)
    ensures Strip(Strip(s)) == Strip(s)
  {
    StripSpec(s);
    var r := Strip(s);
    if r != [] {
      assert StripStart(r) == r;
      assert StripEnd(r) == r;
    }
  }

  /** `s.replace(c, "")`. */
  function RemoveAll(s: string, c: char): string {
    if s == [] then []
    else
      var init, last := s[..|s| - 1], s[|s| - 1];
      if last == c then RemoveAll(init, c) else RemoveAll(init, c) + [last]
  }

  /** `replace(c, "")` deletes every occurrence of `c` and keeps every other character. */
  lemma {:induction false} RemoveAllSpec(s: string, c: char)
    ensures c !in RemoveAll(s, c)
    ensures multiset(RemoveAll(s, c)) == multiset(s)[c := 0]
    ensures |RemoveAll(s, c)| <= |s|
  {
    if s != [] {
      var init, last := s[..|s| - 1], s[|s| - 1];
      assert s == init + [last];
      RemoveAllSpec(init, c);
    }
  }

  /** `replace(c, "")` keeps the order of the other characters: it works piece by piece. */
  lemma {:induction false} RemoveAllAppend(a: string, b: string, c: char)
    ensures RemoveAll(a + b, c) == RemoveAll(a, c) + RemoveAll(b, c)
    decreases |b|
  {
    if b == [] {
      assert a + b == a;
    } else {
      var binit, last := b[..|b| - 1], b[|b| - 1];
      var ab := a + b;
      assert ab[..|ab| - 1] == a + binit && ab[|ab| - 1] == last;
      RemoveAllAppend(a, binit, c);
    }
  }

  /** On one character, `replace(c, "")` deletes exactly a `c`. */
  lemma RemoveAllOne(x: char, c: char)
    ensures RemoveAll([x], c) == if x == c then [] else [x]
  {
    assert [x][..0] == [];
  }

  predicate IsAsciiDigit(c: char) {
    '0' <= c <= '9'
  }

  /** `s.isdigit()` over ASCII: true exactly for a non-empty string of digits. */
  predicate IsDigits(s: string) {
    s != [] && forall k :: 0 <= k < |s| ==> IsAsciiDigit(s[k])
  }

  /** `str.lower()` on one character, over ASCII letters. */
  function LowerChar(c: char): char {
    if 'A' <= c <= 'Z' then (c as int - 'A' as int + 'a' as int) as char else c
  }

  /** `str.lower()` over ASCII letters. */
  function Lower(s: string): string {
    if s == [] then [] else [LowerChar(s[0])] + Lower(s[1..])
  }

  /** Lower-casing works character by character and keeps the length. */
  lemma {:induction false} LowerSpec(s: string)
    ensures |Lower(s)| == |s|
    ensures forall k :: 0 <= k < |s| ==> Lower(s)[k] == LowerChar(s[k])
  {
    if s != [] {
      LowerSpec(s[1..]);
      forall k | 0 < k < |s| ensures Lower(s)[k] == LowerChar(s[k]) {
        assert s[k] == s[1..][k - 1];
      }
    }
  }

  /** Python's `sub in s` on strings. */
  predicate Contains(s: string, sub: string) {
    sub <= s || (s != [] && Contains(s[1..], sub))
  }

  /** `sub` occurs in `s` starting at position `i`. */
  predicate OccursAt(s: string, sub: string, i: int) {
    0 <= i <= |s| - |sub| && s[i..i + |sub|] == sub
  }

  /** `sub in s` holds exactly when `sub` occurs in `s` at some position. */
  lemma {:induction false} ContainsIff(s: string, sub: string)
    ensures Contains(s, sub) <==> exists i :: OccursAt(s, sub, i)
  {
    if sub <= s {
      assert OccursAt(s, sub, 0);
    } else if s != [] {
      var t := s[1..];
      ContainsIff(t, sub);
      if exists i :: OccursAt(s, sub, i) {
        var i :| OccursAt(s, sub, i);
        if i > 0 {
          assert t[i - 1..i - 1 + |sub|] == s[i..i + |sub|];
          assert OccursAt(t, sub, i - 1);
        }
      }
      if exists j :: OccursAt(t, sub, j) {
        var j :| OccursAt(t, sub, j);
        assert s[j + 1..j + 1 + |sub|] == t[j..j + |sub|];
        assert OccursAt(s, sub, j + 1);
      }
    }
  }
}
