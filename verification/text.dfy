/**
  The two string normalisations the controllers apply to submitted fields:
  Python's `str.strip()` and `str.lower()`.
*/
module Text {

  /** Python's `str.isspace()` for one character: the characters `strip()` removes. */
  predicate IsSpace(c: char) {
    || ('\U{0009}' <= c <= '\U{000D}')
    || ('\U{001C}' <= c <= '\U{0020}')
    || c == '\U{0085}' || c == '\U{00A0}' || c == '\U{1680}'
    || ('\U{2000}' <= c <= '\U{200A}')
    || c == '\U{2028}' || c == '\U{2029}' || c == '\U{202F}' || c == '\U{205F}' || c == '\U{3000}'
  }

  /** Python's `str.lstrip()`: drops the longest whitespace prefix. */
  function TrimStart(s: string): (r: string)
    ensures |r| <= |s| && r == s[|s| - |r|..]
    ensures forall k :: 0 <= k < |s| - |r| ==> IsSpace(s[k])
    ensures r == [] || !IsSpace(r[0])
  {
    if |s| > 0 && IsSpace(s[0]) then TrimStart(s[1..]) else s
  }

  /** Python's `str.rstrip()`: drops the longest whitespace suffix. */
  function TrimEnd(s: string): (r: string)
    ensures |r| <= |s| && r == s[..|r|]
    ensures forall k :: |r| <= k < |s| ==> IsSpace(s[k])
    ensures r == [] || !IsSpace(r[|r| - 1])
  {
    if |s| > 0 && IsSpace(s[|s| - 1]) then TrimEnd(s[..|s| - 1]) else s
  }

  /** Python's `str.strip()`. */
  function Strip(s: string): (r: string)
    ensures |r| <= |s|
    ensures r == [] || (!IsSpace(r[0]) && !IsSpace(r[|r| - 1]))
  {
    TrimEnd(TrimStart(s))
  }

  /** Python's `str.lower()` on one character, restricted to ASCII letters. */
  function LowerChar(c: char): char
  {
    if 'A' <= c <= 'Z' then (c as int - 'A' as int + 'a' as int) as char else c
  }

  /** Python's `str.lower()`, restricted to ASCII letters. */
  function Lower(s: string): (r: string)
    ensures |r| == |s|
    ensures forall i :: 0 <= i < |s| ==> r[i] == LowerChar(s[i])
  {
    seq(|s|, i requires 0 <= i < |s| => LowerChar(s[i]))
  }

  /**
    `Strip` removes a whitespace prefix and a whitespace suffix and nothing else:
    its result is the infix of `s` that starts at `start`.
  */
  lemma StripIsInfix(s: string) returns (start: nat)
    ensures start + |Strip(s)| <= |s|
    ensures Strip(s) == s[start..start + |Strip(s)|]
    ensures forall k :: 0 <= k < start ==> IsSpace(s[k])
    ensures forall k :: start + |Strip(s)| <= k < |s| ==> IsSpace(s[k])
  {
    var t := TrimStart(s);
    start := |s| - |t|;
    var r := TrimEnd(t);
    assert Strip(s) == r;
    assert t == s[start..];
    assert r == t[..|r|];
    assert r == s[start..start + |r|];
    forall k | start + |r| <= k < |s|
      ensures IsSpace(s[k])
    {
      assert s[k] == t[k - start];
    }
  }

  /** Stripping twice is stripping once. */
  lemma StripIdempotent(s: string)
    ensures Strip(Strip(s)) == Strip(s)
  {
    var r := Strip(s);
    assert TrimStart(r) == r;
    assert TrimEnd(r) == r;
  }

  /** Lower-casing never turns a character into whitespace or back. */
  lemma LowerCharKeepsSpace(c: char)
    ensures IsSpace(LowerChar(c)) == IsSpace(c)
  {
  }

  lemma {:induction false} LowerTrimStart(s: string)
    ensures Lower(TrimStart(s)) == TrimStart(Lower(s))
    decreases |s|
  {
    if |s| > 0 {
      LowerCharKeepsSpace(s[0]);
      assert Lower(s)[0] == LowerChar(s[0]);
      if IsSpace(s[0]) {
        assert Lower(s)[1..] == Lower(s[1..]);
        LowerTrimStart(s[1..]);
        assert TrimStart(Lower(s)) == TrimStart(Lower(s)[1..]);
      } else {
        assert TrimStart(s) == s;
        assert TrimStart(Lower(s)) == Lower(s);
      }
    }
  }

  lemma {:induction false} LowerTrimEnd(s: string)
    ensures Lower(TrimEnd(s)) == TrimEnd(Lower(s))
    decreases |s|
  {
    if |s| > 0 {
      var n := |s| - 1;
      LowerCharKeepsSpace(s[n]);
      assert Lower(s)[n] == LowerChar(s[n]);
      if IsSpace(s[n]) {
        assert Lower(s)[..n] == Lower(s[..n]);
        LowerTrimEnd(s[..n]);
        assert TrimEnd(Lower(s)) == TrimEnd(Lower(s)[..n]);
      } else {
        assert TrimEnd(s) == s;
        assert TrimEnd(Lower(s)) == Lower(s);
      }
    }
  }

  /**
    Lower-casing and stripping commute, so `s.lower().strip()` (how registration
    stores an email) equals `s.strip().lower()` (how login looks one up).
  */
  lemma LowerStripCommute(s: string)
    ensures Lower(Strip(s)) == Strip(Lower(s))
  {
    LowerTrimStart(s);
    LowerTrimEnd(TrimStart(s));
  }

  /** Lower-casing twice is lower-casing once. */
  lemma LowerIdempotent(s: string)
    ensures Lower(Lower(s)) == Lower(s)
  {
  }
}
