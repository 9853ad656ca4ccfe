/** The few Python string operations the scraper relies on, with Python's semantics. */
module Text {

  /** The characters `str.isspace()` accepts, i.e. what `str.strip()` removes when called without arguments. */
  const Whitespace: set<char> := {
    '\t', '\n', '\U{0B}', '\U{0C}', '\r', '\U{1C}', '\U{1D}', '\U{1E}', '\U{1F}', ' ',
    '\U{85}', '\U{A0}', '\U{1680}', '\U{2000}', '\U{2001}', '\U{2002}', '\U{2003}', '\U{2004}',
    '\U{2005}', '\U{2006}', '\U{2007}', '\U{2008}', '\U{2009}', '\U{200A}', '\U{2028}', '\U{2029}',
    '\U{202F}', '\U{205F}', '\U{3000}'
  }

  /** `s.lstrip(chars)`: drops leading characters drawn from `chars`. */
  function StripLeft(s: string, chars: set<char>): string {
    if |s| > 0 && s[0] in chars then StripLeft(s[1..], chars) else s
  }

  /** `s.rstrip(chars)`: drops trailing characters drawn from `chars`. */
  function StripRight(s: string, chars: set<char>): string {
    if |s| > 0 && s[|s| - 1] in chars then StripRight(s[..|s| - 1], chars) else s
  }

  /** `s.strip(chars)`: drops leading and trailing characters drawn from `chars`. */
  function Strip(s: string, chars: set<char>): string {
    StripRight(StripLeft(s, chars), chars)
  }

  /** `lstrip` keeps the longest suffix that does not start with a character of `chars`. */
  lemma {:induction false} StripLeftSpec(s: string, chars: set<char>)
    ensures var r := StripLeft(s, chars);
            |r| <= |s| && r == s[|s| - |r|..]
            && (forall k :: 0 <= k < |s| - |r| ==> s[k] in chars)
            && (r == [] || r[0] !in chars)
  {
    if |s| > 0 && s[0] in chars {
      StripLeftSpec(s[1..], chars);
    }
  }

  /** `rstrip` keeps the longest prefix that does not end with a character of `chars`. */
  lemma {:induction false} StripRightSpec(s: string, chars: set<char>)
    ensures var r := StripRight(s, chars);
            |r| <= |s| && r == s[..|r|]
            && (forall k :: |r| <= k < |s| ==> s[k] in chars)
            && (r == [] || r[|r| - 1] !in chars)
  {
    if |s| > 0 && s[|s| - 1] in chars {
      StripRightSpec(s[..|s| - 1], chars);
    }
  }

  /**
   * `strip` keeps a contiguous run of `s` that neither starts nor ends with a
   * character of `chars`, and everything it drops is drawn from `chars`.
   */
  lemma StripSpec(s: string, chars: set<char>)
    ensures |StripLeft(s, chars)| <= |s|
    ensures var r, i := Strip(s, chars), |s| - |StripLeft(s, chars)|;
            (r == [] || (r[0] !in chars && r[|r| - 1] !in chars))
            && i + |r| <= |s| && r == s[i..i + |r|]
            && (forall k :: 0 <= k < i ==> s[k] in chars)
            && (forall k :: i + |r| <= k < |s| ==> s[k] in chars)
  {
    var left := StripLeft(s, chars);
    StripLeftSpec(s, chars);
    StripRightSpec(left, chars);
    var r := StripRight(left, chars);
    var i := |s| - |left|;
    assert r == s[i..i + |r|];
  }

  /** Stripping twice removes nothing more. */
  lemma StripIdempotent(s: string, chars: set<char>)
    ensures Strip(Strip(s, chars), chars) == Strip(s, chars)
  {
    var r := Strip(s, chars);
    StripSpec(s, chars);
    assert StripLeft(r, chars) == r;
    assert StripRight(r, chars) == r;
  }

  /** `s.rfind(c)`: the index of the last `c` in `s`, or -1 when there is none. */
  function RFind(s: string, c: char): int {
    if |s| == 0 then -1
    else if s[|s| - 1] == c then |s| - 1
    else RFind(s[..|s| - 1], c)
  }

  lemma {:induction false} RFindSpec(s: string, c: char)
    ensures var r := RFind(s, c);
            -1 <= r < |s|
            && (r == -1 <==> c !in s)
            && (r >= 0 ==> s[r] == c && forall k :: r < k < |s| ==> s[k] != c)
  {
    if |s| > 0 && s[|s| - 1] != c {
      RFindSpec(s[..|s| - 1], c);
      assert s == s[..|s| - 1] + [s[|s| - 1]];
    }
  }

  /** `s[:stop]`: a negative `stop` counts from the end, and both ends are clamped to the string. */
  function SliceTo(s: string, stop: int): string {
    if stop >= 0 then s[..if stop <= |s| then stop else |s|]
    else s[..if |s| + stop >= 0 then |s| + stop else 0]
  }

  /** The index of the first `c` in `s`. */
  function IndexOf(s: string, c: char): (i: nat)
    requires c in s
    ensures i < |s| && s[i] == c && c !in s[..i]
  {
    if s[0] == c then 0 else 1 + IndexOf(s[1..], c)
  }

  /** The first `c` in `a + [c] + b` sits right after `a` when `a` holds no `c`. */
  lemma {:induction false} IndexOfPrefix(a: string, c: char, b: string)
    requires c !in a
    ensures IndexOf(a + [c] + b, c) == |a|
  {
    if a != [] {
      assert (a + [c] + b)[1..] == a[1..] + [c] + b;
      IndexOfPrefix(a[1..], c, b);
    }
  }
}
