/** The two string operations the loaders apply to drug names:
    Python's `str.strip()` and `str.lower()`. */
module Text {

  /** The characters Python's `str.isspace` accepts: Unicode white space
      together with the separator controls U+001C to U+001F. */
  predicate IsSpace(c: char) {
    var n := c as int;
    || (0x09 <= n <= 0x0D)
    || (0x1C <= n <= 0x20)
    || n == 0x85
    || n == 0xA0
    || n == 0x1680
    || (0x2000 <= n <= 0x200A)
    || n == 0x2028
    || n == 0x2029
    || n == 0x202F
    || n == 0x205F
    || n == 0x3000
  }

  predicate AllSpace(s: string) {
    forall i :: 0 <= i < |s| ==> IsSpace(s[i])
  }

  /** No white space at either end: the shape `strip()` leaves behind. */
  predicate Trimmed(s: string) {
    s == [] || (!IsSpace(s[0]) && !IsSpace(s[|s| - 1]))
  }

  /** Drops the leading white space; what is dropped is all white space and
      what remains is a suffix of `s`. */
  function StripStart(s: string): (r: string)
    ensures |r| <= |s|
    ensures r == [] || !IsSpace(r[0])
  {
    if s != [] && IsSpace(s[0]) then StripStart(s[1..]) else s
  }

  lemma {:induction false} StripStartDropsSpace(s: string)
    ensures StripStart(s) == s[|s| - |StripStart(s)|..]
    ensures AllSpace(s[..|s| - |StripStart(s)|])
  {
    if s != [] && IsSpace(s[0]) {
      StripStartDropsSpace(s[1..]);
      assert s[1..][|s| - 1 - |StripStart(s)|..] == s[|s| - |StripStart(s)|..];
      var k := |s| - |StripStart(s)|;
      assert forall i :: 1 <= i < k ==> s[..k][i] == s[1..][..k - 1][i - 1];
    }
  }

  /** Drops the trailing white space; what is dropped is all white space and
      what remains is a prefix of `s`. */
  function StripEnd(s: string): (r: string)
    ensures |r| <= |s|
    ensures r == [] || !IsSpace(r[|r| - 1])
    ensures r == [] || r[0] == s[0]
  {
    if s != [] && IsSpace(s[|s| - 1]) then StripEnd(s[..|s| - 1]) else s
  }

  lemma {:induction false} StripEndDropsSpace(s: string)
    ensures StripEnd(s) == s[..|StripEnd(s)|]
    ensures AllSpace(s[|StripEnd(s)|..])
  {
    if s != [] && IsSpace(s[|s| - 1]) {
      StripEndDropsSpace(s[..|s| - 1]);
      assert s[..|s| - 1][..|StripEnd(s)|] == s[..|StripEnd(s)|];
      var k := |StripEnd(s)|;
      assert forall i :: 0 <= i < |s| - 1 - k ==> s[k..][i] == s[..|s| - 1][k..][i];
    }
  }

  /** Python's `str.strip()` with no argument. */
  function Strip(s: string): (r: string)
    ensures Trimmed(r)
    ensures |r| <= |s|
  {
    StripEnd(StripStart(s))
  }

  /** `Strip` removes white space only, and only at the two ends: `s` is the
      result framed by two runs of white space. */
  lemma StripFrames(s: string)
    ensures var k := |s| - |StripStart(s)|;
            && k + |Strip(s)| <= |s|
            && s == s[..k] + Strip(s) + s[k + |Strip(s)|..]
            && AllSpace(s[..k])
            && AllSpace(s[k + |Strip(s)|..])
  {
    StripStartDropsSpace(s);
    StripEndDropsSpace(StripStart(s));
    SpaceFrame(s, StripStart(s), Strip(s));
  }

  /** White space before a suffix `t` of `s`, and after a prefix `r` of `t`,
      frames `r` inside `s`. */
  lemma SpaceFrame(s: string, t: string, r: string)
    requires |t| <= |s| && t == s[|s| - |t|..] && AllSpace(s[..|s| - |t|])
    requires |r| <= |t| && r == t[..|r|] && AllSpace(t[|r|..])
    ensures var k := |s| - |t|;
            && k + |r| <= |s|
            && s == s[..k] + r + s[k + |r|..]
            && AllSpace(s[..k])
            && AllSpace(s[k + |r|..])
  {
    var k := |s| - |t|;
    assert r == s[k..k + |r|];
    assert t[|r|..] == s[k + |r|..];
    assert s[..k] + s[k..k + |r|] == s[..k + |r|];
    assert s[..k + |r|] + s[k + |r|..] == s;
  }

  lemma {:induction false} StripStartOfSpaces(a: string, t: string)
    requires AllSpace(a)
    requires t == [] || !IsSpace(t[0])
    ensures StripStart(a + t) == t
  {
    if a == [] {
      assert a + t == t;
    } else {
      assert (a + t)[1..] == a[1..] + t;
      StripStartOfSpaces(a[1..], t);
    }
  }

  lemma {:induction false} StripEndOfSpaces(t: string, b: string)
    requires AllSpace(b)
    requires t == [] || !IsSpace(t[|t| - 1])
    ensures StripEnd(t + b) == t
  {
    if b == [] {
      assert t + b == t;
    } else {
      assert (t + b)[..|t + b| - 1] == t + b[..|b| - 1];
      StripEndOfSpaces(t, b[..|b| - 1]);
    }
  }

  /** The result of `Strip` is characterised independently of how it is
      computed: a trimmed text framed by white space strips to itself. */
  lemma StripUnique(a: string, m: string, b: string)
    requires AllSpace(a) && AllSpace(b) && Trimmed(m)
    ensures Strip(a + m + b) == m
  {
    if m == [] {
      assert a + m + b == (a + b) + [];
      StripStartOfSpaces(a + b, []);
    } else {
      assert a + m + b == a + (m + b);
      StripStartOfSpaces(a, m + b);
      StripEndOfSpaces(m, b);
    }
  }

  /** Stripping twice is stripping once. */
  lemma StripIdempotent(s: string)
    ensures Strip(Strip(s)) == Strip(s)
  {
    var r := Strip(s);
    assert [] + r + [] == r;
    StripUnique([], r, []);
  }

  /** Python's `str.lower()` on one character, restricted to ASCII letters. */
  function LowerChar(c: char): char {
    if 'A' <= c <= 'Z' then (c as int + 32) as char else c
  }

  /** `str.lower()` on ASCII text: each capital letter becomes its small
      letter, 32 code points higher; every other character stays. */
  function Lower(s: string): (r: string)
    ensures |r| == |s|
    ensures forall i :: 0 <= i < |s| ==>
              if 'A' <= s[i] <= 'Z' then r[i] as int == s[i] as int + 32 else r[i] == s[i]
  {
    seq(|s|, i requires 0 <= i < |s| => LowerChar(s[i]))
  }

  /** The name test both search paths use: `a.lower() == b.lower()`. */
  predicate SameIgnoringCase(a: string, b: string) {
    Lower(a) == Lower(b)
  }

  /** Two characters that differ at most in the case of an ASCII letter. */
  predicate SameLetterIgnoringCase(x: char, y: char) {
    || x == y
    || ('A' <= x <= 'Z' && y as int == x as int + 32)
    || ('A' <= y <= 'Z' && x as int == y as int + 32)
  }

  /** The name test compares position by position: two texts are equal
      ignoring case exactly when they have the same length and each pair of
      characters differs at most in the case of an ASCII letter. */
  lemma SameIgnoringCaseSpec(a: string, b: string)
    ensures SameIgnoringCase(a, b) <==>
              |a| == |b| && forall i :: 0 <= i < |a| ==> SameLetterIgnoringCase(a[i], b[i])
  {
    if |a| == |b| {
      forall i | 0 <= i < |a| ensures Lower(a)[i] == Lower(b)[i] <==> SameLetterIgnoringCase(a[i], b[i]) {
        LowerCharSame(a[i], b[i]);
      }
      if forall i :: 0 <= i < |a| ==> SameLetterIgnoringCase(a[i], b[i]) {
        assert Lower(a) == Lower(b);
      }
    }
  }

  lemma LowerCharSame(x: char, y: char)
    ensures LowerChar(x) == LowerChar(y) <==> SameLetterIgnoringCase(x, y)
  {
  }

  /** Lower-casing is idempotent and leaves no upper-case ASCII letter. */
  lemma LowerIdempotent(s: string)
    ensures Lower(Lower(s)) == Lower(s)
    ensures forall i :: 0 <= i < |s| ==> !('A' <= Lower(s)[i] <= 'Z')
  {
  }

  /** Lower-casing neither creates nor removes white space at the ends. */
  lemma LowerKeepsTrimmed(s: string)
    ensures Trimmed(Lower(s)) <==> Trimmed(s)
  {
    if s != [] {
      assert Lower(s)[0] == LowerChar(s[0]);
      assert Lower(s)[|s| - 1] == LowerChar(s[|s| - 1]);
    }
  }

  /** A stripped name never equals, ignoring case, a query that carries white
      space at an end; this is why every caller strips its query first. */
  lemma UntrimmedQueryNeverMatches(name: string, query: string)
    requires Trimmed(name)
    requires !Trimmed(query)
    ensures !SameIgnoringCase(name, query)
  {
    LowerKeepsTrimmed(name);
    LowerKeepsTrimmed(query);
  }
}
