/** The Python string operations the mapping loader relies on: `str.strip`,
    `str.lower` (for comparing a file suffix), `pathlib.Path.suffix` and `str` of an int. */
module Text {

  /** The characters for which Python's `str.isspace` holds. */
  const Whitespace: seq<char> := [
    ' ', '\t', '\n', '\r', '\U{000B}', '\U{000C}',
    '\U{001C}', '\U{001D}', '\U{001E}', '\U{001F}',
    '\U{0085}', '\U{00A0}', '\U{1680}',
    '\U{2000}', '\U{2001}', '\U{2002}', '\U{2003}', '\U{2004}', '\U{2005}',
    '\U{2006}', '\U{2007}', '\U{2008}', '\U{2009}', '\U{200A}',
    '\U{2028}', '\U{2029}', '\U{202F}', '\U{205F}', '\U{3000}'
  ]

  /** `c` occurs in `cs`. */
  predicate Occurs(c: char, cs: seq<char>)
  {
    |cs| > 0 && (cs[0] == c || Occurs(c, cs[1..]))
  }

  /** Python's `str.isspace` for a single character. */
  predicate IsSpace(c: char)
  {
    Occurs(c, Whitespace)
  }

  predicate AllSpace(s: string)
  {
    forall k :: 0 <= k < |s| ==> IsSpace(s[k])
  }

  /** Neither end of `s` is whitespace. */
  predicate Stripped(s: string)
  {
    s == [] || (!IsSpace(s[0]) && !IsSpace(s[|s| - 1]))
  }

  /** `s[lo..hi]` with whitespace removed from its front, then from its back. */
  function StripRange(s: string, lo: nat, hi: nat): (r: string)
    requires lo <= hi <= |s|
    ensures |r| <= hi - lo && Stripped(r)
    decreases hi - lo
  {
    if lo < hi && IsSpace(s[lo]) then StripRange(s, lo + 1, hi)
    else if lo < hi && IsSpace(s[hi - 1]) then StripRange(s, lo, hi - 1)
    else s[lo..hi]
  }

  /** Python's `str.strip()`. */
  function Strip(s: string): (r: string)
    ensures |r| <= |s| && Stripped(r)
  {
    StripRange(s, 0, |s|)
  }

  /** `r` occurs in `s[lo..hi]` at `i`, with only whitespace around it there. */
  predicate PaddedIn(s: string, lo: nat, hi: nat, r: string, i: int)
    requires lo <= hi <= |s|
  {
    lo <= i <= hi - |r| && r == s[i..i + |r|] && AllSpace(s[lo..i]) && AllSpace(s[i + |r|..hi])
  }

  /** Whitespace just before `s[lo + 1..hi]` widens the padding at the front. */
  lemma PaddedInFront(s: string, lo: nat, hi: nat, r: string, i: int)
    requires lo < hi <= |s| && IsSpace(s[lo]) && PaddedIn(s, lo + 1, hi, r, i)
    ensures PaddedIn(s, lo, hi, r, i)
  {
    assert s[lo..i] == [s[lo]] + s[lo + 1..i];
  }

  /** Whitespace just after `s[lo..hi - 1]` widens the padding at the back. */
  lemma PaddedInBack(s: string, lo: nat, hi: nat, r: string, i: int)
    requires lo < hi <= |s| && IsSpace(s[hi - 1]) && PaddedIn(s, lo, hi - 1, r, i)
    ensures PaddedIn(s, lo, hi, r, i)
  {
    assert s[i + |r|..hi] == s[i + |r|..hi - 1] + [s[hi - 1]];
  }

  /** What `StripRange` keeps lies padded inside `s[lo..hi]`. */
  lemma {:induction false} StripRangeInfix(s: string, lo: nat, hi: nat)
    requires lo <= hi <= |s|
    ensures exists i :: PaddedIn(s, lo, hi, StripRange(s, lo, hi), i)
    decreases hi - lo
  {
    var r := StripRange(s, lo, hi);
    if lo < hi && IsSpace(s[lo]) {
      StripRangeInfix(s, lo + 1, hi);
      var i :| PaddedIn(s, lo + 1, hi, r, i);
      PaddedInFront(s, lo, hi, r, i);
    } else if lo < hi && IsSpace(s[hi - 1]) {
      StripRangeInfix(s, lo, hi - 1);
      var i :| PaddedIn(s, lo, hi - 1, r, i);
      PaddedInBack(s, lo, hi, r, i);
    } else {
      assert PaddedIn(s, lo, hi, r, lo);
    }
  }

  /** `strip` removes only whitespace, and only at the ends: the result is an infix of
      the input with whitespace before and after it. */
  lemma StripInfix(s: string)
    ensures exists i :: PaddedIn(s, 0, |s|, Strip(s), i)
  {
    StripRangeInfix(s, 0, |s|);
    var i :| PaddedIn(s, 0, |s|, StripRange(s, 0, |s|), i);
    assert PaddedIn(s, 0, |s|, Strip(s), i);
  }

  /** Stripping text that has no whitespace at either end leaves it unchanged. */
  lemma StripStripped(s: string)
    requires Stripped(s)
    ensures Strip(s) == s
  {
    assert s[0..|s|] == s;
  }

  /** `strip` is idempotent: trimming a field twice is the same as trimming it once. */
  lemma StripIdempotent(s: string)
    ensures Strip(Strip(s)) == Strip(s)
  {
    StripStripped(Strip(s));
  }

  /** ASCII lower-casing. For comparing against ".csv" and ".json" this agrees with
      Python's `str.lower`: no other character lower-cases into one of those letters. */
  function LowerChar(c: char): char
  {
    if 'A' <= c <= 'Z' then (c as int - 'A' as int + 'a' as int) as char else c
  }

  function Lower(s: string): (r: string)
    ensures |r| == |s|
    ensures forall k :: 0 <= k < |s| ==> r[k] == LowerChar(s[k])
  {
    seq(|s|, k requires 0 <= k < |s| => LowerChar(s[k]))
  }

  /** The suffix test `suffix.lower() == ".csv"` accepts exactly the eight spellings of
      ".csv" in any mix of cases. */
  lemma LowerIsCsv(s: string)
    ensures Lower(s) == ".csv" <==>
              |s| == 4 && s[0] == '.' && (s[1] == 'c' || s[1] == 'C')
              && (s[2] == 's' || s[2] == 'S') && (s[3] == 'v' || s[3] == 'V')
  {
    if |s| == 4 && s[0] == '.' && (s[1] == 'c' || s[1] == 'C')
       && (s[2] == 's' || s[2] == 'S') && (s[3] == 'v' || s[3] == 'V') {
      assert forall k :: 0 <= k < 4 ==> Lower(s)[k] == ".csv"[k];
    }
  }

  /** The suffix test `suffix.lower() == ".json"` accepts exactly ".json" in any mix of cases. */
  lemma LowerIsJson(s: string)
    ensures Lower(s) == ".json" <==>
              |s| == 5 && s[0] == '.' && (s[1] == 'j' || s[1] == 'J') && (s[2] == 's' || s[2] == 'S')
              && (s[3] == 'o' || s[3] == 'O') && (s[4] == 'n' || s[4] == 'N')
  {
    if |s| == 5 && s[0] == '.' && (s[1] == 'j' || s[1] == 'J') && (s[2] == 's' || s[2] == 'S')
       && (s[3] == 'o' || s[3] == 'O') && (s[4] == 'n' || s[4] == 'N') {
      assert forall k :: 0 <= k < 5 ==> Lower(s)[k] == ".json"[k];
    }
  }

  /** Lower-casing twice is lower-casing once. */
  lemma LowerIdempotent(s: string)
    ensures Lower(Lower(s)) == Lower(s)
  {
    assert forall k :: 0 <= k < |s| ==> Lower(Lower(s))[k] == Lower(s)[k];
  }

  /** The part of `p` after its last '/' (all of `p` when it has none). */
  function AfterLastSlash(p: string): (c: string)
    ensures |c| <= |p| && c == p[|p| - |c|..]
    ensures '/' !in c
    ensures |c| < |p| ==> p[|p| - |c| - 1] == '/'
  {
    if |p| == 0 || p[|p| - 1] == '/' then ""
    else
      var c := AfterLastSlash(p[..|p| - 1]);
      assert p[..|p| - 1][|p| - 1 - |c|..] + [p[|p| - 1]] == p[|p| - 1 - |c|..];
      c + [p[|p| - 1]]
  }

  /** `pathlib.PurePosixPath(p).name`: the last component, where empty components
      (repeated or trailing slashes) and "." components do not count. */
  function Name(p: string): (r: string)
    ensures '/' !in r
    ensures |r| <= |p|
    decreases |p|
  {
    var c := AfterLastSlash(p);
    if c != "" && c != "." then c
    else if |c| == |p| then ""
    else Name(p[..|p| - |c| - 1])
  }

  /** The name of `dir/n`, for a component `n` that is neither empty nor ".", is `n`,
      whatever the directory part. */
  lemma NameOfJoin(dir: string, n: string)
    requires '/' !in n && n != "" && n != "."
    ensures Name(dir + "/" + n) == n
  {
    var p := dir + "/" + n;
    var c := AfterLastSlash(p);
    assert p[|p| - |n|..] == n;
    assert p[|p| - |n| - 1] == '/';
    assert forall k :: |p| - |n| <= k < |p| ==> p[k] == n[k - (|p| - |n|)];
    assert forall k :: |p| - |c| <= k < |p| ==> p[k] == c[k - (|p| - |c|)];
    assert |c| <= |n| by {
      assert p[|p| - |n| - 1] == '/';
    }
    assert |c| == |n|;
  }

  /** The index of the last `x` in `s`, or -1. */
  function LastIndexOf(s: string, x: char): (r: int)
    ensures -1 <= r < |s|
    ensures r >= 0 ==> s[r] == x
    ensures forall k :: r < k < |s| ==> s[k] != x
  {
    if |s| == 0 then -1
    else if s[|s| - 1] == x then |s| - 1
    else LastIndexOf(s[..|s| - 1], x)
  }

  /** The suffix of a file name: from its last '.', provided that dot is neither the
      name's first nor its last character; otherwise empty. */
  function NameSuffix(n: string): (r: string)
    ensures r == [] || (2 <= |r| < |n| && r == n[|n| - |r|..] && r[0] == '.' && '.' !in r[1..])
    ensures r == [] ==> |n| < 2 || n[|n| - 1] == '.' || '.' !in n[1..|n| - 1]
  {
    var i := LastIndexOf(n, '.');
    if 0 < i < |n| - 1 then
      assert forall k :: 1 <= k < |n[i..]| ==> n[i..][k] != '.';
      n[i..]
    else
      assert |n| < 2 || n[|n| - 1] == '.' || '.' !in n[1..|n| - 1] by {
        if |n| >= 2 && i <= 0 {
          var mid := n[1..|n| - 1];
          assert forall k :: 0 <= k < |mid| ==> mid[k] == n[k + 1];
        }
      }
      []
  }

  /** `pathlib.PurePosixPath(p).suffix`. */
  function Suffix(p: string): string
  {
    NameSuffix(Name(p))
  }

  function DigitChar(d: nat): char
    requires d < 10
  {
    ('0' as int + d) as char
  }

  /** Decimal digits of `n`, most significant first (Python's `str` of a non-negative int). */
  function Digits(n: nat): (r: string)
    ensures |r| > 0
    ensures forall k :: 0 <= k < |r| ==> '0' <= r[k] <= '9'
    ensures |r| > 1 ==> r[0] != '0'
  {
    if n < 10 then [DigitChar(n)] else Digits(n / 10) + [DigitChar(n % 10)]
  }

  /** The number a string of decimal digits denotes. */
  function DigitsValue(s: string): nat
    requires forall k :: 0 <= k < |s| ==> '0' <= s[k] <= '9'
  {
    if |s| == 0 then 0 else DigitsValue(s[..|s| - 1]) * 10 + (s[|s| - 1] as int - '0' as int)
  }

  /** Rendering a number in decimal and reading it back gives the number. */
  lemma {:induction false} DigitsRoundTrip(n: nat)
    ensures DigitsValue(Digits(n)) == n
  {
    if n >= 10 {
      DigitsRoundTrip(n / 10);
      var r := Digits(n);
      assert r[..|r| - 1] == Digits(n / 10);
    }
  }

  /** Python's `str` of an int. */
  function IntToString(i: int): string
  {
    if i < 0 then "-" + Digits(-i) else Digits(i)
  }
}
