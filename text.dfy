/** The handful of Python `str` operations the assistant's rules are built from:
    `strip()`, `lower()`, `find`, `rfind` and `startswith`, on `seq<char>`. */
module Text {

  /** The characters for which Python's `str.isspace()` holds, i.e. those that
      `str.strip()` with no argument removes. */
  predicate IsSpace(c: char) {
    c == ' ' || ('\t' <= c <= '\r') || ('\U{1c}' <= c <= '\U{1f}')
    || c == '\U{85}' || c == '\U{a0}' || c == '\U{1680}'
    || ('\U{2000}' <= c <= '\U{200a}') || c == '\U{2028}' || c == '\U{2029}'
    || c == '\U{202f}' || c == '\U{205f}' || c == '\U{3000}'
  }

  predicate AllSpace(s: string) {
    forall i :: 0 <= i < |s| ==> IsSpace(s[i])
  }

  /** Scanning forward from `k`: the index of the first character that is
      not white space, or `|s|` when there is none. */
  function SkipSpace(s: string, k: nat): (i: nat)
    requires k <= |s|
    ensures k <= i <= |s|
    ensures forall m :: k <= m < i ==> IsSpace(s[m])
    ensures i == |s| || !IsSpace(s[i])
    decreases |s| - k
  {
    if k < |s| && IsSpace(s[k]) then SkipSpace(s, k + 1) else k
  }

  /** Scanning backward from `k`, no further than `lo`: the index just past
      the last character that is not white space, or `lo` when there is none. */
  function SkipSpaceBack(s: string, lo: nat, k: nat): (j: nat)
    requires lo <= k <= |s|
    ensures lo <= j <= k
    ensures forall m :: j <= m < k ==> IsSpace(s[m])
    ensures j == lo || !IsSpace(s[j - 1])
    decreases k
  {
    if lo < k && IsSpace(s[k - 1]) then SkipSpaceBack(s, lo, k - 1) else k
  }

  /** Where `strip()`'s slice of `s` starts: after the leading white space. */
  function StripStart(s: string): nat {
    SkipSpace(s, 0)
  }

  /** Where `strip()`'s slice of `s` ends: before the trailing white space. */
  function StripEnd(s: string): nat {
    SkipSpaceBack(s, StripStart(s), |s|)
  }

  /** Python's `s.strip()`: the two scans meet in the middle, and what lies
      between them neither starts nor ends with white space. */
  function Strip(s: string): (r: string)
    ensures r == [] || (!IsSpace(r[0]) && !IsSpace(r[|r| - 1]))
  {
    s[StripStart(s)..StripEnd(s)]
  }

  /** What `strip()` cuts off on either side of its slice is white space. */
  lemma StripIsSlice(s: string)
    ensures StripStart(s) <= StripEnd(s) <= |s| && Strip(s) == s[StripStart(s)..StripEnd(s)]
    ensures AllSpace(s[..StripStart(s)]) && AllSpace(s[StripEnd(s)..])
  {
    var i, j := StripStart(s), StripEnd(s);
    assert forall m :: 0 <= m < i ==> s[..i][m] == s[m];
    assert forall m :: 0 <= m < |s| - j ==> s[j..][m] == s[j + m];
  }

  /** SkipSpace is determined by what it promises: the scan from `k` stops
      at `i` when `s[k..i]` is white space and `s[i]` is not. */
  lemma {:induction false} SkipSpaceAt(s: string, k: nat, i: nat)
    requires k <= i <= |s|
    requires forall m :: k <= m < i ==> IsSpace(s[m])
    requires i == |s| || !IsSpace(s[i])
    ensures SkipSpace(s, k) == i
    decreases i - k
  {
    if k < i {
      SkipSpaceAt(s, k + 1, i);
    }
  }

  /** Likewise for the backward scan. */
  lemma {:induction false} SkipSpaceBackAt(s: string, lo: nat, k: nat, j: nat)
    requires lo <= j <= k <= |s|
    requires forall m :: j <= m < k ==> IsSpace(s[m])
    requires j == lo || !IsSpace(s[j - 1])
    ensures SkipSpaceBack(s, lo, k) == j
    decreases k - j
  {
    if j < k {
      SkipSpaceBackAt(s, lo, k - 1, j);
    }
  }

  /** Lower-cases one character as Python's `str.lower()` does for the
      ASCII capitals and for KELVIN SIGN (U+212A), the one character outside
      ASCII whose lower case is a single ASCII letter; every other character
      is kept. */
  function LowerChar(c: char): (d: char)
    ensures IsSpace(d) <==> IsSpace(c)
    ensures 'A' <= c <= 'Z' ==> d as int == c as int + 32
  {
    if 'A' <= c <= 'Z' then (c as int + 32) as char
    else if c == '\U{212A}' then 'k'
    else c
  }

  /** Python's `s.lower()`, character by character (see LowerChar). */
  function Lower(s: string): string {
    seq(|s|, i requires 0 <= i < |s| => LowerChar(s[i]))
  }

  /** `lower()` leaves no ASCII capital, and keeps white space where it was. */
  lemma LowerIsLowerCase(s: string)
    ensures |Lower(s)| == |s|
    ensures forall i :: 0 <= i < |s| ==> !('A' <= Lower(s)[i] <= 'Z')
    ensures forall i :: 0 <= i < |s| ==> (IsSpace(Lower(s)[i]) <==> IsSpace(s[i]))
  {
    forall i | 0 <= i < |s| ensures !('A' <= Lower(s)[i] <= 'Z') {
      assert Lower(s)[i] == LowerChar(s[i]);
    }
  }

  /** Lower-casing twice is lower-casing once. */
  lemma LowerIdempotent(s: string)
    ensures Lower(Lower(s)) == Lower(s)
  {
    var r := Lower(s);
    forall i | 0 <= i < |r| ensures LowerChar(r[i]) == r[i] {
      assert r[i] == LowerChar(s[i]);
    }
  }

  /** Python's `s.startswith(prefix)`; every string starts with "". */
  predicate StartsWith(s: string, prefix: string) {
    |prefix| <= |s| && s[..|prefix|] == prefix
  }

  /** Python's `s.find(c)`: the index of the first `c`, or -1 when there is none. */
  function Find(s: string, c: char): (r: int)
    ensures r == -1 <==> c !in s
    ensures r != -1 ==> 0 <= r < |s| && s[r] == c && c !in s[..r]
  {
    if s == [] then -1
    else if s[0] == c then 0
    else
      var k := Find(s[1..], c);
      assert s == [s[0]] + s[1..];
      if k == -1 then -1
      else
        assert s[..k + 1] == [s[0]] + s[1..][..k];
        k + 1
  }

  /** Python's `s.rfind(c)`: the index of the last `c`, or -1 when there is none. */
  function RFind(s: string, c: char): (r: int)
    ensures r == -1 <==> c !in s
    ensures r != -1 ==> 0 <= r < |s| && s[r] == c && c !in s[r + 1..]
  {
    if s == [] then -1
    else if s[|s| - 1] == c then |s| - 1
    else
      var k := RFind(s[..|s| - 1], c);
      assert s == s[..|s| - 1] + [s[|s| - 1]];
      if k == -1 then -1
      else
        assert s[k + 1..] == s[..|s| - 1][k + 1..] + [s[|s| - 1]];
        k
  }

  /** Stripping ignores white-space padding on either side: `strip()` of a
      padded text equals `strip()` of the text itself. */
  lemma StripPadded(pre: string, s: string, post: string)
    requires AllSpace(pre) && AllSpace(post)
    ensures Strip(pre + s + post) == Strip(s)
  {
    var x := pre + s + post;
    var p := |pre|;
    forall m | 0 <= m < |s| ensures x[p + m] == s[m] {
    }
    forall m | 0 <= m < p ensures IsSpace(x[m]) {
      assert x[m] == pre[m];
    }
    forall m | p + |s| <= m < |x| ensures IsSpace(x[m]) {
      assert x[m] == post[m - p - |s|];
    }
    StripEmbedded(x, p, s);
  }

  /** `s` sits at offset `p` of `x` with only white space around it. */
  predicate Embedded(x: string, p: nat, s: string) {
    && p + |s| <= |x|
    && (forall m :: 0 <= m < |s| ==> x[p + m] == s[m])
    && (forall m :: 0 <= m < p ==> IsSpace(x[m]))
    && (forall m :: p + |s| <= m < |x| ==> IsSpace(x[m]))
  }

  /** Stripping a text embedded in white space gives the text's own strip. */
  lemma StripEmbedded(x: string, p: nat, s: string)
    requires Embedded(x, p, s)
    ensures Strip(x) == Strip(s)
  {
    var a, b := StripStart(s), StripEnd(s);
    if a == |s| {
      BlankEmbedded(x, p, s);
    } else {
      StartEmbedded(x, p, s);
      EndEmbedded(x, p, s);
      forall k | 0 <= k < b - a ensures x[p + a..p + b][k] == s[a..b][k] {
        assert x[p + (a + k)] == s[a + k];
      }
      assert x[p + a..p + b] == s[a..b];
    }
  }

  /** A blank text embedded in white space leaves a blank text. */
  lemma BlankEmbedded(x: string, p: nat, s: string)
    requires Embedded(x, p, s) && StripStart(s) == |s|
    ensures StripStart(x) == |x|
  {
    forall m | p <= m < p + |s| ensures IsSpace(x[m]) {
      assert x[p + (m - p)] == s[m - p];
    }
    SkipSpaceAt(x, 0, |x|);
  }

  /** The forward scan of `x` stops where that of `s` does, shifted by `p`. */
  lemma StartEmbedded(x: string, p: nat, s: string)
    requires Embedded(x, p, s) && StripStart(s) < |s|
    ensures StripStart(x) == p + StripStart(s)
  {
    var a := StripStart(s);
    forall m | p <= m < p + a ensures IsSpace(x[m]) {
      assert x[p + (m - p)] == s[m - p];
    }
    assert x[p + a] == s[a];
    SkipSpaceAt(x, 0, p + a);
  }

  /** The backward scan of `x` stops where that of `s` does, shifted by `p`. */
  lemma EndEmbedded(x: string, p: nat, s: string)
    requires Embedded(x, p, s)
    requires StripStart(x) == p + StripStart(s)
    ensures StripEnd(x) == p + StripEnd(s)
  {
    var a, b := StripStart(s), StripEnd(s);
    forall m | p + b <= m < p + |s| ensures IsSpace(x[m]) {
      assert x[p + (m - p)] == s[m - p];
    }
    if b > a {
      assert x[p + (b - 1)] == s[b - 1];
    }
    SkipSpaceBackAt(x, p + a, |x|, p + b);
  }

  /** A text with no white space at either end is its own `strip()`. */
  lemma StripTrimmed(s: string)
    requires s != [] && !IsSpace(s[0]) && !IsSpace(s[|s| - 1])
    ensures Strip(s) == s
  {
    assert StripStart(s) == 0;
    assert StripEnd(s) == |s|;
  }
}
