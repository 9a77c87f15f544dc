/** Python string behaviour the pipeline relies on: `str.strip`, prefix and
    suffix tests, substring search, and the code-point order `sorted` uses. */
module Text {

  /** Inclusive code-point ranges of the characters for which Python's
      `str.isspace()` holds; these are what `str.strip()` removes when called
      without an argument. */
  const SpaceRanges: seq<(char, char)> := [
    ('\t', '\r'), ('\U{1c}', '\U{1f}'), (' ', ' '), ('\U{85}', '\U{85}'),
    ('\U{a0}', '\U{a0}'), ('\U{1680}', '\U{1680}'), ('\U{2000}', '\U{200a}'),
    ('\U{2028}', '\U{2029}'), ('\U{202f}', '\U{202f}'), ('\U{205f}', '\U{205f}'),
    ('\U{3000}', '\U{3000}')]

  predicate InRanges(c: char, ranges: seq<(char, char)>) {
    |ranges| > 0 && (ranges[0].0 <= c <= ranges[0].1 || InRanges(c, ranges[1..]))
  }

  predicate IsSpace(c: char) {
    InRanges(c, SpaceRanges)
  }

  /** Every range lies at or above the tab character. */
  lemma {:induction false} BelowRangesNotIn(c: char, ranges: seq<(char, char)>)
    requires forall k :: 0 <= k < |ranges| ==> c < ranges[k].0
    ensures !InRanges(c, ranges)
  {
    if |ranges| > 0 {
      BelowRangesNotIn(c, ranges[1..]);
    }
  }

  /** No printable ASCII character other than the space is white space. */
  lemma VisibleAsciiNotSpace(c: char)
    requires '!' <= c <= '~'
    ensures !IsSpace(c)
  {
    var rs := SpaceRanges;
    BelowRangesNotIn(c, rs[3..]);
    assert rs[2..][1..] == rs[3..];
    assert !InRanges(c, rs[2..]);
    assert rs[1..][1..] == rs[2..];
    assert !InRanges(c, rs[1..]);
  }

  /** The ASCII space is white space. */
  lemma AsciiSpaceIsSpace()
    ensures IsSpace(' ')
  {
    var rs := SpaceRanges;
    assert rs[2..][0] == (' ', ' ');
    assert InRanges(' ', rs[2..]);
    assert rs[1..][1..] == rs[2..];
    assert InRanges(' ', rs[1..]);
  }

  /** `\d`, restricted to ASCII digits. */
  predicate IsDigit(c: char) {
    '0' <= c <= '9'
  }

  predicate AllDigits(d: string) {
    forall i :: 0 <= i < |d| ==> IsDigit(d[i])
  }

  /** The character sets the pipeline strips: `str.strip()` removes white
      space, `str.strip("/")` removes slashes. */
  datatype StripSet = WhiteSpace | Slashes

  predicate InSet(drop: StripSet, c: char) {
    match drop
    case WhiteSpace => IsSpace(c)
    case Slashes => c == '/'
  }

  /** `s` without its longest prefix of characters in `drop`. */
  function TrimStart(s: string, drop: StripSet): (r: string)
    ensures |r| <= |s| && r == s[|s| - |r|..]
    ensures forall i :: 0 <= i < |s| - |r| ==> InSet(drop, s[i])
    ensures r == [] || !InSet(drop, r[0])
  {
    if |s| > 0 && InSet(drop, s[0]) then TrimStart(s[1..], drop) else s
  }

  /** `s` without its longest suffix of characters in `drop`. */
  function TrimEnd(s: string, drop: StripSet): (r: string)
    ensures |r| <= |s| && r == s[..|r|]
    ensures forall i :: |r| <= i < |s| ==> InSet(drop, s[i])
    ensures r == [] || !InSet(drop, r[|r| - 1])
  {
    if |s| > 0 && InSet(drop, s[|s| - 1]) then TrimEnd(s[..|s| - 1], drop) else s
  }

  /** How many characters `StripBy` cuts from the front of `s`. */
  function StripOffset(s: string, drop: StripSet): (a: nat)
    ensures a <= |s|
  {
    |s| - |TrimStart(s, drop)|
  }

  /** Python's `s.strip(chars)` for the characters `chars` of `drop`:
      the result is the slice of `s` starting at `StripOffset`, everything cut off
      on either side is in `drop`, and the result neither starts nor ends with
      such a character. */
  function StripBy(s: string, drop: StripSet): (r: string)
    ensures StripOffset(s, drop) + |r| <= |s|
    ensures r == s[StripOffset(s, drop)..StripOffset(s, drop) + |r|]
    ensures forall i :: 0 <= i < StripOffset(s, drop) ==> InSet(drop, s[i])
    ensures forall i :: StripOffset(s, drop) + |r| <= i < |s| ==> InSet(drop, s[i])
    ensures r == [] || (!InSet(drop, r[0]) && !InSet(drop, r[|r| - 1]))
  {
    TrimEnd(TrimStart(s, drop), drop)
  }

  /** Python's `s.strip()`. */
  function Strip(s: string): string {
    StripBy(s, WhiteSpace)
  }

  /** A string that `strip` leaves alone: empty, or not starting or ending in white space. */
  predicate IsStripped(s: string) {
    s == [] || (!IsSpace(s[0]) && !IsSpace(s[|s| - 1]))
  }

  lemma StripIsStripped(s: string)
    ensures IsStripped(Strip(s))
  {
  }

  /** Stripping a stripped string changes nothing; in particular `strip` is idempotent. */
  lemma StrippedFixed(s: string)
    requires IsStripped(s)
    ensures Strip(s) == s
  {
    assert TrimStart(s, WhiteSpace) == s;
  }

  /** `s.strip()` is empty exactly when every character of `s` is white space. */
  lemma StripEmptyIff(s: string)
    ensures Strip(s) == [] <==> forall i :: 0 <= i < |s| ==> IsSpace(s[i])
  {
    var r, a := Strip(s), StripOffset(s, WhiteSpace);
    assert |r| > 0 ==> r[0] == s[a];
  }

  predicate StartsWith(s: string, p: string) {
    |p| <= |s| && s[..|p|] == p
  }

  predicate EndsWith(s: string, p: string) {
    |p| <= |s| && s[|s| - |p|..] == p
  }

  /** `sub` occurs in `s` starting at index `i`. */
  predicate OccursAt(s: string, sub: string, i: int) {
    0 <= i <= |s| && StartsWith(s[i..], sub)
  }

  /** Python's `sub in s`. */
  function Contains(s: string, sub: string): (b: bool)
    ensures b <==> exists i :: OccursAt(s, sub, i)
  {
    if StartsWith(s, sub) then
      assert OccursAt(s, sub, 0);
      true
    else if |s| == 0 then
      false
    else
      var b := Contains(s[1..], sub);
      assert forall i :: OccursAt(s[1..], sub, i) <==> OccursAt(s, sub, i + 1) by {
        forall i ensures OccursAt(s[1..], sub, i) <==> OccursAt(s, sub, i + 1) {
          if 0 <= i <= |s| - 1 {
            assert s[1..][i..] == s[i + 1..];
          }
        }
      }
      assert forall i :: OccursAt(s, sub, i) ==> i == 0 || OccursAt(s[1..], sub, i - 1);
      b
  }

  /** `parts` joined with `sep` between consecutive elements (Python's `sep.join(parts)`). */
  function Join(parts: seq<string>, sep: string): string {
    if |parts| == 0 then ""
    else if |parts| == 1 then parts[0]
    else parts[0] + sep + Join(parts[1..], sep)
  }

  /** Python's `a < b` on str: lexicographic by code point, a proper prefix first. */
  predicate Less(a: string, b: string) {
    if |a| == 0 then |b| > 0
    else if |b| == 0 then false
    else if a[0] != b[0] then a[0] < b[0]
    else Less(a[1..], b[1..])
  }

  lemma {:induction false} LessIrreflexive(a: string)
    ensures !Less(a, a)
  {
    if |a| > 0 {
      LessIrreflexive(a[1..]);
    }
  }

  lemma {:induction false} LessTransitive(a: string, b: string, c: string)
    requires Less(a, b) && Less(b, c)
    ensures Less(a, c)
  {
    if |a| > 0 && |b| > 0 && |c| > 0 && a[0] == b[0] && b[0] == c[0] {
      LessTransitive(a[1..], b[1..], c[1..]);
    }
  }

  lemma {:induction false} LessTotal(a: string, b: string)
    ensures a == b || Less(a, b) || Less(b, a)
  {
    if |a| > 0 && |b| > 0 && a[0] == b[0] {
      LessTotal(a[1..], b[1..]);
      if a[1..] == b[1..] {
        assert a == [a[0]] + a[1..] && b == [b[0]] + b[1..];
      }
    }
  }

  lemma LessAsymmetric(a: string, b: string)
    requires Less(a, b)
    ensures !Less(b, a)
  {
    if Less(b, a) {
      LessTransitive(a, b, a);
      LessIrreflexive(a);
    }
  }

  /** Every element strictly below the next: sorted and free of duplicates. */
  predicate StrictlySorted(xs: seq<string>) {
    forall i, j :: 0 <= i < j < |xs| ==> Less(xs[i], xs[j])
  }

  /** `xs` with `k` added at its place, unless it is already there. */
  function InsertSorted(xs: seq<string>, k: string): (r: seq<string>)
    requires StrictlySorted(xs)
    ensures StrictlySorted(r)
    ensures forall x :: x in r <==> x in xs || x == k
  {
    if |xs| == 0 then [k]
    else if xs[0] == k then xs
    else if Less(k, xs[0]) then
      assert forall j :: 0 < j < |xs| ==> Less(k, xs[j]) by {
        forall j | 0 < j < |xs| ensures Less(k, xs[j]) {
          LessTransitive(k, xs[0], xs[j]);
        }
      }
      [k] + xs
    else
      LessTotal(k, xs[0]);
      var rest := InsertSorted(xs[1..], k);
      assert forall x :: x in xs <==> x == xs[0] || x in xs[1..];
      forall x | x in rest ensures Less(xs[0], x) {
        if x != k {
          var j :| 0 <= j < |xs[1..]| && xs[1..][j] == x;
          assert xs[j + 1] == x;
        }
      }
      [xs[0]] + rest
  }

  /** Python's `sorted(set(xs))`. */
  function SortedDistinct(xs: seq<string>): (r: seq<string>)
    ensures StrictlySorted(r)
    ensures forall x :: x in r <==> x in xs
  {
    if |xs| == 0 then []
    else
      var r := InsertSorted(SortedDistinct(xs[..|xs| - 1]), xs[|xs| - 1]);
      assert forall x :: x in xs <==> x in xs[..|xs| - 1] || x == xs[|xs| - 1];
      r
  }

  /** There is one strictly sorted sequence per finite set of strings, so the
      two contracts above pin their results down completely. */
  lemma {:induction false} StrictlySortedUnique(a: seq<string>, b: seq<string>)
    requires StrictlySorted(a) && StrictlySorted(b)
    requires forall x :: x in a <==> x in b
    ensures a == b
  {
    assert |a| > 0 ==> a[0] in a;
    assert |b| > 0 ==> b[0] in b;
    if |a| > 0 && |b| > 0 {
      var i :| 0 <= i < |a| && a[i] == b[0];
      var j :| 0 <= j < |b| && b[j] == a[0];
      if i > 0 && j > 0 {
        LessAsymmetric(a[0], b[0]);
      }
      assert a[0] == b[0];
      LessIrreflexive(a[0]);
      forall x ensures x in a[1..] <==> x in b[1..] {
        assert x in a[1..] ==> x in a && Less(a[0], x);
        assert x in b[1..] ==> x in b && Less(b[0], x);
        assert x in a && x != a[0] ==> x in a[1..];
        assert x in b && x != b[0] ==> x in b[1..];
      }
      StrictlySortedUnique(a[1..], b[1..]);
      assert a == [a[0]] + a[1..] && b == [b[0]] + b[1..];
    }
  }
}
