/** String helpers the display and search code relies on: Python's whitespace strip, slicing
    previews, ASCII case folding for `icontains`, `", ".join` and decimal rendering of ids. */
module Text {

  /** Python's `str.isspace()` for a single character. */
  predicate IsSpace(c: char)
  {
    var k := c as int;
    (9 <= k <= 13) || (28 <= k <= 32) || k == 0x85 || k == 0xA0 || k == 0x1680 ||
    (0x2000 <= k <= 0x200A) || k == 0x2028 || k == 0x2029 || k == 0x202F ||
    k == 0x205F || k == 0x3000
  }

  predicate AllSpace(s: string)
  {
    forall i :: 0 <= i < |s| ==> IsSpace(s[i])
  }

  /** No U+0000 in `s`: every text field of the REST serializers refuses a value holding one
      (its `ProhibitNullCharactersValidator`). */
  predicate NulFree(s: string)
  {
    forall i :: 0 <= i < |s| ==> s[i] != '\0'
  }

  predicate IsPrefix(p: string, s: string)
  {
    |p| <= |s| && s[..|p|] == p
  }

  /** `n` occurs somewhere in `h` as a contiguous piece. */
  ghost predicate IsInfix(n: string, h: string)
  {
    exists i :: 0 <= i <= |h| && IsPrefix(n, h[i..])
  }

  /** The index of the first character at or after `i` that is not whitespace, or `|s|`. */
  function SkipSpaces(s: string, i: nat): (r: nat)
    requires i <= |s|
    ensures i <= r <= |s|
    ensures forall k :: i <= k < r ==> IsSpace(s[k])
    ensures r < |s| ==> !IsSpace(s[r])
    decreases |s| - i
  {
    if i < |s| && IsSpace(s[i]) then SkipSpaces(s, i + 1) else i
  }

  /** The index just past the last character of `s[lo..j]` that is not whitespace, or `lo`. */
  function SkipSpacesBack(s: string, lo: nat, j: nat): (r: nat)
    requires lo <= j <= |s|
    ensures lo <= r <= j
    ensures forall k :: r <= k < j ==> IsSpace(s[k])
    ensures r > lo ==> !IsSpace(s[r - 1])
    decreases j
  {
    if j > lo && IsSpace(s[j - 1]) then SkipSpacesBack(s, lo, j - 1) else j
  }

  /** `r` is the piece `s[i..i + |r|]` of `s`, with nothing but whitespace before and after it. */
  predicate SpaceFramed(r: string, s: string, i: nat)
  {
    i + |r| <= |s| && r == s[i..i + |r|] &&
    (forall k :: 0 <= k < i ==> IsSpace(s[k])) &&
    (forall k :: i + |r| <= k < |s| ==> IsSpace(s[k]))
  }

  /** Python's `str.strip()`: the piece of `s` left once whitespace is removed at both ends.
      With `FramedUnique`, these ensures determine the result. */
  function Strip(s: string): (r: string)
    ensures |r| <= |s|
    ensures r == [] <==> AllSpace(s)
    ensures r != [] ==> !IsSpace(r[0]) && !IsSpace(r[|r| - 1])
    ensures exists i: nat :: SpaceFramed(r, s, i)
  {
    var a := SkipSpaces(s, 0);
    var b := SkipSpacesBack(s, a, |s|);
    assert SpaceFramed(s[a..b], s, a);
    s[a..b]
  }

  /** Two framed pieces with non-space ends are the same piece, so the ensures of `Strip`
      determine its result: it is the only such piece of a string that is not blank. */
  lemma FramedUnique(s: string, p: string, i: nat, q: string, j: nat)
    requires p != [] && !IsSpace(p[0]) && !IsSpace(p[|p| - 1]) && SpaceFramed(p, s, i)
    requires q != [] && !IsSpace(q[0]) && !IsSpace(q[|q| - 1]) && SpaceFramed(q, s, j)
    ensures i == j && p == q
  {
    assert s[i] == p[0] && s[i + |p| - 1] == p[|p| - 1];
    assert s[j] == q[0] && s[j + |q| - 1] == q[|q| - 1];
    assert i == j;
    assert |p| == |q|;
  }

  /** U+0000 is not whitespace, so stripping keeps every one: a field holds one after
      trimming exactly when the raw text does. */
  lemma StripKeepsNul(s: string)
    ensures NulFree(Strip(s)) <==> NulFree(s)
  {
    var r := Strip(s);
    var i: nat :| SpaceFramed(r, s, i);
    if !NulFree(s) {
      var k :| 0 <= k < |s| && s[k] == '\0';
      assert !IsSpace(s[k]);
      assert i <= k < i + |r|;
      assert r[k - i] == s[k];
    }
    if !NulFree(r) {
      var k :| 0 <= k < |r| && r[k] == '\0';
      assert s[i + k] == r[k];
    }
  }

  /** Case folding of the letters A to Z; other characters are kept. */
  function LowerChar(c: char): char
  {
    if 'A' <= c <= 'Z' then (c as int + 32) as char else c
  }

  function Lower(s: string): (r: string)
    ensures |r| == |s|
    ensures forall i :: 0 <= i < |s| ==> r[i] == LowerChar(s[i])
  {
    seq(|s|, i requires 0 <= i < |s| => LowerChar(s[i]))
  }

  /** Searches `h` for `n` position by position. */
  function Contains(h: string, n: string): (r: bool)
    ensures r <==> IsInfix(n, h)
    decreases |h|
  {
    if IsPrefix(n, h) then
      assert h[0..] == h;
      true
    else if h == [] then
      false
    else
      InfixStep(h, n);
      Contains(h[1..], n)
  }

  /** When `n` is not at the start of a non-empty `h`, it occurs in `h` exactly when it
      occurs in `h[1..]`. */
  lemma InfixStep(h: string, n: string)
    requires h != [] && !IsPrefix(n, h)
    ensures IsInfix(n, h) <==> IsInfix(n, h[1..])
  {
    if IsInfix(n, h) {
      var i :| 0 <= i <= |h| && IsPrefix(n, h[i..]);
      assert i != 0;
      assert h[1..][i - 1..] == h[i..];
    }
    if IsInfix(n, h[1..]) {
      var i :| 0 <= i <= |h[1..]| && IsPrefix(n, h[1..][i..]);
      assert h[1..][i..] == h[i + 1..];
    }
  }

  /** Django's `icontains` lookup with ASCII case folding. */
  function ContainsIgnoreCase(h: string, n: string): (r: bool)
    ensures r <==> IsInfix(Lower(n), Lower(h))
  {
    Contains(Lower(h), Lower(n))
  }

  /** The longest text a preview keeps before it appends an ellipsis. */
  const PreviewLimit: nat := 50

  /** `s[:50] + '...' if len(s) > 50 else s`. */
  function Preview(s: string): (r: string)
    ensures |r| <= PreviewLimit + 3
    ensures |s| <= PreviewLimit ==> r == s
    ensures |s| > PreviewLimit ==> |r| == PreviewLimit + 3 && r[PreviewLimit..] == "..."
    ensures IsPrefix(s[..Min(|s|, PreviewLimit)], r)
  {
    if |s| > PreviewLimit then s[..PreviewLimit] + "..." else s
  }

  /** Two texts with the same preview agree on their first 50 characters. */
  lemma PreviewsAgree(a: string, b: string)
    requires Preview(a) == Preview(b)
    ensures a[..Min(|a|, PreviewLimit)] == b[..Min(|b|, PreviewLimit)]
  {
    if |a| > PreviewLimit && |b| > PreviewLimit {
      assert a[..PreviewLimit] == Preview(a)[..PreviewLimit] == Preview(b)[..PreviewLimit] == b[..PreviewLimit];
    }
  }

  function Min(a: int, b: int): int
  {
    if a <= b then a else b
  }

  /** Python's `s[:n]`. */
  function Take(s: string, n: nat): (r: string)
    ensures |r| == Min(|s|, n)
    ensures IsPrefix(r, s)
  {
    if |s| <= n then s else s[..n]
  }

  /** Python's `sep.join(parts)`. */
  function Join(parts: seq<string>, sep: string): (r: string)
    ensures parts == [] ==> r == ""
    ensures |parts| == 1 ==> r == parts[0]
    ensures |parts| >= 1 ==> IsPrefix(parts[0], r)
    ensures |parts| >= 2 ==> IsPrefix(parts[0] + sep, r)
    ensures |parts| >= 2 ==> r[|parts[0]| + |sep|..] == Join(parts[1..], sep)
    ensures |r| == JoinedLength(parts, |sep|)
  {
    if |parts| == 0 then ""
    else if |parts| == 1 then parts[0]
    else
      var rest := Join(parts[1..], sep);
      assert (parts[0] + sep + rest)[..|parts[0] + sep|] == parts[0] + sep;
      assert (parts[0] + sep + rest)[..|parts[0]|] == parts[0];
      assert (parts[0] + sep + rest)[|parts[0]| + |sep|..] == rest;
      parts[0] + sep + rest
  }

  /** Two and three parts joined, written out. */
  lemma JoinOfFew(parts: seq<string>, sep: string)
    ensures |parts| == 2 ==> Join(parts, sep) == parts[0] + sep + parts[1]
    ensures |parts| == 3 ==> Join(parts, sep) == parts[0] + sep + parts[1] + sep + parts[2]
  {
    if |parts| == 2 {
      assert parts[1..] == [parts[1]];
    } else if |parts| == 3 {
      assert parts[1..][1..] == [parts[2]];
    }
  }

  /** The total length of the parts plus one separator between each two of them. */
  function JoinedLength(parts: seq<string>, sepLength: nat): nat
  {
    if |parts| == 0 then 0
    else if |parts| == 1 then |parts[0]|
    else |parts[0]| + sepLength + JoinedLength(parts[1..], sepLength)
  }

  function Digit(d: nat): char
    requires d < 10
  {
    ['0', '1', '2', '3', '4', '5', '6', '7', '8', '9'][d]
  }

  predicate IsDigit(c: char)
  {
    '0' <= c <= '9'
  }

  /** Python's `str(n)` for a natural number (the `{self.id}` in a label). */
  function NatToString(n: nat): (r: string)
    ensures |r| >= 1
    ensures forall i :: 0 <= i < |r| ==> IsDigit(r[i])
    ensures r[0] == '0' ==> n == 0 && r == "0"
  {
    if n < 10 then [Digit(n)] else NatToString(n / 10) + [Digit(n % 10)]
  }

  /** Reads a string of decimal digits back as a number. */
  function ParseDecimal(s: string): nat
    requires forall i :: 0 <= i < |s| ==> IsDigit(s[i])
  {
    if s == [] then 0
    else
      assert IsDigit(s[|s| - 1]);
      ParseDecimal(s[..|s| - 1]) * 10 + ((s[|s| - 1] as int) - ('0' as int))
  }

  /** Rendering an id and reading it back gives the id: distinct rooms get distinct labels. */
  lemma {:induction false} NatToStringRoundTrip(n: nat)
    ensures ParseDecimal(NatToString(n)) == n
  {
    var r := NatToString(n);
    if n >= 10 {
      NatToStringRoundTrip(n / 10);
      assert r[..|r| - 1] == NatToString(n / 10);
      DigitValue(n % 10);
      assert r[|r| - 1] == Digit(n % 10);
    } else {
      DigitValue(n);
    }
  }

  /** The character of a digit encodes its value. */
  lemma DigitValue(d: nat)
    requires d < 10
    ensures (Digit(d) as int) - ('0' as int) == d
  {
  }
}
