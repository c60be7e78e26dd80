/** The string operations the exporter relies on, with the meaning Rust's
    `str` gives them: `trim`, `len` (bytes of the UTF-8 encoding) and `join("")`. */
module Text {

  /** Rust's `char::is_whitespace`: the characters with the Unicode
      White_Space property. */
  predicate IsWhitespace(c: char)
  {
    || ('\t' <= c <= '\r')
    || c == ' '
    || c == '\U{85}'
    || c == '\U{A0}'
    || c == '\U{1680}'
    || ('\U{2000}' <= c <= '\U{200A}')
    || c == '\U{2028}'
    || c == '\U{2029}'
    || c == '\U{202F}'
    || c == '\U{205F}'
    || c == '\U{3000}'
  }

  /** Every character of `s` at an index in `[lo, hi)` is whitespace. */
  ghost predicate WhitespaceBetween(s: string, lo: int, hi: int)
  {
    forall k :: lo <= k < hi && 0 <= k < |s| ==> IsWhitespace(s[k])
  }

  /** Neither end of `s` is whitespace. */
  predicate Bare(s: string)
  {
    |s| == 0 || (!IsWhitespace(s[0]) && !IsWhitespace(s[|s| - 1]))
  }

  /** `r` is the slice of `s` starting at `i`, with only whitespace
      before and after it. */
  ghost predicate TrimAt(r: string, s: string, i: int)
  {
    && 0 <= i <= |s| - |r| && s[i..i + |r|] == r
    && WhitespaceBetween(s, 0, i) && WhitespaceBetween(s, i + |r|, |s|)
  }

  /** `r` is `s` with its leading and trailing whitespace removed: a bare
      slice of `s` with only whitespace around it. */
  ghost predicate IsTrimOf(r: string, s: string)
  {
    Bare(r) && exists i :: TrimAt(r, s, i)
  }

  /** Rust's `str::trim_start`. */
  function TrimStart(s: string): (r: string)
    ensures |r| <= |s| && r == s[|s| - |r|..]
    ensures WhitespaceBetween(s, 0, |s| - |r|)
    ensures |r| == 0 || !IsWhitespace(r[0])
  {
    if |s| > 0 && IsWhitespace(s[0]) then TrimStart(s[1..]) else s
  }

  /** Rust's `str::trim_end`. */
  function TrimEnd(s: string): (r: string)
    ensures |r| <= |s| && r == s[..|r|]
    ensures WhitespaceBetween(s, |r|, |s|)
    ensures |r| == 0 || !IsWhitespace(r[|r| - 1])
  {
    if |s| > 0 && IsWhitespace(s[|s| - 1]) then TrimEnd(s[..|s| - 1]) else s
  }

  /** Rust's `str::trim`. */
  function Trim(s: string): (r: string)
    ensures IsTrimOf(r, s)
  {
    TrimStartEndIsTrimOf(s);
    TrimEnd(TrimStart(s))
  }

  lemma TrimStartEndIsTrimOf(s: string)
    ensures IsTrimOf(TrimEnd(TrimStart(s)), s)
  {
    var t := TrimStart(s);
    var r := TrimEnd(t);
    var i := |s| - |t|;
    SuffixPrefixSlice(s, i, |r|);
    SuffixWhitespace(s, i, |r|);
    assert Bare(r) by {
      if |r| > 0 {
        assert r[0] == t[0];
      }
    }
    assert TrimAt(r, s, i);
  }

  lemma SuffixPrefixSlice(s: string, i: nat, n: nat)
    requires i + n <= |s|
    ensures s[i..][..n] == s[i..i + n]
  {
  }

  /** Whitespace at the end of a suffix is whitespace at the end of `s`. */
  lemma SuffixWhitespace(s: string, i: nat, n: nat)
    requires i + n <= |s| && WhitespaceBetween(s[i..], n, |s| - i)
    ensures WhitespaceBetween(s, i + n, |s|)
  {
    forall k | i + n <= k < |s|
      ensures IsWhitespace(s[k])
    {
      assert s[k] == s[i..][k - i];
    }
  }

  /** At most one string is the trim of `s`: `IsTrimOf` determines the
      result, so `Trim` is the only function meeting its contract. */
  lemma TrimOfIsUnique(s: string, r1: string, r2: string)
    requires IsTrimOf(r1, s) && IsTrimOf(r2, s)
    ensures r1 == r2
  {
  }

  /** Trimming twice is trimming once. */
  lemma TrimIdempotent(s: string)
    ensures Trim(Trim(s)) == Trim(s)
  {
    TrimOfBare(Trim(s));
  }

  /** Text with no whitespace at either end trims to itself. */
  lemma TrimOfBare(s: string)
    requires Bare(s)
    ensures Trim(s) == s
  {
    assert s[0..0 + |s|] == s;
    assert TrimAt(s, s, 0);
    TrimOfIsUnique(s, Trim(s), s);
  }

  /** Number of bytes of the UTF-8 encoding of `c`. */
  function Utf8Width(c: char): nat
  {
    if c as int < 0x80 then 1
    else if c as int < 0x800 then 2
    else if c as int < 0x1_0000 then 3
    else 4
  }

  /** Rust's `str::len`: the length in bytes of the UTF-8 encoding of `s`.
      It is never less than the number of characters, at most four times
      it, and equal to it exactly on ASCII text. */
  function Utf8Len(s: string): (n: nat)
    ensures |s| <= n <= 4 * |s|
    ensures n == |s| <==> forall i :: 0 <= i < |s| ==> s[i] as int < 0x80
  {
    if |s| == 0 then 0
    else
      var n := Utf8Width(s[0]) + Utf8Len(s[1..]);
      assert forall i :: 1 <= i < |s| ==> s[i] == s[1..][i - 1];
      n
  }

  /** The byte length of a concatenation is the sum of the byte lengths. */
  lemma {:induction false} Utf8LenAppend(a: string, b: string)
    ensures Utf8Len(a + b) == Utf8Len(a) + Utf8Len(b)
    decreases |a|
  {
    if |a| == 0 {
      assert a + b == b;
    } else {
      assert (a + b)[0] == a[0] && (a + b)[1..] == a[1..] + b;
      Utf8LenAppend(a[1..], b);
    }
  }

  /** `parts.join("")`: the parts concatenated with no separator. */
  function Concat(parts: seq<string>): string
  {
    if |parts| == 0 then "" else parts[0] + Concat(parts[1..])
  }
}
