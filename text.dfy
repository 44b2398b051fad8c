/**
 The Python string operations the assistant relies on, restricted to what its
 dispatch loop uses: `str.lower()` (ASCII letters only), `str.strip()` with no
 argument, the substring test `kw in s`, `s.split(sep)[-1]`, `sep.join(parts)`
 and the decimal rendering of a non-negative integer in an f-string.
 */
module Text {
  import opened Wrappers

  // ---------------------------------------------------------------------------
  // Case mapping

  predicate IsAsciiUpper(c: char) {
    'A' <= c <= 'Z'
  }

  function LowerChar(c: char): char {
    if IsAsciiUpper(c) then (c as int + 32) as char else c
  }

  /** `s.lower()` on ASCII: every upper-case letter becomes its lower-case
      letter, every other character is kept, and the length is unchanged. */
  function Lower(s: string): (r: string)
    ensures |r| == |s|
    ensures forall i :: 0 <= i < |s| ==> r[i] == LowerChar(s[i])
    ensures forall i :: 0 <= i < |r| ==> !IsAsciiUpper(r[i])
  {
    if s == [] then [] else [LowerChar(s[0])] + Lower(s[1..])
  }

  // ---------------------------------------------------------------------------
  // Whitespace and `str.strip()`

  /** The characters for which Python's `str.isspace()` is true. */
  predicate IsSpace(c: char) {
    var n := c as int;
    n == 0x20 || 0x09 <= n <= 0x0D || 0x1C <= n <= 0x1F || n == 0x85 || n == 0xA0 ||
    n == 0x1680 || 0x2000 <= n <= 0x200A || n == 0x2028 || n == 0x2029 ||
    n == 0x202F || n == 0x205F || n == 0x3000
  }

  /** The suffix left after removing leading whitespace. */
  function TrimStart(s: string): (r: string)
    ensures |r| <= |s| && r == s[|s| - |r|..]
    ensures forall i :: 0 <= i < |s| - |r| ==> IsSpace(s[i])
    ensures r != [] ==> !IsSpace(r[0])
  {
    if s != [] && IsSpace(s[0]) then TrimStart(s[1..]) else s
  }

  /** The prefix left after removing trailing whitespace. */
  function TrimEnd(s: string): (r: string)
    ensures |r| <= |s| && r == s[..|r|]
    ensures forall i :: |r| <= i < |s| ==> IsSpace(s[i])
    ensures r != [] ==> !IsSpace(r[|r| - 1])
  {
    if s != [] && IsSpace(s[|s| - 1]) then TrimEnd(s[..|s| - 1]) else s
  }

  /** `s[i..j]` is what `s.strip()` keeps: everything outside it is whitespace,
      and it neither starts nor ends with whitespace. */
  predicate StrippedSlice(s: string, i: int, j: int) {
    0 <= i <= j <= |s| &&
    (forall k :: 0 <= k < i ==> IsSpace(s[k])) &&
    (forall k :: j <= k < |s| ==> IsSpace(s[k])) &&
    (i < j ==> !IsSpace(s[i]) && !IsSpace(s[j - 1]))
  }

  /** `s.strip()` with no argument. */
  function Strip(s: string): string {
    TrimEnd(TrimStart(s))
  }

  /** A text that neither starts nor ends with whitespace is its own
      stripped form. */
  lemma StripKeepsTrimmed(s: string)
    requires s != [] && !IsSpace(s[0]) && !IsSpace(s[|s| - 1])
    ensures Strip(s) == s
  {
    assert TrimStart(s) == s;
  }

  /** What `Strip` keeps is a slice of its argument with whitespace only
      outside it, and it neither starts nor ends with whitespace. */
  lemma StripIsStrippedSlice(s: string)
    ensures exists i, j :: StrippedSlice(s, i, j) && Strip(s) == s[i..j]
  {
    var t := TrimStart(s);
    var r := TrimEnd(t);
    var i := |s| - |t|;
    assert r == s[i..i + |r|];
    assert forall k :: i + |r| <= k < |s| ==> IsSpace(s[k]) by {
      forall k | i + |r| <= k < |s| ensures IsSpace(s[k]) {
        assert s[k] == t[k - i];
      }
    }
    assert StrippedSlice(s, i, i + |r|);
  }

  /** Only one slice of `s` meets the description of `Strip`. */
  lemma StrippedSliceUnique(s: string, i: int, j: int, i': int, j': int)
    requires StrippedSlice(s, i, j) && StrippedSlice(s, i', j')
    ensures s[i..j] == s[i'..j']
  {
    if i < j && i' < j' {
      assert i == i' && j == j';
    }
  }

  /** Stripping an already stripped string changes nothing. */
  lemma StripIdempotent(s: string)
    ensures Strip(Strip(s)) == Strip(s)
  {
    var r := Strip(s);
    StripIsStrippedSlice(s);
    var i, j :| StrippedSlice(s, i, j) && r == s[i..j];
    assert StrippedSlice(r, 0, |r|);
    StripIsStrippedSlice(r);
    var i', j' :| StrippedSlice(r, i', j') && Strip(r) == r[i'..j'];
    StrippedSliceUnique(r, 0, |r|, i', j');
  }

  // ---------------------------------------------------------------------------
  // Substrings

  /** `kw` occurs in `s` starting at index `i`. */
  predicate OccursAt(s: string, kw: string, i: int) {
    0 <= i && i + |kw| <= |s| && s[i..i + |kw|] == kw
  }

  lemma OccursAtSuffix(s: string, kw: string, off: nat, k: int)
    requires off <= |s| && OccursAt(s[off..], kw, k)
    ensures OccursAt(s, kw, off + k)
  {
    assert s[off..][k..k + |kw|] == s[off + k..off + k + |kw|];
  }

  /** `s.find(kw, start)`: the first index at or after `start` where `kw`
      occurs, if any. */
  function IndexOf(s: string, kw: string, start: nat): (r: Option<nat>)
    ensures r.Some? ==>
      start <= r.value && OccursAt(s, kw, r.value) &&
      (forall j :: start <= j < r.value ==> !OccursAt(s, kw, j))
    ensures r.None? ==> forall j :: start <= j ==> !OccursAt(s, kw, j)
    decreases |s| - start
  {
    if |s| < start + |kw| then None
    else if OccursAt(s, kw, start) then Some(start)
    else IndexOf(s, kw, start + 1)
  }

  /** Python's `kw in s`. */
  predicate Contains(s: string, kw: string) {
    IndexOf(s, kw, 0).Some?
  }

  /** Where the last piece of `s[start..].split(sep)` begins: Python finds the
      leftmost separator at or after `start` and continues after it, until no
      separator is left. */
  function SplitPoint(s: string, sep: string, start: nat): (p: nat)
    requires sep != [] && start <= |s|
    ensures start <= p <= |s|
    ensures forall j :: p <= j ==> !OccursAt(s, sep, j)
    ensures p == start || (start + |sep| <= p && OccursAt(s, sep, p - |sep|))
    decreases |s| - start
  {
    match IndexOf(s, sep, start)
    case None => start
    case Some(i) => SplitPoint(s, sep, i + |sep|)
  }

  /** `s.split(sep)[-1]`: a suffix of `s` free of `sep`; it is `s` itself when
      `sep` does not occur, and otherwise `sep` stands immediately before it. */
  function SplitLast(s: string, sep: string): (r: string)
    requires sep != []
    ensures |r| <= |s| && r == s[|s| - |r|..]
    ensures !Contains(r, sep)
    ensures !Contains(s, sep) ==> r == s
    ensures Contains(s, sep) ==> |r| + |sep| <= |s| && OccursAt(s, sep, |s| - |r| - |sep|)
  {
    var p := SplitPoint(s, sep, 0);
    var r := s[p..];
    assert !Contains(r, sep) by {
      var q := IndexOf(r, sep, 0);
      if q.Some? { OccursAtSuffix(s, sep, p, q.value); }
    }
    r
  }

  /** No proper suffix of `kw` is also a prefix of it, so two occurrences of
      `kw` can never overlap. */
  predicate NoSelfOverlap(kw: string) {
    forall d :: 0 < d < |kw| ==> kw[d..] != kw[..|kw| - d]
  }

  /** A keyword whose first character does not recur in it cannot overlap itself. */
  lemma UniqueHeadNoSelfOverlap(kw: string)
    requires kw != []
    requires forall k :: 0 < k < |kw| ==> kw[k] != kw[0]
    ensures NoSelfOverlap(kw)
  {
    forall d | 0 < d < |kw| ensures kw[d..] != kw[..|kw| - d] {
      assert kw[d..][0] == kw[d];
      assert kw[..|kw| - d][0] == kw[0];
    }
  }

  /** Two occurrences of `kw` that start `d` apart, with `d < |kw|`, make the
      last `|kw| - d` characters of `kw` equal to its first `|kw| - d`. */
  lemma OverlappingOccurrences(s: string, kw: string, a: int, b: int)
    requires OccursAt(s, kw, a) && OccursAt(s, kw, b) && a <= b < a + |kw|
    ensures kw[b - a..] == kw[..|kw| - (b - a)]
  {
    assert kw[b - a..] == s[b..a + |kw|] by {
      assert s[a..a + |kw|] == kw;
    }
    assert kw[..|kw| - (b - a)] == s[b..a + |kw|] by {
      assert s[b..b + |kw|] == kw;
    }
  }

  /** For a separator that cannot overlap itself, `s.split(sep)[-1]` is the
      text after the LAST occurrence of `sep` in `s`. */
  lemma SplitLastAfterLastOccurrence(s: string, sep: string, j: int)
    requires sep != [] && NoSelfOverlap(sep)
    requires OccursAt(s, sep, j)
    ensures j + |sep| <= |s| - |SplitLast(s, sep)|
  {
    var p := SplitPoint(s, sep, 0);
    if j < p < j + |sep| {
      OverlappingOccurrences(s, sep, p - |sep|, j);
    }
  }

  // ---------------------------------------------------------------------------
  // `sep.join(parts)`

  function Join(parts: seq<string>, sep: string): string {
    if parts == [] then ""
    else if |parts| == 1 then parts[0]
    else parts[0] + sep + Join(parts[1..], sep)
  }

  /** Joining one more part puts the separator and that part at the end. */
  lemma {:induction false} JoinSnoc(parts: seq<string>, p: string, sep: string)
    requires parts != []
    ensures Join(parts + [p], sep) == Join(parts, sep) + sep + p
  {
    if |parts| == 1 {
      assert parts + [p] == [parts[0], p];
      assert [parts[0], p][1..] == [p];
    } else {
      assert (parts + [p])[1..] == parts[1..] + [p];
      JoinSnoc(parts[1..], p, sep);
    }
  }

  /** Every part occurs in the joined text. */
  lemma {:induction false} JoinHasEveryPart(parts: seq<string>, sep: string, i: int)
    requires 0 <= i < |parts|
    ensures exists p :: OccursAt(Join(parts, sep), parts[i], p)
  {
    var joined := Join(parts, sep);
    if i == 0 {
      assert joined[..|parts[0]|] == parts[0];
      assert OccursAt(joined, parts[0], 0);
    } else {
      var rest := Join(parts[1..], sep);
      var off := |parts[0]| + |sep|;
      assert joined == parts[0] + sep + rest;
      assert joined[off..] == rest;
      JoinHasEveryPart(parts[1..], sep, i - 1);
      var p :| OccursAt(rest, parts[1..][i - 1], p);
      OccursAtSuffix(joined, parts[i], off, p);
    }
  }

  // ---------------------------------------------------------------------------
  // Decimal rendering of a non-negative integer, as in `f"{n}"`

  predicate IsDigit(c: char) {
    '0' as int <= c as int <= '9' as int
  }

  function DigitChar(d: nat): (c: char)
    requires d < 10
  {
    ('0' as int + d) as char
  }

  /** The decimal digits of `n`, most significant first, with no leading zero. */
  function NatToString(n: nat): (r: string)
    ensures r != [] && forall i :: 0 <= i < |r| ==> IsDigit(r[i])
    ensures |r| > 1 ==> r[0] != '0'
    decreases n
  {
    if n < 10 then [DigitChar(n)] else NatToString(n / 10) + [DigitChar(n % 10)]
  }

  function DigitValue(c: char): nat
    requires IsDigit(c)
  {
    c as int - '0' as int
  }

  /** The value of a string of decimal digits. */
  function ParseNat(s: string): nat
    requires forall i :: 0 <= i < |s| ==> IsDigit(s[i])
  {
    if s == [] then 0 else ParseNat(s[..|s| - 1]) * 10 + DigitValue(s[|s| - 1])
  }

  /** Reading back the rendered digits gives the number again. */
  lemma {:induction false} ParseNatToString(n: nat)
    ensures ParseNat(NatToString(n)) == n
  {
    if n >= 10 {
      var s := NatToString(n);
      assert s[..|s| - 1] == NatToString(n / 10);
      ParseNatToString(n / 10);
    }
  }
}
