/** The few string operations of Python that the profile-reference parser uses:
    `str.isdecimal`, `str.split` on one separator character and `'sep'.join`. */
module Text {

  predicate IsDigit(c: char) {
    '0' <= c <= '9'
  }

  /** Python's `str.isdecimal`, restricted to the ASCII digits: the string is
      non-empty and every character is a decimal digit. */
  predicate IsDecimal(s: string)
    ensures IsDecimal(s) ==> s != [] && '/' !in s
  {
    |s| > 0 && forall i :: 0 <= i < |s| ==> IsDigit(s[i])
  }

  /** The index of the first occurrence of `c` in `s`. */
  function IndexOf(s: string, c: char): (i: nat)
    requires c in s
    ensures i < |s| && s[i] == c
    ensures c !in s[..i]
  {
    if s[0] == c then 0
    else
      var j := IndexOf(s[1..], c);
      assert s[..j + 1] == [s[0]] + s[1..][..j];
      j + 1
  }

  /** The first occurrence is the only position before which `c` is absent. */
  lemma IndexOfUnique(s: string, c: char, i: nat)
    requires i < |s| && s[i] == c && c !in s[..i]
    ensures IndexOf(s, c) == i
  {
  }

  /** `sep.join(parts)` */
  function Join(parts: seq<string>, sep: char): string
    requires |parts| > 0
  {
    if |parts| == 1 then parts[0] else parts[0] + [sep] + Join(parts[1..], sep)
  }

  /** `s.split(sep)`: the pieces between the separators, at least one, none of
      them containing the separator, and joined again they give back `s`. */
  function Split(s: string, sep: char): (parts: seq<string>)
    ensures |parts| > 0
    ensures forall k :: 0 <= k < |parts| ==> sep !in parts[k]
    ensures Join(parts, sep) == s
    decreases |s|
  {
    if sep !in s then [s]
    else
      var i := IndexOf(s, sep);
      var rest := Split(s[i + 1..], sep);
      assert s[..i] + [sep] + s[i + 1..] == s;
      assert ([s[..i]] + rest)[1..] == rest;
      [s[..i]] + rest
  }

  /** Splitting undoes joining, when no piece contains the separator. */
  lemma {:induction false} SplitJoin(parts: seq<string>, sep: char)
    requires |parts| > 0
    requires forall k :: 0 <= k < |parts| ==> sep !in parts[k]
    ensures Split(Join(parts, sep), sep) == parts
  {
    if |parts| > 1 {
      var s := Join(parts, sep);
      var n := |parts[0]|;
      var tail := Join(parts[1..], sep);
      assert s == parts[0] + [sep] + tail;
      assert s[..n] == parts[0];
      IndexOfUnique(s, sep, n);
      assert s[n + 1..] == tail;
      SplitJoin(parts[1..], sep);
      assert [parts[0]] + parts[1..] == parts;
    }
  }

  /** The last piece of `s.split(sep)` is the suffix of `s` that follows the
      last separator, or all of `s` when it has none. */
  lemma {:induction false} LastPieceFollowsLastSep(s: string, sep: char)
    ensures var parts := Split(s, sep); var r := parts[|parts| - 1];
      && |r| <= |s| && r == s[|s| - |r|..]
      && (|r| == |s| <==> sep !in s)
      && (|r| < |s| ==> s[|s| - |r| - 1] == sep)
    decreases |s|
  {
    if sep in s {
      var i := IndexOf(s, sep);
      var t := s[i + 1..];
      var rest := Split(t, sep);
      assert Split(s, sep) == [s[..i]] + rest;
      var r := rest[|rest| - 1];
      assert Split(s, sep)[|Split(s, sep)| - 1] == r;
      LastPieceFollowsLastSep(t, sep);
      assert |r| <= |t| < |s|;
      assert s[|s| - |r|..] == t[|t| - |r|..];
      assert s[|s| - |r| - 1] == sep by {
        if |r| == |t| {
          assert |s| - |r| - 1 == i;
        } else {
          assert s[|s| - |r| - 1] == t[|t| - |r| - 1];
        }
      }
    }
  }

  /** `s.split(sep)[-1]`: the separator-free suffix of `s` that follows its
      last separator, or all of `s` when it has none. */
  function LastSegment(s: string, sep: char): (r: string)
    ensures sep !in r
    ensures |r| <= |s| && r == s[|s| - |r|..]
    ensures |r| == |s| <==> sep !in s
    ensures |r| < |s| ==> s[|s| - |r| - 1] == sep
  {
    LastPieceFollowsLastSep(s, sep);
    var parts := Split(s, sep);
    parts[|parts| - 1]
  }

  /** When `s` ends with a separator followed by a piece without one, that
      piece is the last segment. */
  lemma LastSegmentOfSuffix(prefix: string, sep: char, tail: string)
    requires sep !in tail
    ensures LastSegment(prefix + [sep] + tail, sep) == tail
  {
    var s := prefix + [sep] + tail;
    var r := LastSegment(s, sep);
    assert s[|prefix|] == sep;
    assert s[|s| - |tail|..] == tail;
  }
}
