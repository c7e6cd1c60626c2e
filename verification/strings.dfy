/**
 * The few JavaScript string operations the card extraction relies on:
 * `String.prototype.trim`, `startsWith` and `includes`, over `seq<char>`.
 */
module Strings {

  /**
   * The ECMAScript WhiteSpace and LineTerminator code points, the characters `trim` removes:
   * tab, line feed, vertical tab, form feed, carriage return (U+0009 to U+000D), space,
   * no-break space, the other space separators (U+1680, U+2000 to U+200A, U+202F, U+205F,
   * U+3000), the line and paragraph separators U+2028 and U+2029, and the byte order mark U+FEFF.
   */
  predicate IsWhitespace(c: char) {
    var n := c as int;
    || 0x09 <= n <= 0x0D || n == 0x20 || n == 0xA0 || n == 0x1680
    || 0x2000 <= n <= 0x200A || n == 0x2028 || n == 0x2029 || n == 0x202F || n == 0x205F
    || n == 0x3000 || n == 0xFEFF
  }

  predicate AllWhitespace(s: string) {
    forall k :: 0 <= k < |s| ==> IsWhitespace(s[k])
  }

  /** Every character of `s` from index `lo` up to (not including) `hi` is whitespace. */
  predicate BlankRange(s: string, lo: int, hi: int)
    requires 0 <= lo <= hi <= |s|
  {
    forall k :: lo <= k < hi ==> IsWhitespace(s[k])
  }

  /** Neither end of `s` is whitespace. */
  predicate IsTrimmed(s: string) {
    s == [] || (!IsWhitespace(s[0]) && !IsWhitespace(s[|s| - 1]))
  }

  /** `r` is `s` with a whitespace-only prefix and a whitespace-only suffix cut off. */
  predicate Strips(s: string, r: string) {
    exists i :: 0 <= i && i + |r| <= |s| && s[i..i + |r|] == r
                && BlankRange(s, 0, i) && BlankRange(s, i + |r|, |s|)
  }

  /** `s.startsWith(prefix)` */
  predicate StartsWith(s: string, prefix: string) {
    |prefix| <= |s| && s[..|prefix|] == prefix
  }

  /** `sub` occurs in `s` starting at index `i`. */
  predicate OccursAt(s: string, sub: string, i: int) {
    0 <= i && i + |sub| <= |s| && s[i..i + |sub|] == sub
  }

  /** `s.includes(sub)`: `sub` is a prefix of some suffix of `s`. */
  predicate Contains(s: string, sub: string)
    decreases |s|
  {
    StartsWith(s, sub) || (|s| > 0 && Contains(s[1..], sub))
  }

  /** `Contains` holds exactly when `sub` occurs at some index of `s`. */
  lemma {:induction false} ContainsIffOccurs(s: string, sub: string)
    ensures Contains(s, sub) <==> exists i :: 0 <= i <= |s| - |sub| && OccursAt(s, sub, i)
    decreases |s|
  {
    if StartsWith(s, sub) {
      assert s[0..|sub|] == s[..|sub|];
      assert OccursAt(s, sub, 0);
    }
    if OccursAt(s, sub, 0) {
      assert s[0..|sub|] == s[..|sub|];
    }
    if |s| > 0 {
      var t := s[1..];
      ContainsIffOccurs(t, sub);
      if Contains(s, sub) && !StartsWith(s, sub) {
        assert Contains(t, sub);
        var i :| 0 <= i <= |t| - |sub| && OccursAt(t, sub, i);
        assert t[i..i + |sub|] == s[i + 1..i + 1 + |sub|];
        assert OccursAt(s, sub, i + 1);
      }
      if exists i :: 0 <= i <= |s| - |sub| && OccursAt(s, sub, i) {
        var i :| 0 <= i <= |s| - |sub| && OccursAt(s, sub, i);
        if i > 0 {
          assert t[i - 1..i - 1 + |sub|] == s[i..i + |sub|];
          assert OccursAt(t, sub, i - 1);
          assert Contains(t, sub);
        } else {
          assert StartsWith(s, sub);
        }
        assert Contains(s, sub);
      }
    }
  }

  /** The index of the first character at or after `i` that is not whitespace (`|s|` if none). */
  function TrimStartIndex(s: string, i: nat): (lo: nat)
    requires i <= |s|
    ensures i <= lo <= |s| && BlankRange(s, i, lo)
    ensures lo == |s| || !IsWhitespace(s[lo])
    decreases |s| - i
  {
    if i < |s| && IsWhitespace(s[i]) then TrimStartIndex(s, i + 1) else i
  }

  /** The index just past the last character before `hi` and at or after `lo` that is not whitespace (`lo` if none). */
  function TrimEndIndex(s: string, lo: nat, hi: nat): (end: nat)
    requires lo <= hi <= |s|
    ensures lo <= end <= hi && BlankRange(s, end, hi)
    ensures end == lo || !IsWhitespace(s[end - 1])
    decreases hi
  {
    if lo < hi && IsWhitespace(s[hi - 1]) then TrimEndIndex(s, lo, hi - 1) else hi
  }

  /** `s.trim()`: the characters between the leading and the trailing whitespace. */
  function Trim(s: string): (r: string)
    ensures IsTrimmed(r)
    ensures Strips(s, r)
  {
    var lo := TrimStartIndex(s, 0);
    var hi := TrimEndIndex(s, lo, |s|);
    assert s[lo..lo + (hi - lo)] == s[lo..hi];
    s[lo..hi]
  }

  /** Trimming yields the empty string exactly when the input is all whitespace. */
  lemma TrimEmptyIffAllWhitespace(s: string)
    ensures Trim(s) == [] <==> AllWhitespace(s)
  {
    var lo := TrimStartIndex(s, 0);
    var hi := TrimEndIndex(s, lo, |s|);
    assert Trim(s) == s[lo..hi];
    if hi == lo {
      assert BlankRange(s, 0, lo) && BlankRange(s, lo, |s|);
    }
  }

  /** A string without whitespace at either end is left alone by `trim`. */
  lemma TrimmedIsFixpoint(s: string)
    requires IsTrimmed(s)
    ensures Trim(s) == s
  {
  }

  /** `trim` is idempotent. */
  lemma TrimIdempotent(s: string)
    ensures Trim(Trim(s)) == Trim(s)
  {
    TrimmedIsFixpoint(Trim(s));
  }
}
