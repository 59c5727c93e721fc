/**
 * String helpers the configuration, logging and health code rely on:
 * `str::split` on one character, `join`, `str::trim` and ASCII lowercasing.
 */
module Text {

  /** The Unicode White_Space characters, the set `char::is_whitespace` (and so `str::trim`) strips. */
  predicate IsWhitespace(c: char) {
    || ('\t' <= c <= '\r')
    || c == ' '
    || c == '\U{0085}'
    || c == '\U{00A0}'
    || c == '\U{1680}'
    || ('\U{2000}' <= c <= '\U{200A}')
    || c == '\U{2028}'
    || c == '\U{2029}'
    || c == '\U{202F}'
    || c == '\U{205F}'
    || c == '\U{3000}'
  }

  predicate AllWhitespace(s: string) {
    forall i :: 0 <= i < |s| ==> IsWhitespace(s[i])
  }

  /** Every character of `s` at an index in `[lo, hi)` is whitespace. */
  predicate WhitespaceBetween(s: string, lo: int, hi: int) {
    forall k :: lo <= k < hi && 0 <= k < |s| ==> IsWhitespace(s[k])
  }

  /** Neither end of `s` is whitespace. */
  predicate IsTrimmed(s: string) {
    |s| == 0 || (!IsWhitespace(s[0]) && !IsWhitespace(s[|s| - 1]))
  }

  /** Number of occurrences of `c` in `s`. */
  function Count(s: string, c: char): nat {
    if |s| == 0 then 0 else (if s[0] == c then 1 else 0) + Count(s[1..], c)
  }

  /** Drops leading whitespace: what is dropped is whitespace and what remains is a suffix. */
  function TrimStart(s: string): (r: string)
    ensures |r| <= |s| && r == s[|s| - |r|..]
    ensures WhitespaceBetween(s, 0, |s| - |r|)
    ensures |r| > 0 ==> !IsWhitespace(r[0])
    decreases |s|
  {
    if |s| > 0 && IsWhitespace(s[0]) then TrimStart(s[1..]) else s
  }

  /** Drops trailing whitespace: what is dropped is whitespace and what remains is a prefix. */
  function TrimEnd(s: string): (r: string)
    ensures |r| <= |s| && r == s[..|r|]
    ensures WhitespaceBetween(s, |r|, |s|)
    ensures |r| > 0 ==> !IsWhitespace(r[|r| - 1])
    decreases |s|
  {
    if |s| > 0 && IsWhitespace(s[|s| - 1]) then TrimEnd(s[..|s| - 1]) else s
  }

  /** `s[i..j]` is what remains of `s` once whitespace is stripped from both ends. */
  predicate StripsTo(s: string, i: int, j: int) {
    0 <= i <= j <= |s| && WhitespaceBetween(s, 0, i) && WhitespaceBetween(s, j, |s|)
  }

  /** Trimming the end of a suffix `s[i..]` cuts `s` itself at a point after `i`. */
  lemma TrimEndOfSuffix(s: string, i: int)
    requires 0 <= i <= |s|
    ensures var r := TrimEnd(s[i..]);
            i + |r| <= |s| && r == s[i..i + |r|] && WhitespaceBetween(s, i + |r|, |s|)
  {
    var t := s[i..];
    var r := TrimEnd(t);
    assert r == t[..|r|];
    forall k | i + |r| <= k < |s|
      ensures IsWhitespace(s[k])
    {
      assert s[k] == t[k - i];
    }
  }

  /** Where the two trimming passes cut `s`. */
  lemma TrimCuts(s: string)
    ensures var a := TrimStart(s);
            var i := |s| - |a|;
            var j := i + |TrimEnd(a)|;
            StripsTo(s, i, j) && TrimEnd(a) == s[i..j]
  {
    var a := TrimStart(s);
    var i := |s| - |a|;
    assert a == s[i..];
    TrimEndOfSuffix(s, i);
  }

  /**
   * `str::trim`: the result is the contiguous middle of `s` left after
   * stripping whitespace from both ends, and has no whitespace at either end.
   */
  function Trim(s: string): (r: string)
    ensures IsTrimmed(r)
    ensures exists i, j :: StripsTo(s, i, j) && r == s[i..j]
  {
    var a := TrimStart(s);
    TrimCuts(s);
    assert |TrimEnd(a)| > 0 ==> TrimEnd(a)[0] == a[0];
    TrimEnd(a)
  }

  /** Trimming a string that is already trimmed changes nothing. */
  lemma TrimOfTrimmed(s: string)
    requires IsTrimmed(s)
    ensures Trim(s) == s
  {
    assert TrimStart(s) == s;
  }

  /** `str::trim` is idempotent. */
  lemma TrimIdempotent(s: string)
    ensures Trim(Trim(s)) == Trim(s)
  {
    TrimOfTrimmed(Trim(s));
  }

  /** Leading whitespace in front of a part that does not start with whitespace is stripped exactly. */
  lemma {:induction false} TrimStartPadded(l: string, rest: string)
    requires AllWhitespace(l)
    requires |rest| == 0 || !IsWhitespace(rest[0])
    ensures TrimStart(l + rest) == rest
    decreases |l|
  {
    if |l| > 0 {
      assert (l + rest)[1..] == l[1..] + rest;
      TrimStartPadded(l[1..], rest);
    }
  }

  /** Trailing whitespace after a part that does not end with whitespace is stripped exactly. */
  lemma {:induction false} TrimEndPadded(rest: string, r: string)
    requires AllWhitespace(r)
    requires |rest| == 0 || !IsWhitespace(rest[|rest| - 1])
    ensures TrimEnd(rest + r) == rest
    decreases |r|
  {
    if |r| > 0 {
      assert (rest + r)[..|rest + r| - 1] == rest + r[..|r| - 1];
      TrimEndPadded(rest, r[..|r| - 1]);
    }
  }

  /** Trimming removes exactly the whitespace padding around a trimmed string. */
  lemma TrimPadded(l: string, t: string, r: string)
    requires AllWhitespace(l) && AllWhitespace(r) && IsTrimmed(t)
    ensures Trim(l + t + r) == t
  {
    if |t| == 0 {
      assert l + t + r == (l + r) + "";
      TrimStartPadded(l + r, "");
    } else {
      assert l + t + r == l + (t + r);
      TrimStartPadded(l, t + r);
      TrimEndPadded(t, r);
    }
  }

  /**
   * `str::split` on a single character: the pieces between separators, in
   * order, with empty pieces kept; the empty string gives one empty piece.
   */
  function Split(s: string, sep: char): (parts: seq<string>)
    ensures |parts| == Count(s, sep) + 1
    ensures forall k :: 0 <= k < |parts| ==> sep !in parts[k]
    decreases |s|
  {
    if |s| == 0 then [""]
    else
      var rest := Split(s[1..], sep);
      if s[0] == sep then [""] + rest
      else [[s[0]] + rest[0]] + rest[1..]
  }

  /** `join`: the parts with `sep` between each adjacent pair. */
  function Join(parts: seq<string>, sep: string): string {
    if |parts| == 0 then ""
    else if |parts| == 1 then parts[0]
    else parts[0] + sep + Join(parts[1..], sep)
  }

  /** A join starts with its first part and ends with its last; joining nothing gives "". */
  lemma {:induction false} JoinEnds(parts: seq<string>, sep: string)
    ensures |parts| == 0 ==> Join(parts, sep) == ""
    ensures |parts| > 0 ==> parts[0] <= Join(parts, sep)
    ensures |parts| > 0 ==> |parts[|parts| - 1]| <= |Join(parts, sep)|
    ensures |parts| > 0 ==> Join(parts, sep)[|Join(parts, sep)| - |parts[|parts| - 1]|..] == parts[|parts| - 1]
    decreases |parts|
  {
    if |parts| > 1 {
      var rest := parts[1..];
      JoinEnds(rest, sep);
      assert rest[|rest| - 1] == parts[|parts| - 1];
      var j := Join(rest, sep);
      assert Join(parts, sep) == (parts[0] + sep) + j;
    }
  }

  /** Joining the pieces of a split with the separator gives back the original string. */
  lemma {:induction false} JoinSplit(s: string, sep: char)
    ensures Join(Split(s, sep), [sep]) == s
    decreases |s|
  {
    if |s| > 0 {
      var rest := Split(s[1..], sep);
      JoinSplit(s[1..], sep);
      if s[0] == sep {
        assert Split(s, sep) == [""] + rest;
        assert ([""] + rest)[1..] == rest;
      } else {
        var parts := [[s[0]] + rest[0]] + rest[1..];
        assert Split(s, sep) == parts;
        if |rest| == 1 {
          assert Join(rest, [sep]) == rest[0];
        } else {
          assert parts[1..] == rest[1..];
          assert Join(rest, [sep]) == rest[0] + [sep] + Join(rest[1..], [sep]);
          assert Join(parts, [sep]) == [s[0]] + rest[0] + [sep] + Join(rest[1..], [sep]);
        }
        assert s == [s[0]] + s[1..];
      }
    }
  }

  /** Splitting a join of separator-free parts gives back the parts. */
  lemma {:induction false} SplitJoin(parts: seq<string>, sep: char)
    requires |parts| > 0
    requires forall k :: 0 <= k < |parts| ==> sep !in parts[k]
    ensures Split(Join(parts, [sep]), sep) == parts
    decreases |parts|
  {
    if |parts| == 1 {
      SplitNoSeparator(parts[0], sep);
    } else {
      SplitJoin(parts[1..], sep);
      SplitPrefix(parts[0], sep, Join(parts[1..], [sep]));
      assert parts == [parts[0]] + parts[1..];
    }
  }

  /** A string without the separator splits into itself. */
  lemma {:induction false} SplitNoSeparator(s: string, sep: char)
    requires sep !in s
    ensures Split(s, sep) == [s]
    decreases |s|
  {
    if |s| > 0 {
      assert sep !in s[1..];
      SplitNoSeparator(s[1..], sep);
      assert s == [s[0]] + s[1..];
    }
  }

  /** Splitting `p + sep + t` for a separator-free `p` puts `p` in front of the split of `t`. */
  lemma {:induction false} SplitPrefix(p: string, sep: char, t: string)
    requires sep !in p
    ensures Split(p + [sep] + t, sep) == [p] + Split(t, sep)
    decreases |p|
  {
    var s := p + [sep] + t;
    if |p| == 0 {
      assert s[1..] == t;
    } else {
      assert s[1..] == p[1..] + [sep] + t;
      assert sep !in p[1..];
      SplitPrefix(p[1..], sep, t);
      assert p == [p[0]] + p[1..];
    }
  }

  /** `sub` occurs in `s` starting at index `i`. */
  predicate OccursAt(sub: string, s: string, i: int) {
    0 <= i && i + |sub| <= |s| && s[i..i + |sub|] == sub
  }

  /** `sub` occurs contiguously somewhere in `s`. */
  ghost predicate Contains(s: string, sub: string) {
    exists i :: OccursAt(sub, s, i)
  }

  /** Every part occurs, contiguously, inside the join. */
  lemma {:induction false} JoinContainsPart(parts: seq<string>, sep: string, k: nat)
    requires k < |parts|
    ensures Contains(Join(parts, sep), parts[k])
    decreases |parts|
  {
    var j := Join(parts, sep);
    if k == 0 {
      assert OccursAt(parts[0], j, 0);
    } else {
      JoinContainsPart(parts[1..], sep, k - 1);
      var t := Join(parts[1..], sep);
      var i :| OccursAt(parts[k], t, i);
      var off := |parts[0]| + |sep|;
      assert j == parts[0] + sep + t;
      assert j[off + i..off + i + |parts[k]|] == t[i..i + |parts[k]|];
      assert OccursAt(parts[k], j, off + i);
    }
  }

  /** ASCII lowercasing of one character. */
  function LowerChar(c: char): char {
    if 'A' <= c <= 'Z' then (c as int + 32) as char else c
  }

  /** Lowercases every ASCII letter and leaves every other character alone. */
  function ToLower(s: string): (r: string)
    ensures |r| == |s|
    ensures forall i :: 0 <= i < |s| ==> r[i] == LowerChar(s[i])
    ensures forall i :: 0 <= i < |s| ==> !('A' <= r[i] <= 'Z')
    decreases |s|
  {
    if |s| == 0 then "" else [LowerChar(s[0])] + ToLower(s[1..])
  }

  /** A string without ASCII capitals is its own lowercase form. */
  lemma ToLowerOfLower(s: string)
    requires forall i :: 0 <= i < |s| ==> !('A' <= s[i] <= 'Z')
    ensures ToLower(s) == s
  {
  }

  /** Lowercasing twice is lowercasing once. */
  lemma ToLowerIdempotent(s: string)
    ensures ToLower(ToLower(s)) == ToLower(s)
  {
  }
}
