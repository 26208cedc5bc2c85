/** The few `str` operations of Python that the documentation verifier uses:
    substring tests, `count`, `split`/`join` on one separator, `strip`, `lower`. */
module Text {

  /** Python's `\w`, restricted to ASCII: letters, digits and the underscore. */
  predicate IsWordChar(c: char) {
    ('a' <= c <= 'z') || ('A' <= c <= 'Z') || ('0' <= c <= '9') || c == '_'
  }

  /** The characters `str.strip()` removes (those for which `str.isspace()` holds). */
  const SpaceChars: set<char> := {
    ' ', '\t', '\n', '\U{b}', '\U{c}', '\r', '\U{1c}', '\U{1d}', '\U{1e}', '\U{1f}',
    '\U{85}', '\U{a0}', '\U{1680}',
    '\U{2000}', '\U{2001}', '\U{2002}', '\U{2003}', '\U{2004}', '\U{2005}',
    '\U{2006}', '\U{2007}', '\U{2008}', '\U{2009}', '\U{200a}',
    '\U{2028}', '\U{2029}', '\U{202f}', '\U{205f}', '\U{3000}'
  }

  predicate IsSpace(c: char) {
    c in SpaceChars
  }

  /** `str.lower()` on the ASCII letters; every other character is kept. */
  function LowerChar(c: char): char {
    if 'A' <= c <= 'Z' then (c as int - 'A' as int + 'a' as int) as char else c
  }

  /** `str.lower()` on ASCII: same length, each upper-case ASCII letter
      replaced by its lower-case partner, every other character kept where it was. */
  function Lower(s: string): (r: string)
    ensures |r| == |s|
    ensures forall i :: 0 <= i < |r| ==> !('A' <= r[i] <= 'Z')
    ensures forall i :: 0 <= i < |s| && !('A' <= s[i] <= 'Z') ==> r[i] == s[i]
    ensures forall i :: 0 <= i < |s| && 'A' <= s[i] <= 'Z' ==> r[i] as int == s[i] as int + 32
  {
    seq(|s|, i requires 0 <= i < |s| => LowerChar(s[i]))
  }

  /** Lower-casing twice is lower-casing once. */
  lemma LowerIdempotent(s: string)
    ensures Lower(Lower(s)) == Lower(s)
  {
  }

  predicate StartsWith(s: string, prefix: string) {
    |prefix| <= |s| && s[..|prefix|] == prefix
  }

  /** A slice of a slice is a slice. */
  lemma SliceOfSlice(s: string, a: nat, b: nat, c: nat, d: nat)
    requires a <= b <= |s| && c <= d <= b - a
    ensures s[a..b][c..d] == s[a + c..a + d]
  {
    assert forall t :: 0 <= t < d - c ==> s[a..b][c..d][t] == s[a + c..a + d][t];
  }

  /** Two adjacent slices make one. */
  lemma SliceConcat(s: string, a: nat, b: nat, c: nat)
    requires a <= b <= c <= |s|
    ensures s[a..c] == s[a..b] + s[b..c]
  {
  }

  /** Python's `sub in s`: the empty string is in every string, and nothing
      longer than `s` is in `s`. */
  predicate Contains(s: string, sub: string)
    ensures sub == [] ==> Contains(s, sub)
    ensures Contains(s, sub) ==> |sub| <= |s|
    decreases |s|
  {
    StartsWith(s, sub) || (|s| > 0 && Contains(s[1..], sub))
  }

  /** `sub` stands in `s` at index `i`. */
  ghost predicate OccursAt(s: string, sub: string, i: int) {
    0 <= i && i + |sub| <= |s| && s[i..i + |sub|] == sub
  }

  /** The recursive search agrees with the definition by an index. */
  lemma {:induction false} ContainsIff(s: string, sub: string)
    ensures Contains(s, sub) <==> exists i :: OccursAt(s, sub, i)
    decreases |s|
  {
    if StartsWith(s, sub) {
      assert OccursAt(s, sub, 0);
    } else if |s| == 0 {
      forall i | OccursAt(s, sub, i) ensures false {
      }
    } else {
      ContainsIff(s[1..], sub);
      forall i | OccursAt(s[1..], sub, i) ensures OccursAt(s, sub, i + 1) {
        assert s[1..][i..i + |sub|] == s[i + 1..i + 1 + |sub|];
      }
      forall i | OccursAt(s, sub, i) ensures OccursAt(s[1..], sub, i - 1) {
        assert i > 0;
        assert s[1..][i - 1..i - 1 + |sub|] == s[i..i + |sub|];
      }
    }
  }

  /** A substring of a substring is a substring. */
  lemma ContainsTransitive(s: string, mid: string, sub: string)
    requires Contains(s, mid) && Contains(mid, sub)
    ensures Contains(s, sub)
  {
    ContainsIff(s, mid);
    ContainsIff(mid, sub);
    ContainsIff(s, sub);
    var i :| OccursAt(s, mid, i);
    var j :| OccursAt(mid, sub, j);
    forall k | 0 <= k < |sub| ensures s[i + j + k] == sub[k] {
      assert s[i..i + |mid|][j + k] == mid[j + k];
      assert mid[j..j + |sub|][k] == sub[k];
    }
    assert s[i + j..i + j + |sub|] == sub;
    assert OccursAt(s, sub, i + j);
  }

  /** Python's `s.count(c)` for a one-character `c`: at most the length, and
      zero exactly when `c` does not occur. */
  function CountChar(s: string, c: char): (n: nat)
    ensures n <= |s|
    ensures n == 0 <==> forall k :: 0 <= k < |s| ==> s[k] != c
    decreases |s|
  {
    if s == [] then 0
    else
      assert forall k :: 1 <= k < |s| ==> s[k] == s[1..][k - 1];
      (if s[0] == c then 1 else 0) + CountChar(s[1..], c)
  }

  lemma {:induction false} CountCharConcat(a: string, b: string, c: char)
    ensures CountChar(a + b, c) == CountChar(a, c) + CountChar(b, c)
    decreases |a|
  {
    if a == [] {
      assert a + b == b;
    } else {
      assert (a + b)[1..] == a[1..] + b;
      CountCharConcat(a[1..], b, c);
    }
  }

  /** A slice never holds more copies of `c` than the whole string. */
  lemma CountCharSlice(s: string, i: nat, j: nat, c: char)
    requires i <= j <= |s|
    ensures CountChar(s[i..j], c) <= CountChar(s, c)
  {
    assert s == s[..i] + s[i..j] + s[j..];
    CountCharConcat(s[..i] + s[i..j], s[j..], c);
    CountCharConcat(s[..i], s[i..j], c);
  }

  /** A longer prefix that takes in one more copy of `c` counts strictly more. */
  lemma CountCharPrefixStrict(s: string, i: nat, k: nat, j: nat, c: char)
    requires i <= k < j <= |s| && s[k] == c
    ensures CountChar(s[..i], c) < CountChar(s[..j], c)
  {
    assert s[..j] == s[..i] + s[i..j];
    CountCharConcat(s[..i], s[i..j], c);
    assert s[i..j][k - i] == c;
  }

  /** Python's `s.split(sep)` for a one-character separator: never an empty list. */
  function Split(s: string, sep: char): (parts: seq<string>)
    ensures |parts| >= 1
    decreases |s|
  {
    if s == [] then [""]
    else
      var rest := Split(s[1..], sep);
      if s[0] == sep then [""] + rest
      else [[s[0]] + rest[0]] + rest[1..]
  }

  /** Python's `sep.join(parts)`: the first piece leads, and the separators
      alone take `|parts| - 1` characters. */
  function Join(parts: seq<string>, sep: char): (r: string)
    ensures |parts| > 0 ==> StartsWith(r, parts[0])
    ensures |parts| > 0 ==> |r| >= |parts| - 1
    decreases |parts|
  {
    if |parts| == 0 then ""
    else if |parts| == 1 then parts[0]
    else
      var rest := Join(parts[1..], sep);
      assert (parts[0] + [sep] + rest)[..|parts[0]|] == parts[0];
      parts[0] + [sep] + rest
  }

  /** No piece of a split holds the separator. */
  lemma {:induction false} SplitPiecesFree(s: string, sep: char)
    ensures forall k :: 0 <= k < |Split(s, sep)| ==> CountChar(Split(s, sep)[k], sep) == 0
    decreases |s|
  {
    if s != [] {
      SplitPiecesFree(s[1..], sep);
      var rest := Split(s[1..], sep);
      if s[0] != sep {
        assert ([s[0]] + rest[0])[1..] == rest[0];
      }
    }
  }

  /** Joining what was split gives back the text. */
  lemma {:induction false} JoinSplit(s: string, sep: char)
    ensures Join(Split(s, sep), sep) == s
    decreases |s|
  {
    if s != [] {
      JoinSplit(s[1..], sep);
      var rest := Split(s[1..], sep);
      if s[0] == sep {
        assert ([""] + rest)[1..] == rest;
      } else {
        var parts := [[s[0]] + rest[0]] + rest[1..];
        assert parts[1..] == rest[1..];
        if |rest| > 1 {
          assert Join(rest, sep) == rest[0] + [sep] + Join(rest[1..], sep);
        }
      }
    }
  }

  /** Joining `n` separator-free pieces puts exactly `n - 1` separators in. */
  lemma {:induction false} JoinCount(parts: seq<string>, sep: char)
    requires forall k :: 0 <= k < |parts| ==> CountChar(parts[k], sep) == 0
    ensures |parts| > 0 ==> CountChar(Join(parts, sep), sep) == |parts| - 1
    ensures |parts| == 0 ==> CountChar(Join(parts, sep), sep) == 0
    decreases |parts|
  {
    if |parts| > 1 {
      JoinCount(parts[1..], sep);
      CountCharConcat(parts[0] + [sep], Join(parts[1..], sep), sep);
      CountCharConcat(parts[0], [sep], sep);
    }
  }

  /** Python's `lst[-n:]`: the last `n` items, or all of them when there are fewer. */
  function LastN<T>(xs: seq<T>, n: nat): (r: seq<T>)
    ensures |r| <= n && |r| <= |xs|
    ensures |r| == n || r == xs
  {
    if |xs| <= n then xs else xs[|xs| - n..]
  }

  /** What `lst[-n:]` keeps is a suffix of the list. */
  lemma LastNSuffix<T>(xs: seq<T>, n: nat)
    ensures LastN(xs, n) == xs[|xs| - |LastN(xs, n)|..]
  {
  }

  /** The first index at or after `i` that does not hold white space. */
  function SkipSpace(s: string, i: nat): (k: nat)
    requires i <= |s|
    ensures i <= k <= |s|
    decreases |s| - i
  {
    if i < |s| && IsSpace(s[i]) then SkipSpace(s, i + 1) else i
  }

  /** The end of `s[lo..j]` once trailing white space is dropped. */
  function TrimEnd(s: string, lo: nat, j: nat): (k: nat)
    requires lo <= j <= |s|
    ensures lo <= k <= j
    decreases j
  {
    if j > lo && IsSpace(s[j - 1]) then TrimEnd(s, lo, j - 1) else j
  }

  /** Python's `s.strip()`: no longer than the text, and neither end is white space. */
  function Strip(s: string): (r: string)
    ensures |r| <= |s|
    ensures r == [] || (!IsSpace(r[0]) && !IsSpace(r[|r| - 1]))
  {
    var i := SkipSpace(s, 0);
    var j := TrimEnd(s, i, |s|);
    SkipSpaceStops(s, 0);
    TrimEndStops(s, i, |s|);
    s[i..j]
  }

  lemma {:induction false} SkipSpaceStops(s: string, i: nat)
    requires i <= |s|
    ensures SkipSpace(s, i) == |s| || !IsSpace(s[SkipSpace(s, i)])
    ensures forall k :: i <= k < SkipSpace(s, i) ==> IsSpace(s[k])
    decreases |s| - i
  {
    if i < |s| && IsSpace(s[i]) {
      SkipSpaceStops(s, i + 1);
    }
  }

  lemma {:induction false} TrimEndStops(s: string, lo: nat, j: nat)
    requires lo <= j <= |s|
    ensures TrimEnd(s, lo, j) == lo || !IsSpace(s[TrimEnd(s, lo, j) - 1])
    ensures forall k :: TrimEnd(s, lo, j) <= k < j ==> IsSpace(s[k])
    decreases j
  {
    if j > lo && IsSpace(s[j - 1]) {
      TrimEndStops(s, lo, j - 1);
    }
  }

  /** Stripping keeps a slice of the text and drops only white space before
      and after it. */
  lemma StripIsSlice(s: string) returns (i: nat, j: nat)
    ensures i <= j <= |s| && Strip(s) == s[i..j]
    ensures forall k :: 0 <= k < i ==> IsSpace(s[k])
    ensures forall k :: j <= k < |s| ==> IsSpace(s[k])
  {
    i := SkipSpace(s, 0);
    j := TrimEnd(s, i, |s|);
    SkipSpaceStops(s, 0);
    TrimEndStops(s, i, |s|);
  }
}
