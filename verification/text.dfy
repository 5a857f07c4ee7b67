/** String helpers shared by the backend (Python `str.strip`, `str.lower`,
    the `in` substring test) and the page script (`String.trim`,
    `split('\n')`, `join('\n')`). Strings are sequences of characters. */
module Text {

  /** The whitespace characters both `str.strip()` and `String.trim()`
      remove (the ASCII subset; see README for the Unicode ones). */
  predicate IsSpace(c: char) {
    c == ' ' || c == '\t' || c == '\n' || c == '\r' || c == '\U{B}' || c == '\U{C}'
  }

  predicate AllSpace(s: string) {
    forall i :: 0 <= i < |s| ==> IsSpace(s[i])
  }

  /** A string with no whitespace at either end. */
  predicate IsTrimmed(s: string) {
    |s| == 0 || (!IsSpace(s[0]) && !IsSpace(s[|s| - 1]))
  }

  /** Number of whitespace characters `s` starts with. */
  function LeadingSpace(s: string): (n: nat)
    ensures n <= |s| && AllSpace(s[..n])
    ensures n == |s| || !IsSpace(s[n])
  {
    if |s| > 0 && IsSpace(s[0]) then
      var m := LeadingSpace(s[1..]);
      assert forall j :: 1 <= j < 1 + m ==> s[j] == s[1..][..m][j - 1];
      1 + m
    else 0
  }

  /** Number of whitespace characters `s` ends with. */
  function TrailingSpace(s: string): (n: nat)
    ensures n <= |s| && AllSpace(s[|s| - n..])
    ensures n == |s| || !IsSpace(s[|s| - n - 1])
  {
    if |s| > 0 && IsSpace(s[|s| - 1]) then
      var m := TrailingSpace(s[..|s| - 1]);
      assert forall j :: |s| - 1 - m <= j < |s| - 1 ==> s[j] == s[..|s| - 1][|s| - 1 - m..][j - (|s| - 1 - m)];
      1 + m
    else 0
  }

  /** `r` is a slice of `s` with nothing but whitespace before and after it. */
  ghost predicate StrippedFrom(r: string, s: string) {
    exists i :: 0 <= i <= |s| - |r| && r == s[i..i + |r|] && AllSpace(s[..i]) && AllSpace(s[i + |r|..])
  }

  /** `str.strip()` / `String.trim()`: the result is the slice of `s` left
      after removing whitespace at both ends, and only whitespace is removed. */
  function Trim(s: string): (r: string)
    ensures IsTrimmed(r)
    ensures StrippedFrom(r, s)
    ensures r == "" <==> AllSpace(s)
  {
    var lo := LeadingSpace(s);
    var k := TrailingSpace(s[lo..]);
    TrimmedSlice(s, lo, k);
    s[lo..|s| - k]
  }

  /** Cutting the longest whitespace run from the front of `s`, then the
      longest one from the back of what is left, leaves a trimmed slice that
      is empty exactly when `s` is all whitespace. */
  lemma TrimmedSlice(s: string, lo: nat, k: nat)
    requires lo <= |s| && AllSpace(s[..lo]) && (lo == |s| || !IsSpace(s[lo]))
    requires k <= |s| - lo && AllSpace(s[lo..][|s| - lo - k..])
    requires k == |s| - lo || !IsSpace(s[lo..][|s| - lo - k - 1])
    ensures IsTrimmed(s[lo..|s| - k]) && StrippedFrom(s[lo..|s| - k], s)
    ensures s[lo..|s| - k] == "" <==> AllSpace(s)
  {
    TrailingOfSuffix(s, lo, k);
    TrimBothEnds(s, lo, |s| - k);
  }

  /** A whitespace run closing the suffix `s[lo..]` closes `s` as well. */
  lemma TrailingOfSuffix(s: string, lo: nat, k: nat)
    requires lo <= |s| && k <= |s| - lo
    requires AllSpace(s[lo..][|s| - lo - k..])
    requires k == |s| - lo || !IsSpace(s[lo..][|s| - lo - k - 1])
    ensures AllSpace(s[|s| - k..])
    ensures k == |s| - lo || !IsSpace(s[|s| - k - 1])
  {
    assert s[lo..][|s| - lo - k..] == s[|s| - k..];
  }

  /** What is left between `lo` leading and `|s| - hi` trailing whitespace
      characters, when neither run can be extended. */
  lemma TrimBothEnds(s: string, lo: nat, hi: nat)
    requires lo <= hi <= |s|
    requires AllSpace(s[..lo]) && (lo == |s| || !IsSpace(s[lo]))
    requires AllSpace(s[hi..]) && (hi == lo || !IsSpace(s[hi - 1]))
    ensures IsTrimmed(s[lo..hi])
    ensures StrippedFrom(s[lo..hi], s)
    ensures s[lo..hi] == "" <==> AllSpace(s)
  {
    SliceTrimmed(s, lo, hi);
    SliceStripped(s, lo, hi);
    SliceEmptyIff(s, lo, hi);
  }

  /** A slice whose end characters are not whitespace is trimmed. */
  lemma SliceTrimmed(s: string, lo: nat, hi: nat)
    requires lo <= hi <= |s|
    requires hi == lo || (!IsSpace(s[lo]) && !IsSpace(s[hi - 1]))
    ensures IsTrimmed(s[lo..hi])
  {
    if lo < hi {
      assert s[lo..hi][0] == s[lo] && s[lo..hi][hi - lo - 1] == s[hi - 1];
    }
  }

  /** A slice with only whitespace before and after it in `s` is stripped from `s`. */
  lemma SliceStripped(s: string, lo: nat, hi: nat)
    requires lo <= hi <= |s|
    requires AllSpace(s[..lo]) && AllSpace(s[hi..])
    ensures StrippedFrom(s[lo..hi], s)
  {
    assert s[lo..hi] == s[lo..lo + |s[lo..hi]|];
  }

  /** When the leading whitespace run of `s` ends at `lo` and only whitespace
      follows `hi`, the slice is empty exactly when `s` is all whitespace. */
  lemma SliceEmptyIff(s: string, lo: nat, hi: nat)
    requires lo <= hi <= |s|
    requires AllSpace(s[..lo]) && (lo == |s| || !IsSpace(s[lo]))
    requires AllSpace(s[hi..])
    ensures s[lo..hi] == "" <==> AllSpace(s)
  {
    if lo < hi {
      assert !IsSpace(s[lo]);
    } else if lo < |s| {
      assert false;
    } else {
      assert s[..lo] == s;
    }
  }

  /** Trimming is idempotent. */
  lemma TrimTrimmed(s: string)
    requires IsTrimmed(s)
    ensures Trim(s) == s
  {
    if |s| > 0 {
      assert LeadingSpace(s) == 0;
      assert s[0..] == s;
      assert TrailingSpace(s) == 0;
    }
  }

  /** ASCII `str.lower()` for one character. */
  function LowerChar(c: char): char {
    if 'A' <= c <= 'Z' then (c as int + 32) as char else c
  }

  /** `str.lower()` restricted to ASCII letters: same length, letter by letter. */
  function Lower(s: string): (r: string)
    ensures |r| == |s|
    ensures forall i :: 0 <= i < |s| ==> r[i] == LowerChar(s[i])
  {
    if |s| == 0 then "" else [LowerChar(s[0])] + Lower(s[1..])
  }

  /** After lower-casing no ASCII capital letter is left, and lower-casing again changes nothing. */
  lemma LowerIdempotent(s: string)
    ensures forall i :: 0 <= i < |s| ==> !('A' <= Lower(s)[i] <= 'Z')
    ensures Lower(Lower(s)) == Lower(s)
  {
  }

  /** `sub` occurs in `s` starting at position `i`. */
  predicate OccursAt(s: string, sub: string, i: int) {
    0 <= i && i + |sub| <= |s| && s[i..i + |sub|] == sub
  }

  /** Python's `sub in s`: true exactly when `sub` occurs somewhere in `s`. */
  function Contains(s: string, sub: string): (r: bool)
    ensures r <==> exists i :: OccursAt(s, sub, i)
    decreases |s|
  {
    if |sub| > |s| then false
    else if s[..|sub|] == sub then (assert OccursAt(s, sub, 0); true)
    else
      var r := Contains(s[1..], sub);
      assert forall i :: OccursAt(s[1..], sub, i) <==> OccursAt(s, sub, i + 1) by {
        forall i ensures OccursAt(s[1..], sub, i) <==> OccursAt(s, sub, i + 1) {
          if 0 <= i && i + |sub| <= |s| - 1 { assert s[1..][i..i + |sub|] == s[i + 1..i + 1 + |sub|]; }
        }
      }
      assert (exists i :: OccursAt(s, sub, i)) ==> exists i :: OccursAt(s[1..], sub, i) by {
        if exists i :: OccursAt(s, sub, i) {
          var i :| OccursAt(s, sub, i);
          assert i != 0;
          assert OccursAt(s[1..], sub, i - 1);
        }
      }
      r
  }

  /** A character of an occurring substring is a character of the string. */
  lemma ContainsChar(s: string, sub: string, c: char)
    requires Contains(s, sub) && c in sub
    ensures c in s
  {
    var i :| OccursAt(s, sub, i);
    var k :| 0 <= k < |sub| && sub[k] == c;
    assert s[i + k] == s[i..i + |sub|][k];
  }

  /** An occurrence of an occurrence is an occurrence. */
  lemma ContainsTrans(s: string, k: string, w: string)
    ensures Contains(s, k) && Contains(k, w) ==> Contains(s, w)
  {
    if Contains(s, k) && Contains(k, w) {
      var i :| OccursAt(s, k, i);
      var p :| OccursAt(k, w, p);
      forall t | 0 <= t < |w| ensures s[i + p + t] == w[t] {
        assert s[i + p + t] == s[i..i + |k|][p + t];
        assert k[p + t] == k[p..p + |w|][t];
      }
      assert s[i + p..i + p + |w|] == w;
      assert OccursAt(s, w, i + p);
    }
  }

  /** A character absent from `s` does not occur in it as a one-character string. */
  lemma CharAbsent(s: string, c: char)
    requires c !in s
    ensures !Contains(s, [c])
  {
    forall i ensures !OccursAt(s, [c], i) {
      if 0 <= i < |s| { assert s[i..i + 1] == [s[i]]; }
    }
  }

  /** A two-character string absent from `s` as a pair of neighbours does not occur in it. */
  lemma PairAbsent(s: string, a: char, b: char)
    requires forall i :: 0 <= i < |s| - 1 ==> !(s[i] == a && s[i + 1] == b)
    ensures !Contains(s, [a, b])
  {
    forall i ensures !OccursAt(s, [a, b], i) {
      if 0 <= i && i + 2 <= |s| { assert s[i..i + 2] == [s[i], s[i + 1]]; }
    }
  }

  /** JavaScript `parts.join(sep)`. */
  function Join(parts: seq<string>, sep: char): string {
    if |parts| == 0 then ""
    else if |parts| == 1 then parts[0]
    else parts[0] + [sep] + Join(parts[1..], sep)
  }

  /** JavaScript `s.split(sep)` for a one-character separator: the pieces
      contain no separator and joining them back gives `s`. */
  function Split(s: string, sep: char): (r: seq<string>)
    ensures |r| >= 1
    ensures forall i :: 0 <= i < |r| ==> sep !in r[i]
    ensures Join(r, sep) == s
  {
    if |s| == 0 then [""]
    else
      var rest := Split(s[1..], sep);
      if s[0] == sep then
        assert [sep] + s[1..] == s;
        [""] + rest
      else
        var r := [[s[0]] + rest[0]] + rest[1..];
        assert r[1..] == rest[1..];
        assert forall i :: 1 <= i < |r| ==> r[i] == rest[i];
        r
  }

  /** The separator shows up in a join of separator-free pieces exactly when there are two or more pieces. */
  lemma SepInJoin(parts: seq<string>, sep: char)
    requires |parts| >= 1
    requires forall i :: 0 <= i < |parts| ==> sep !in parts[i]
    ensures sep in Join(parts, sep) <==> |parts| > 1
  {
    if |parts| > 1 {
      assert Join(parts, sep)[|parts[0]|] == sep;
    }
  }

  /** Joining is injective on pieces free of the separator. */
  lemma {:induction false} JoinInjective(p: seq<string>, q: seq<string>, sep: char)
    requires |p| >= 1 && |q| >= 1
    requires forall i :: 0 <= i < |p| ==> sep !in p[i]
    requires forall i :: 0 <= i < |q| ==> sep !in q[i]
    requires Join(p, sep) == Join(q, sep)
    ensures p == q
    decreases |p| + |q|
  {
    SepInJoin(p, sep);
    SepInJoin(q, sep);
    if |p| > 1 {
      var jp := p[0] + [sep] + Join(p[1..], sep);
      var jq := q[0] + [sep] + Join(q[1..], sep);
      assert jp == jq;
      assert forall k :: 0 <= k < |p[0]| ==> jp[k] == p[0][k];
      assert forall k :: 0 <= k < |q[0]| ==> jq[k] == q[0][k];
      assert jp[|p[0]|] == sep && jq[|q[0]|] == sep;
      assert |p[0]| == |q[0]|;
      assert p[0] == jp[..|p[0]|] == jq[..|q[0]|] == q[0];
      assert Join(p[1..], sep) == jp[|p[0]| + 1..] == jq[|q[0]| + 1..] == Join(q[1..], sep);
      JoinInjective(p[1..], q[1..], sep);
      assert p == [p[0]] + p[1..];
      assert q == [q[0]] + q[1..];
    }
  }

  /** A join starts with its first piece. */
  lemma JoinPrefix(parts: seq<string>, sep: char)
    requires |parts| >= 1
    ensures |parts[0]| <= |Join(parts, sep)| && Join(parts, sep)[..|parts[0]|] == parts[0]
  {
    if |parts| > 1 {
      assert Join(parts, sep) == parts[0] + ([sep] + Join(parts[1..], sep));
    }
  }

  /** A join ends with its last piece. */
  lemma {:induction false} JoinSuffix(parts: seq<string>, sep: char)
    requires |parts| >= 1
    ensures var last := parts[|parts| - 1];
            |last| <= |Join(parts, sep)| && Join(parts, sep)[|Join(parts, sep)| - |last|..] == last
  {
    if |parts| > 1 {
      var rest := Join(parts[1..], sep);
      JoinSuffix(parts[1..], sep);
      assert parts[1..][|parts[1..]| - 1] == parts[|parts| - 1];
      assert Join(parts, sep) == (parts[0] + [sep]) + rest;
    }
  }

  /** A join whose first and last pieces are non-empty and trimmed is itself
      non-empty and trimmed, so trimming it changes nothing. */
  lemma JoinTrimmed(parts: seq<string>, sep: char)
    requires |parts| >= 1
    requires parts[0] != "" && IsTrimmed(parts[0])
    requires parts[|parts| - 1] != "" && IsTrimmed(parts[|parts| - 1])
    ensures Join(parts, sep) != "" && IsTrimmed(Join(parts, sep))
    ensures Trim(Join(parts, sep)) == Join(parts, sep)
  {
    var j := Join(parts, sep);
    var last := parts[|parts| - 1];
    JoinPrefix(parts, sep);
    JoinSuffix(parts, sep);
    assert j[0] == j[..|parts[0]|][0] == parts[0][0];
    assert j[|j| - 1] == j[|j| - |last|..][|last| - 1] == last[|last| - 1];
    TrimTrimmed(j);
  }

  /** Splitting a join of separator-free pieces gives the pieces back. */
  lemma SplitJoin(parts: seq<string>, sep: char)
    requires |parts| >= 1
    requires forall i :: 0 <= i < |parts| ==> sep !in parts[i]
    ensures Split(Join(parts, sep), sep) == parts
  {
    JoinInjective(Split(Join(parts, sep), sep), parts, sep);
  }
}
